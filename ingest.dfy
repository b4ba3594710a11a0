/**
  proc_col_req as the step-by-step procedure it is: the checks, the UNITS
  loop, one connection, SHOW TABLES and SHOW COLUMNS, the ALTER loop with
  its new-key assertion, and the CREATE loop. Each loop is proved to issue
  exactly what the pure description in module Plan says.
 */
module Ingest {
  import opened Text
  import opened Request
  import opened Ddl
  import opened Plan

  /**
    The engine and the database behind it. The schema is what SHOW TABLES
    and SHOW COLUMNS report during one run (both are queried before any
    statement is sent); log holds the DDL statements sent, in order.
   */
  class Engine {
    const schema: map<string, seq<string>>
    var connections: nat
    var log: seq<Statement>

    constructor (schema: map<string, seq<string>>)
      ensures this.schema == schema && connections == 0 && log == []
    {
      this.schema := schema;
      connections := 0;
      log := [];
    }

    /** engine.connect() */
    method Connect()
      modifies this`connections
      ensures connections == old(connections) + 1
    {
      connections := connections + 1;
    }

    /** SHOW TABLES */
    function ShowTables(): (tables: set<string>)
      ensures forall t :: t in tables <==> t in schema
    {
      schema.Keys
    }

    /** SHOW COLUMNS IN t, for a table SHOW TABLES listed. */
    function ShowColumns(t: string): (columns: seq<string>)
      requires t in schema
      ensures columns == Columns(schema, t)
    {
      schema[t]
    }

    /** connection.execute(text(...)) of one ALTER TABLE or CREATE TABLE statement. */
    method Execute(s: Statement)
      modifies this`log
      ensures log == old(log) + [s]
    {
      log := log + [s];
    }
  }

  /** list(s): the elements of a set in some order, each once. */
  method Enumerate<T(==)>(s: set<T>) returns (xs: seq<T>)
    ensures Enumerates(xs, s)
  {
    xs := [];
    var rest := s;
    while rest != {}
      invariant rest <= s
      invariant forall x :: x in xs ==> x in s && x !in rest
      invariant forall x :: x in s ==> x in xs || x in rest
      invariant Distinct(xs)
      invariant |xs| + |rest| == |s|
      decreases |rest|
    {
      var x :| x in rest;
      xs := xs + [x];
      rest := rest - {x};
    }
  }

  /** The UNITS split applied to the table: UNITS replaced, PHYSICALUNIT added. */
  method SplitUnitsColumn(rows: seq<Row>) returns (data: seq<Entry>)
    requires Complete(rows)
    ensures data == Entries(rows)
  {
    var units := seq(|rows|, i requires 0 <= i < |rows| => rows[i].units.value);
    var sqlu, physu := SplitUnits(units);
    data := seq(|rows|, i requires 0 <= i < |rows| => WithUnits(rows[i], sqlu[i], physu[i]));
  }

  /** The column text of each row, in row order (the txt list of the CREATE loop). */
  method ColumnDefs(rows: seq<Entry>) returns (txt: seq<ColumnDef>)
    ensures txt == Defs(rows)
  {
    txt := [];
    for j := 0 to |rows|
      invariant txt == Defs(rows[..j])
    {
      var row := rows[j];
      var unit := if row.sqlUnit == "STRING" then "TEXT" else row.sqlUnit;
      txt := txt + [ColumnDef(row.dbColname, unit, CellText(row.description))];
    }
    assert rows[..|rows|] == rows;
  }

  /** The inner ALTER loop: one ADD COLUMN per new key of table t, in row order. */
  method AddColumns(engine: Engine, t: string, newkeys: seq<Entry>)
    modifies engine`log
    ensures engine.log == old(engine.log) + Alters(t, newkeys)
  {
    for j := 0 to |newkeys|
      invariant engine.log == old(engine.log) + Alters(t, newkeys[..j])
    {
      var row := newkeys[j];
      var unit := if row.sqlUnit == "STRING" then "TEXT" else row.sqlUnit;
      assert Alters(t, newkeys[..j + 1]) == Alters(t, newkeys[..j]) + [AddColumn(t, Def(row))];
      engine.Execute(AddColumn(t, ColumnDef(row.dbColname, unit, CellText(row.description))));
    }
    assert newkeys[..|newkeys|] == newkeys;
  }

  /**
    One pass of the loop over the existing tables: select the table's rows,
    keep those whose column it lacks, refuse if one is not marked new,
    otherwise add them.
   */
  method AlterTable(engine: Engine, data: seq<Entry>, t: string, columns: seq<string>)
    returns (admitted: bool)
    requires columns == Columns(engine.schema, t)
    modifies engine`log
    ensures admitted == AllMarkedNew(MissingFor(data, engine.schema, t))
    ensures engine.log == old(engine.log) + if admitted then Alters(t, MissingFor(data, engine.schema, t)) else []
  {
    var tmp := RowsOf(data, Present(t));
    var newkeys := MissingRows(tmp, columns);
    if !AllMarkedNew(newkeys) {
      return false;
    }
    AddColumns(engine, t, newkeys);
    return true;
  }

  /**
    The loop over the existing tables: stops at the first table with a
    missing column not marked new, after the ALTERs of the tables before it.
   */
  method AlterExisting(engine: Engine, data: seq<Entry>, existing: seq<string>,
                       existingKeys: map<string, seq<string>>)
    returns (outcome: Outcome)
    requires forall t :: t in existing ==> t in existingKeys && existingKeys[t] == Columns(engine.schema, t)
    modifies engine`log
    ensures var run := AlterPhase(data, engine.schema, existing);
      outcome == run.outcome && engine.log == old(engine.log) + run.issued
  {
    for i := 0 to |existing|
      invariant engine.log == old(engine.log) + AllAlters(data, engine.schema, existing[..i])
      invariant Admitted(data, engine.schema, existing[..i])
    {
      var t := existing[i];
      var admitted := AlterTable(engine, data, t, existingKeys[t]);
      if !admitted {
        AlterPhaseRefusedAt(data, engine.schema, existing, i);
        return Failed(KeysNotMarkedNew(t));
      }
      AlterStep(data, engine.schema, existing, i);
      LogOfBothPhases(old(engine.log), AllAlters(data, engine.schema, existing[..i]),
                      Alters(t, MissingFor(data, engine.schema, t)));
    }
    assert existing[..|existing|] == existing;
    AlterPhaseAdmitted(data, engine.schema, existing);
    return Completed;
  }

  /** The loop over the new tables: one CREATE TABLE each, its columns in row order. */
  method CreateNew(engine: Engine, data: seq<Entry>, newTables: seq<Cell<string>>)
    modifies engine`log
    ensures engine.log == old(engine.log) + CreatePhase(data, newTables)
  {
    for i := 0 to |newTables|
      invariant engine.log == old(engine.log) + CreatePhase(data, newTables[..i])
    {
      var t := newTables[i];
      var tmp := RowsOf(data, t);
      var txt := ColumnDefs(tmp);
      assert newTables[..i + 1][..i] == newTables[..i];
      engine.Execute(CreateTable(CellText(t), txt));
    }
    assert newTables[..|newTables|] == newTables;
  }

  /** Sending the ALTERs and then the CREATEs appends both, in that order. */
  lemma LogOfBothPhases(log: seq<Statement>, alters: seq<Statement>, creates: seq<Statement>)
    ensures (log + alters) + creates == log + (alters + creates)
  {
  }

  /** existing_keys: SHOW COLUMNS for each existing table. */
  method FetchColumns(engine: Engine, existing: seq<string>) returns (existingKeys: map<string, seq<string>>)
    requires forall t :: t in existing ==> t in engine.schema
    ensures forall t :: t in existing ==> t in existingKeys && existingKeys[t] == Columns(engine.schema, t)
  {
    existingKeys := map[];
    for i := 0 to |existing|
      invariant forall t :: t in existing[..i] ==>
        t in existingKeys && existingKeys[t] == Columns(engine.schema, t)
    {
      var t := existing[i];
      existingKeys := existingKeys[t := engine.ShowColumns(t)];
    }
    assert existing[..|existing|] == existing;
  }

  /**
    Everything after the checks, on the split table: one connection, the
    split of the requested tables into existing and new ones, the ALTER
    loop, then (unless it failed) the CREATE loop.
   */
  method RunRequest(engine: Engine, data: seq<Entry>)
    returns (outcome: Outcome, ghost existingOrder: seq<string>, ghost newOrder: seq<Cell<string>>)
    modifies engine
    ensures var run := Diff(data, engine.schema, existingOrder, newOrder);
      outcome == run.outcome && engine.log == old(engine.log) + run.issued
    ensures engine.connections == old(engine.connections) + 1
    ensures var existing := ExistingTables(Requested(data), engine.schema.Keys);
      Enumerates(existingOrder, existing) &&
      (outcome == Completed ==> Enumerates(newOrder, NewTables(Requested(data), existing)))
  {
    newOrder := [];
    var reqTables := set e | e in data :: e.table;

    engine.Connect();
    var tables := engine.ShowTables();
    var existingSet := set t | t in tables && Present(t) in reqTables;
    assert existingSet == ExistingTables(Requested(data), engine.schema.Keys);
    var existingTables := Enumerate(existingSet);
    existingOrder := existingTables;

    var existingKeys := FetchColumns(engine, existingTables);
    ghost var before := engine.log;
    outcome := AlterExisting(engine, data, existingTables, existingKeys);
    ghost var alter := AlterPhase(data, engine.schema, existingTables);
    if outcome.Failed? {
      return;
    }
    ghost var altered := engine.log;
    assert altered == before + alter.issued;

    var newSet := reqTables - set t | t in existingTables :: Present(t);
    assert newSet == NewTables(Requested(data), existingSet);
    var newTables := Enumerate(newSet);
    newOrder := newTables;
    CreateNew(engine, data, newTables);
    ghost var creates := CreatePhase(data, newTables);
    assert engine.log == altered + creates;
    assert Diff(data, engine.schema, existingTables, newTables) == Run(Completed, alter.issued + creates);
    LogOfBothPhases(before, alter.issued, creates);
  }

  /**
    proc_col_req(fname, engine): the file's name, header row and rows stand
    for what pandas reads. The orders in which the two Python sets were
    walked are returned as ghost values; the outcome and the statements sent
    are those Process describes for those orders, and each order lists its
    set exactly once.
   */
  method ProcColReq(fname: string, headers: seq<string>, rows: seq<Row>, engine: Engine)
    returns (outcome: Outcome, ghost existingOrder: seq<string>, ghost newOrder: seq<Cell<string>>)
    modifies engine
    ensures var run := Process(fname, headers, rows, engine.schema, existingOrder, newOrder);
      outcome == run.outcome && engine.log == old(engine.log) + run.issued
    ensures engine.connections ==
      old(engine.connections) + if Validates(fname, headers, rows) then 1 else 0
    ensures Validates(fname, headers, rows) ==>
      Enumerates(existingOrder, ExistingOf(rows, engine.schema))
    ensures outcome == Completed ==>
      Validates(fname, headers, rows) && Enumerates(newOrder, NewOf(rows, engine.schema))
  {
    existingOrder, newOrder := [], [];
    var ext := Extension(fname);
    if !(ext == "csv" || ext in ["xlsx", "xls"]) {
      return Failed(UnsupportedExtension), existingOrder, newOrder;
    }
    if !HeadersValid(headers) {
      return Failed(WrongHeaders), existingOrder, newOrder;
    }
    if !Complete(rows) {
      return Failed(MissingEntries), existingOrder, newOrder;
    }
    var data := SplitUnitsColumn(rows);
    outcome, existingOrder, newOrder := RunRequest(engine, data);
  }
}
