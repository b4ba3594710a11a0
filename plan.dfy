/**
  The decision part of the request processor as pure functions: which
  validation fails, how the requested tables split into existing and new
  ones, and which statements are issued, in which order, for a given
  snapshot of the live schema.

  The live schema is a map from table name to its column names (what
  SHOW TABLES and SHOW COLUMNS report). The processor walks the existing
  and the new tables in the order of a Python set; that order is a
  parameter here (`existingOrder`, `newOrder`), and the lemmas hold for
  every order that lists each table exactly once.
 */
module Plan {
  import opened Text
  import opened Request
  import opened Ddl

  datatype Failure =
    | UnsupportedExtension          // NotImplementedError
    | WrongHeaders                  // header assertion
    | MissingEntries                // completeness assertion
    | KeysNotMarkedNew(table: string)  // new-key assertion for an existing table

  datatype Outcome = Completed | Failed(failure: Failure)

  /** The outcome of a run and the statements issued before it ended. */
  datatype Run = Run(outcome: Outcome, issued: seq<Statement>)

  /** Only csv, xls and xlsx files are read. */
  predicate SupportedExtension(ext: string) {
    ext == "csv" || ext == "xlsx" || ext == "xls"
  }

  /** Every check made before the database is contacted passes. */
  predicate Validates(fname: string, headers: seq<string>, rows: seq<Row>) {
    SupportedExtension(Extension(fname)) && HeadersValid(headers) && Complete(rows)
  }

  predicate Distinct<T(==)>(xs: seq<T>) {
    forall i, j :: 0 <= i < j < |xs| ==> xs[i] != xs[j]
  }

  /** xs lists the elements of s, each once: one possible list(s). */
  predicate Enumerates<T(==)>(xs: seq<T>, s: set<T>) {
    (forall x :: x in xs ==> x in s) && (forall x :: x in s ==> x in xs) && Distinct(xs) && |xs| == |s|
  }

  /** The distinct values of the TABLE column. */
  function Requested(entries: seq<Entry>): set<Cell<string>> {
    set e | e in entries :: e.table
  }

  /** Requested tables that the database already has: set(requested) & set(tables). */
  function ExistingTables(requested: set<Cell<string>>, tables: set<string>): set<string> {
    set t | t in tables && Present(t) in requested
  }

  function Lift(names: set<string>): set<Cell<string>> {
    set t | t in names :: Present(t)
  }

  /** Requested tables that are not existing ones: set(requested) - set(existing). */
  function NewTables(requested: set<Cell<string>>, existing: set<string>): set<Cell<string>> {
    requested - Lift(existing)
  }

  /** The requested tables split into existing and new ones, with no overlap and nothing lost. */
  lemma PartitionOfRequestedTables(requested: set<Cell<string>>, tables: set<string>)
    ensures var existing := ExistingTables(requested, tables);
      var added := NewTables(requested, existing);
      Lift(existing) !! added && Lift(existing) + added == requested &&
      (forall k :: k in added ==> k.Missing? || k.value !in tables) &&
      (forall t :: t in existing ==> t in tables)
  {
    var existing := ExistingTables(requested, tables);
    assert Lift(existing) <= requested by {
      forall k | k in Lift(existing) ensures k in requested {
        var t :| t in existing && k == Present(t);
      }
    }
    forall k | k in NewTables(requested, existing) && k.Present?
      ensures k.value !in tables
    {
      assert k in requested;
      assert k.value in existing ==> k in Lift(existing);
    }
  }

  /**
    data.loc[data["TABLE"] == k]: the rows requested for table k, in input
    order. A missing table name (NaN) equals nothing, not even itself.
   */
  function RowsOf(entries: seq<Entry>, k: Cell<string>): (rows: seq<Entry>)
    ensures |rows| <= |entries|
  {
    if entries == [] then []
    else
      (if k.Present? && entries[0].table == k then [entries[0]] else []) + RowsOf(entries[1..], k)
  }

  /** The rows of table k are exactly the entries naming k, and none when k is missing. */
  lemma {:induction false} RowsOfMembers(entries: seq<Entry>, k: Cell<string>)
    ensures forall e :: e in RowsOf(entries, k) <==> e in entries && k.Present? && e.table == k
  {
    if entries != [] {
      RowsOfMembers(entries[1..], k);
      assert entries == [entries[0]] + entries[1..];
    }
  }

  /** Selecting the rows of a table commutes with concatenation: input order is kept. */
  lemma {:induction false} RowsOfAppend(a: seq<Entry>, b: seq<Entry>, k: Cell<string>)
    ensures RowsOf(a + b, k) == RowsOf(a, k) + RowsOf(b, k)
  {
    if a == [] {
      assert a + b == b;
    } else {
      var ab := a + b;
      assert ab[0] == a[0] && ab[1..] == a[1..] + b;
      RowsOfAppend(a[1..], b, k);
      if k.Present? && a[0].table == k {
        calc {
          RowsOf(ab, k);
          [a[0]] + RowsOf(a[1..] + b, k);
          [a[0]] + (RowsOf(a[1..], k) + RowsOf(b, k));
          ([a[0]] + RowsOf(a[1..], k)) + RowsOf(b, k);
        }
      } else {
        calc {
          RowsOf(ab, k);
          [] + RowsOf(a[1..] + b, k);
          RowsOf(a[1..], k) + RowsOf(b, k);
        }
      }
    }
  }

  /** tmp.loc[~tmp["DB_COLNAME"].isin(columns)]: the rows whose column the table lacks. */
  function MissingRows(rows: seq<Entry>, columns: seq<string>): (missing: seq<Entry>)
    ensures |missing| <= |rows|
  {
    if rows == [] then []
    else
      (if rows[0].dbColname !in columns then [rows[0]] else []) + MissingRows(rows[1..], columns)
  }

  /** The missing rows are exactly the rows whose column is not among the given ones. */
  lemma {:induction false} MissingRowsMembers(rows: seq<Entry>, columns: seq<string>)
    ensures forall e :: e in MissingRows(rows, columns) <==> e in rows && e.dbColname !in columns
  {
    if rows != [] {
      MissingRowsMembers(rows[1..], columns);
      assert rows == [rows[0]] + rows[1..];
    }
  }

  /** Keeping the missing rows commutes with concatenation: duplicates and row order are kept. */
  lemma {:induction false} MissingRowsAppend(a: seq<Entry>, b: seq<Entry>, columns: seq<string>)
    ensures MissingRows(a + b, columns) == MissingRows(a, columns) + MissingRows(b, columns)
  {
    if a == [] {
      assert a + b == b;
    } else {
      var ab := a + b;
      assert ab[0] == a[0] && ab[1..] == a[1..] + b;
      MissingRowsAppend(a[1..], b, columns);
      if a[0].dbColname !in columns {
        calc {
          MissingRows(ab, columns);
          [a[0]] + MissingRows(a[1..] + b, columns);
          [a[0]] + (MissingRows(a[1..], columns) + MissingRows(b, columns));
          ([a[0]] + MissingRows(a[1..], columns)) + MissingRows(b, columns);
        }
      } else {
        calc {
          MissingRows(ab, columns);
          [] + MissingRows(a[1..] + b, columns);
          MissingRows(a[1..], columns) + MissingRows(b, columns);
        }
      }
    }
  }

  /** A NEW_KEY cell counts as true unless it is false; a missing cell is skipped by all(). */
  predicate MarkedNew(e: Entry) {
    e.newKey != Present(false)
  }

  predicate AllMarkedNew(rows: seq<Entry>) {
    forall e :: e in rows ==> MarkedNew(e)
  }

  /** The live columns of a table; none for a table the database lacks. */
  function Columns(live: map<string, seq<string>>, t: string): seq<string> {
    if t in live then live[t] else []
  }

  /** The requested rows of existing table t whose column t lacks. */
  function MissingFor(entries: seq<Entry>, live: map<string, seq<string>>, t: string): seq<Entry> {
    MissingRows(RowsOf(entries, Present(t)), Columns(live, t))
  }

  /** One ALTER TABLE t ADD COLUMN per missing row, in row order. */
  function Alters(t: string, missing: seq<Entry>): seq<Statement> {
    seq(|missing|, i requires 0 <= i < |missing| => AddColumn(t, Def(missing[i])))
  }

  /**
    The loop over the existing tables: for each in turn, refuse when a
    missing column is not marked new, otherwise add every missing column.
    Statements issued for earlier tables stay issued when a later table
    is refused.
   */
  function AlterPhase(entries: seq<Entry>, live: map<string, seq<string>>, order: seq<string>): (run: Run)
    ensures forall s :: s in run.issued ==> s.AddColumn?
    ensures run.outcome.Failed? ==>
      run.outcome.failure.KeysNotMarkedNew? && run.outcome.failure.table in order
    decreases |order|
  {
    if order == [] then Run(Completed, [])
    else
      var earlier := AlterPhase(entries, live, order[..|order| - 1]);
      var t := order[|order| - 1];
      var missing := MissingFor(entries, live, t);
      if earlier.outcome.Failed? then earlier
      else if !AllMarkedNew(missing) then Run(Failed(KeysNotMarkedNew(t)), earlier.issued)
      else Run(Completed, earlier.issued + Alters(t, missing))
  }

  /** The loop over the new tables: one CREATE TABLE per table, listing its rows in order. */
  function CreatePhase(entries: seq<Entry>, order: seq<Cell<string>>): (issued: seq<Statement>)
    ensures |issued| == |order|
    ensures forall i :: 0 <= i < |order| ==>
      issued[i] == CreateTable(CellText(order[i]), Defs(RowsOf(entries, order[i])))
    decreases |order|
  {
    if order == [] then []
    else
      var k := order[|order| - 1];
      CreatePhase(entries, order[..|order| - 1]) + [CreateTable(CellText(k), Defs(RowsOf(entries, k)))]
  }

  /** Everything after validation: first the existing tables, then the new ones. */
  function Diff(entries: seq<Entry>, live: map<string, seq<string>>,
                existingOrder: seq<string>, newOrder: seq<Cell<string>>): (run: Run)
    ensures forall i, j :: 0 <= i < j < |run.issued| && run.issued[i].CreateTable? ==>
      run.issued[j].CreateTable?
    ensures run.outcome.Failed? ==> forall s :: s in run.issued ==> s.AddColumn?
  {
    var alter := AlterPhase(entries, live, existingOrder);
    assert forall i :: 0 <= i < |alter.issued| ==> alter.issued[i] in alter.issued;
    if alter.outcome.Failed? then alter
    else Run(Completed, alter.issued + CreatePhase(entries, newOrder))
  }

  /** The existing tables of a validated request against a live schema. */
  function ExistingOf(rows: seq<Row>, live: map<string, seq<string>>): set<string>
    requires Complete(rows)
  {
    ExistingTables(Requested(Entries(rows)), live.Keys)
  }

  /** The new tables of a validated request against a live schema. */
  function NewOf(rows: seq<Row>, live: map<string, seq<string>>): set<Cell<string>>
    requires Complete(rows)
  {
    NewTables(Requested(Entries(rows)), ExistingOf(rows, live))
  }

  /**
    proc_col_req as a function of the file name, the parsed table, the live
    schema and the two set orders: the extension, the header set and the
    completeness are checked in that order before anything is issued.
   */
  function Process(fname: string, headers: seq<string>, rows: seq<Row>,
                   live: map<string, seq<string>>,
                   existingOrder: seq<string>, newOrder: seq<Cell<string>>): (run: Run)
    ensures run.outcome == Failed(UnsupportedExtension) <==> !SupportedExtension(Extension(fname))
    ensures !Validates(fname, headers, rows) <==>
      run.outcome.Failed? && !run.outcome.failure.KeysNotMarkedNew?
    ensures !Validates(fname, headers, rows) ==> run.issued == []
    ensures run.outcome == Failed(WrongHeaders) <==>
      SupportedExtension(Extension(fname)) && !HeadersValid(headers)
    ensures run.outcome == Failed(MissingEntries) <==>
      SupportedExtension(Extension(fname)) && HeadersValid(headers) && !Complete(rows)
    ensures Validates(fname, headers, rows) ==> run == Diff(Entries(rows), live, existingOrder, newOrder)
  {
    if !SupportedExtension(Extension(fname)) then Run(Failed(UnsupportedExtension), [])
    else if !HeadersValid(headers) then Run(Failed(WrongHeaders), [])
    else if !Complete(rows) then Run(Failed(MissingEntries), [])
    else Diff(Entries(rows), live, existingOrder, newOrder)
  }

  /** Every existing table's missing columns, table after table, as if no table were refused. */
  function AllAlters(entries: seq<Entry>, live: map<string, seq<string>>, order: seq<string>): seq<Statement>
    decreases |order|
  {
    if order == [] then []
    else
      var t := order[|order| - 1];
      AllAlters(entries, live, order[..|order| - 1]) + Alters(t, MissingFor(entries, live, t))
  }

  /** Every table in order passes the new-key assertion. */
  predicate Admitted(entries: seq<Entry>, live: map<string, seq<string>>, order: seq<string>) {
    forall j :: 0 <= j < |order| ==> AllMarkedNew(MissingFor(entries, live, order[j]))
  }

  /** All tables pass exactly when all but the last do and the last does. */
  lemma AdmittedFront(entries: seq<Entry>, live: map<string, seq<string>>, order: seq<string>)
    requires order != []
    ensures Admitted(entries, live, order) <==>
      Admitted(entries, live, order[..|order| - 1]) &&
      AllMarkedNew(MissingFor(entries, live, order[|order| - 1]))
  {
    var front := order[..|order| - 1];
    assert forall j :: 0 <= j < |front| ==> front[j] == order[j];
  }

  /** Taking one more table of the order adds its ALTERs and its assertion. */
  lemma AlterStep(entries: seq<Entry>, live: map<string, seq<string>>, order: seq<string>, i: nat)
    requires i < |order|
    ensures AllAlters(entries, live, order[..i + 1]) ==
      AllAlters(entries, live, order[..i]) + Alters(order[i], MissingFor(entries, live, order[i]))
    ensures Admitted(entries, live, order[..i + 1]) <==>
      Admitted(entries, live, order[..i]) && AllMarkedNew(MissingFor(entries, live, order[i]))
  {
    assert order[..i + 1][..i] == order[..i];
    AdmittedFront(entries, live, order[..i + 1]);
  }

  /** When every table passes, the loop completes having issued all their ALTERs. */
  lemma {:induction false} AlterPhaseAdmitted(entries: seq<Entry>, live: map<string, seq<string>>, order: seq<string>)
    requires Admitted(entries, live, order)
    ensures AlterPhase(entries, live, order) == Run(Completed, AllAlters(entries, live, order))
    decreases |order|
  {
    if order != [] {
      AdmittedFront(entries, live, order);
      AlterPhaseAdmitted(entries, live, order[..|order| - 1]);
    }
  }

  /**
    When table order[i] is the first to fail the new-key assertion, the run
    fails naming it, after issuing the ALTERs of the tables before it.
   */
  lemma {:induction false} AlterPhaseRefusedAt(entries: seq<Entry>, live: map<string, seq<string>>,
                                               order: seq<string>, i: nat)
    requires i < |order|
    requires Admitted(entries, live, order[..i])
    requires !AllMarkedNew(MissingFor(entries, live, order[i]))
    ensures AlterPhase(entries, live, order) ==
      Run(Failed(KeysNotMarkedNew(order[i])), AllAlters(entries, live, order[..i]))
    decreases |order|
  {
    var front := order[..|order| - 1];
    if i == |order| - 1 {
      assert front == order[..i];
      AlterPhaseAdmitted(entries, live, front);
    } else {
      assert front[..i] == order[..i];
      assert front[i] == order[i];
      AlterPhaseRefusedAt(entries, live, front, i);
    }
  }

  /** The loop completes exactly when every existing table passes the new-key assertion. */
  lemma {:induction false} AlterPhaseCompletedIff(entries: seq<Entry>, live: map<string, seq<string>>, order: seq<string>)
    ensures AlterPhase(entries, live, order).outcome == Completed <==> Admitted(entries, live, order)
    decreases |order|
  {
    if order != [] {
      AdmittedFront(entries, live, order);
      AlterPhaseCompletedIff(entries, live, order[..|order| - 1]);
    }
  }

  /** The columns that the ALTER statements among issued add to table t, in order. */
  function AddedTo(issued: seq<Statement>, t: string): seq<ColumnDef>
    decreases |issued|
  {
    if issued == [] then []
    else
      var s := issued[|issued| - 1];
      AddedTo(issued[..|issued| - 1], t) + (if s.AddColumn? && s.table == t then [s.column] else [])
  }

  lemma {:induction false} AddedToAppend(a: seq<Statement>, b: seq<Statement>, t: string)
    ensures AddedTo(a + b, t) == AddedTo(a, t) + AddedTo(b, t)
    decreases |b|
  {
    if b == [] {
      assert a + b == a;
    } else {
      var ab := a + b;
      var s := b[|b| - 1];
      assert ab[..|ab| - 1] == a + b[..|b| - 1] && ab[|ab| - 1] == s;
      AddedToAppend(a, b[..|b| - 1], t);
      var tail := if s.AddColumn? && s.table == t then [s.column] else [];
      calc {
        AddedTo(ab, t);
        AddedTo(a + b[..|b| - 1], t) + tail;
        (AddedTo(a, t) + AddedTo(b[..|b| - 1], t)) + tail;
        AddedTo(a, t) + (AddedTo(b[..|b| - 1], t) + tail);
      }
    }
  }

  /** The ALTERs of one table add its missing columns to it, in order. */
  lemma {:induction false} AddedToOwnAlters(t: string, missing: seq<Entry>)
    ensures AddedTo(Alters(t, missing), t) == Defs(missing)
    decreases |missing|
  {
    if missing != [] {
      var front := missing[..|missing| - 1];
      var last := missing[|missing| - 1];
      var a := Alters(t, missing);
      assert a[..|a| - 1] == Alters(t, front);
      assert a[|a| - 1] == AddColumn(t, Def(last));
      AddedToOwnAlters(t, front);
      assert Defs(missing) == Defs(front) + [Def(last)];
    }
  }

  /** The ALTERs of one table add nothing to any other table. */
  lemma {:induction false} AddedToOtherAlters(u: string, missing: seq<Entry>, t: string)
    requires u != t
    ensures AddedTo(Alters(u, missing), t) == []
    decreases |missing|
  {
    if missing != [] {
      var a := Alters(u, missing);
      assert a[..|a| - 1] == Alters(u, missing[..|missing| - 1]);
      AddedToOtherAlters(u, missing[..|missing| - 1], t);
    }
  }

  /** The ALTERs of one table add its missing columns to it and nothing to any other table. */
  lemma AddedToAlters(u: string, missing: seq<Entry>, t: string)
    ensures AddedTo(Alters(u, missing), t) == if u == t then Defs(missing) else []
  {
    if u == t {
      AddedToOwnAlters(t, missing);
    } else {
      AddedToOtherAlters(u, missing, t);
    }
  }

  /** Appending one table's ALTERs adds its columns to that table only. */
  lemma AddedToStep(earlier: seq<Statement>, u: string, missing: seq<Entry>, t: string)
    ensures AddedTo(earlier + Alters(u, missing), t) ==
      AddedTo(earlier, t) + if u == t then Defs(missing) else []
  {
    AddedToAppend(earlier, Alters(u, missing), t);
    AddedToAlters(u, missing, t);
  }

  /** A list without repetitions splits into a shorter one and a last element not in it. */
  lemma DistinctFront<T>(xs: seq<T>)
    requires Distinct(xs) && xs != []
    ensures Distinct(xs[..|xs| - 1])
    ensures xs[|xs| - 1] !in xs[..|xs| - 1]
    ensures forall x :: x in xs <==> x in xs[..|xs| - 1] || x == xs[|xs| - 1]
  {
    assert xs == xs[..|xs| - 1] + [xs[|xs| - 1]];
  }

  /** Over tables listed once each, table t receives exactly its own missing columns. */
  lemma {:induction false} AddedToAllAlters(entries: seq<Entry>, live: map<string, seq<string>>,
                                            order: seq<string>, t: string)
    requires Distinct(order)
    ensures AddedTo(AllAlters(entries, live, order), t) ==
      if t in order then Defs(MissingFor(entries, live, t)) else []
    decreases |order|
  {
    if order != [] {
      var front := order[..|order| - 1];
      var last := order[|order| - 1];
      DistinctFront(order);
      AddedToAllAlters(entries, live, front, t);
      AddedToStep(AllAlters(entries, live, front), last, MissingFor(entries, live, last), t);
    }
  }

  /** Every ALTER adds, to a table of the loop, a column that table lacks. */
  lemma {:induction false} AllAltersAddOnlyMissing(entries: seq<Entry>, live: map<string, seq<string>>,
                                                   order: seq<string>)
    ensures forall s :: s in AllAlters(entries, live, order) ==>
      s.AddColumn? && s.table in order && s.column.name !in Columns(live, s.table)
    decreases |order|
  {
    if order != [] {
      var front := order[..|order| - 1];
      var last := order[|order| - 1];
      var missing := MissingFor(entries, live, last);
      AllAltersAddOnlyMissing(entries, live, front);
      MissingRowsMembers(RowsOf(entries, Present(last)), Columns(live, last));
      assert forall i :: 0 <= i < |missing| ==> missing[i] in missing;
      assert forall t :: t in front ==> t in order;
    }
  }

  /** The CREATE TABLE statements among issued, in order. */
  function CreatesIn(issued: seq<Statement>): seq<Statement>
    decreases |issued|
  {
    if issued == [] then []
    else
      var s := issued[|issued| - 1];
      CreatesIn(issued[..|issued| - 1]) + (if s.CreateTable? then [s] else [])
  }

  /** CreatesIn keeps only CREATE statements, all of them, in order (a filter). */
  lemma {:induction false} CreatesInAppend(a: seq<Statement>, b: seq<Statement>)
    ensures CreatesIn(a + b) == CreatesIn(a) + CreatesIn(b)
    decreases |b|
  {
    if b == [] {
      assert a + b == a;
    } else {
      var ab := a + b;
      var s := b[|b| - 1];
      assert ab[..|ab| - 1] == a + b[..|b| - 1] && ab[|ab| - 1] == s;
      CreatesInAppend(a, b[..|b| - 1]);
      var tail := if s.CreateTable? then [s] else [];
      calc {
        CreatesIn(ab);
        CreatesIn(a + b[..|b| - 1]) + tail;
        (CreatesIn(a) + CreatesIn(b[..|b| - 1])) + tail;
        CreatesIn(a) + (CreatesIn(b[..|b| - 1]) + tail);
      }
    }
  }

  /** A run of ALTERs holds no CREATE. */
  lemma {:induction false} NoCreatesAmongAlters(issued: seq<Statement>)
    requires forall i :: 0 <= i < |issued| ==> issued[i].AddColumn?
    ensures CreatesIn(issued) == []
    decreases |issued|
  {
    if issued != [] {
      var front := issued[..|issued| - 1];
      assert forall i :: 0 <= i < |front| ==> front[i] == issued[i];
      NoCreatesAmongAlters(front);
    }
  }

  /** A run of CREATEs is its own list of CREATEs. */
  lemma {:induction false} OnlyCreates(issued: seq<Statement>)
    requires forall i :: 0 <= i < |issued| ==> issued[i].CreateTable?
    ensures CreatesIn(issued) == issued
    decreases |issued|
  {
    if issued != [] {
      var front := issued[..|issued| - 1];
      var last := issued[|issued| - 1];
      assert forall i :: 0 <= i < |front| ==> front[i] == issued[i];
      OnlyCreates(front);
      assert CreatesIn(issued) == front + [last];
      assert issued == front + [last];
    }
  }

  /** A run of CREATEs adds no column to any table. */
  lemma {:induction false} CreatesAddNoColumn(issued: seq<Statement>, t: string)
    requires forall i :: 0 <= i < |issued| ==> issued[i].CreateTable?
    ensures AddedTo(issued, t) == []
    decreases |issued|
  {
    if issued != [] {
      var front := issued[..|issued| - 1];
      assert forall i :: 0 <= i < |front| ==> front[i] == issued[i];
      CreatesAddNoColumn(front, t);
    }
  }

  /** With only CREATEs after them, the ALTERs decide which columns each table gets. */
  lemma AddedToPhases(entries: seq<Entry>, live: map<string, seq<string>>, order: seq<string>,
                      creates: seq<Statement>, t: string)
    requires Distinct(order)
    requires forall i :: 0 <= i < |creates| ==> creates[i].CreateTable?
    ensures AddedTo(AllAlters(entries, live, order) + creates, t) ==
      if t in order then Defs(MissingFor(entries, live, t)) else []
  {
    var alters := AllAlters(entries, live, order);
    AddedToAppend(alters, creates, t);
    CreatesAddNoColumn(creates, t);
    AddedToAllAlters(entries, live, order, t);
    assert AddedTo(alters + creates, t) == AddedTo(alters, t) + [];
  }

  /** The CREATEs of ALTERs followed by CREATEs are those CREATEs. */
  lemma CreatesInPhases(alters: seq<Statement>, creates: seq<Statement>)
    requires forall i :: 0 <= i < |alters| ==> alters[i].AddColumn?
    requires forall i :: 0 <= i < |creates| ==> creates[i].CreateTable?
    ensures CreatesIn(alters + creates) == creates
  {
    CreatesInAppend(alters, creates);
    NoCreatesAmongAlters(alters);
    OnlyCreates(creates);
    assert CreatesIn(alters + creates) == [] + creates;
  }

  /**
    A run in which every existing table passes the new-key assertion
    completes; every table of the loop gets exactly the columns it lacks,
    in row order; nothing else is altered; and the CREATE statements are
    one per new table, in the order of the new tables.
   */
  lemma DiffCompleted(entries: seq<Entry>, live: map<string, seq<string>>,
                      existingOrder: seq<string>, newOrder: seq<Cell<string>>)
    requires Distinct(existingOrder)
    requires Admitted(entries, live, existingOrder)
    ensures var run := Diff(entries, live, existingOrder, newOrder);
      run.outcome == Completed &&
      (forall t :: AddedTo(run.issued, t) ==
        if t in existingOrder then Defs(MissingFor(entries, live, t)) else []) &&
      (forall s :: s in run.issued && s.AddColumn? ==>
        s.table in existingOrder && s.column.name !in Columns(live, s.table)) &&
      CreatesIn(run.issued) == CreatePhase(entries, newOrder)
  {
    var alters := AllAlters(entries, live, existingOrder);
    var creates := CreatePhase(entries, newOrder);
    AlterPhaseAdmitted(entries, live, existingOrder);
    AllAltersAddOnlyMissing(entries, live, existingOrder);
    assert Diff(entries, live, existingOrder, newOrder) == Run(Completed, alters + creates);
    forall t
      ensures AddedTo(alters + creates, t) ==
        if t in existingOrder then Defs(MissingFor(entries, live, t)) else []
    {
      AddedToPhases(entries, live, existingOrder, creates, t);
    }
    assert forall i :: 0 <= i < |alters| ==> alters[i] in alters;
    CreatesInPhases(alters, creates);
  }

  /** A named file with a dotted suffix is rejected exactly when the lower-cased suffix is not csv, xls or xlsx. */
  lemma ExtensionDispatch(base: string, e: string, headers: seq<string>, rows: seq<Row>,
                          live: map<string, seq<string>>,
                          existingOrder: seq<string>, newOrder: seq<Cell<string>>)
    requires '.' !in e && '/' !in e
    requires HasNonDot(base, LastIndexOf(base, '/') + 1, |base|)
    ensures var run := Process(base + "." + e, headers, rows, live, existingOrder, newOrder);
      run.outcome == Failed(UnsupportedExtension) <==> !SupportedExtension(Lower(e))
  {
    ExtensionOfDotted(base, e);
  }

  /** A file name whose last component has no dot is rejected before anything else. */
  lemma NoExtensionRejected(fname: string, headers: seq<string>, rows: seq<Row>,
                            live: map<string, seq<string>>,
                            existingOrder: seq<string>, newOrder: seq<Cell<string>>)
    requires '.' !in fname[LastIndexOf(fname, '/') + 1..]
    ensures Process(fname, headers, rows, live, existingOrder, newOrder) == Run(Failed(UnsupportedExtension), [])
  {
    ExtensionWithoutDot(fname);
  }

  /** csv, xls and xlsx in any mix of letter cases lower-case to a supported extension. */
  lemma SupportedSpelling(e: string)
    requires EqualIgnoringCase(e, "csv") || EqualIgnoringCase(e, "xls") || EqualIgnoringCase(e, "xlsx")
    ensures SupportedExtension(Lower(e))
  {
    if EqualIgnoringCase(e, "csv") {
      LowerOfSpelling(e, "csv");
    } else if EqualIgnoringCase(e, "xls") {
      LowerOfSpelling(e, "xls");
    } else {
      LowerOfSpelling(e, "xlsx");
    }
  }

  /** A suffix spelled csv, xls or xlsx in any mix of letter cases is accepted. */
  lemma AnyCaseAccepted(base: string, e: string, headers: seq<string>, rows: seq<Row>,
                        live: map<string, seq<string>>,
                        existingOrder: seq<string>, newOrder: seq<Cell<string>>)
    requires '.' !in e && '/' !in e
    requires HasNonDot(base, LastIndexOf(base, '/') + 1, |base|)
    requires EqualIgnoringCase(e, "csv") || EqualIgnoringCase(e, "xls") || EqualIgnoringCase(e, "xlsx")
    ensures Process(base + "." + e, headers, rows, live, existingOrder, newOrder).outcome != Failed(UnsupportedExtension)
  {
    ExtensionOfDotted(base, e);
    SupportedSpelling(e);
  }

  /** A hidden file such as ".csv" has no extension and is rejected before anything else. */
  lemma HiddenFileRejected(dir: string, e: string, headers: seq<string>, rows: seq<Row>,
                           live: map<string, seq<string>>,
                           existingOrder: seq<string>, newOrder: seq<Cell<string>>)
    requires dir == [] || dir[|dir| - 1] == '/'
    requires '.' !in e && '/' !in e
    ensures Process(dir + "." + e, headers, rows, live, existingOrder, newOrder) == Run(Failed(UnsupportedExtension), [])
  {
    ExtensionOfHidden(dir, e);
  }

  /** Walking the new tables once each issues exactly one CREATE per new table. */
  lemma OneCreatePerNewTable(entries: seq<Entry>, newOrder: seq<Cell<string>>, tables: set<Cell<string>>)
    requires Enumerates(newOrder, tables)
    ensures |CreatePhase(entries, newOrder)| == |tables|
    ensures forall k :: k in tables ==>
      CreateTable(CellText(k), Defs(RowsOf(entries, k))) in CreatePhase(entries, newOrder)
  {
    var creates := CreatePhase(entries, newOrder);
    forall k | k in tables
      ensures CreateTable(CellText(k), Defs(RowsOf(entries, k))) in creates
    {
      var j :| 0 <= j < |newOrder| && newOrder[j] == k;
      assert creates[j] == CreateTable(CellText(k), Defs(RowsOf(entries, k)));
    }
  }

  /** No row belongs to a missing table name. */
  lemma {:induction false} RowsOfMissing(entries: seq<Entry>)
    ensures RowsOf(entries, Missing) == []
  {
    if entries != [] {
      RowsOfMissing(entries[1..]);
    }
  }

  /**
    A row with an empty TABLE cell passes the checks and makes the run
    create a table named nan with no columns.
   */
  lemma MissingTableCreatesNan(entries: seq<Entry>, live: map<string, seq<string>>,
                               existingOrder: seq<string>, newOrder: seq<Cell<string>>)
    requires exists e :: e in entries && e.table.Missing?
    requires Enumerates(newOrder, NewTables(Requested(entries), ExistingTables(Requested(entries), live.Keys)))
    requires Diff(entries, live, existingOrder, newOrder).outcome == Completed
    ensures CreateTable("nan", []) in Diff(entries, live, existingOrder, newOrder).issued
  {
    var e :| e in entries && e.table.Missing?;
    assert Missing in Requested(entries);
    OneCreatePerNewTable(entries, newOrder, NewTables(Requested(entries), ExistingTables(Requested(entries), live.Keys)));
    RowsOfMissing(entries);
    var run := Diff(entries, live, existingOrder, newOrder);
    var alter := AlterPhase(entries, live, existingOrder);
    assert run.issued == alter.issued + CreatePhase(entries, newOrder);
  }
}
