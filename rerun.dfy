/**
  What the issued statements do to the database, and what that means for
  the request: after a completed run every requested column is in its
  table, and running the same request again issues nothing.
 */
module Rerun {
  import opened Request
  import opened Ddl
  import opened Plan

  /** The column names a statement gives its table. */
  function Introduced(s: Statement): (names: seq<string>)
    ensures s.AddColumn? ==> names == [s.column.name]
    ensures s.CreateTable? ==>
      |names| == |s.columns| && forall i :: 0 <= i < |names| ==> names[i] == s.columns[i].name
  {
    match s
    case AddColumn(_, d) => [d.name]
    case CreateTable(_, ds) => Names(ds)
  }

  /** Table t of the schema has column n. */
  predicate Has(live: map<string, seq<string>>, t: string, n: string) {
    t in live && n in live[t]
  }

  /** The schema after one statement: its table gains the columns it introduces. */
  function Effect(live: map<string, seq<string>>, s: Statement): (after: map<string, seq<string>>)
    ensures forall t, n :: Has(live, t, n) ==> Has(after, t, n)
    ensures forall n :: n in Introduced(s) ==> Has(after, s.table, n)
    ensures forall t :: t in after ==> t in live || t == s.table
  {
    live[s.table := Columns(live, s.table) + Introduced(s)]
  }

  /** The schema after the statements, applied in order. */
  function Apply(live: map<string, seq<string>>, issued: seq<Statement>): map<string, seq<string>>
    decreases |issued|
  {
    if issued == [] then live
    else Effect(Apply(live, issued[..|issued| - 1]), issued[|issued| - 1])
  }

  /** Statements never take a column away. */
  lemma {:induction false} ApplyKeeps(live: map<string, seq<string>>, issued: seq<Statement>, t: string, n: string)
    requires Has(live, t, n)
    ensures Has(Apply(live, issued), t, n)
    decreases |issued|
  {
    if issued != [] {
      ApplyKeeps(live, issued[..|issued| - 1], t, n);
    }
  }

  /** Every column a statement introduces is in its table once all statements are applied. */
  lemma {:induction false} ApplyAdds(live: map<string, seq<string>>, issued: seq<Statement>, i: nat, n: string)
    requires i < |issued| && n in Introduced(issued[i])
    ensures Has(Apply(live, issued), issued[i].table, n)
    decreases |issued|
  {
    var front := issued[..|issued| - 1];
    if i < |issued| - 1 {
      assert front[i] == issued[i];
      ApplyAdds(live, front, i, n);
      ApplyKeeps(Apply(live, front), [issued[|issued| - 1]], issued[i].table, n);
      assert Apply(Apply(live, front), [issued[|issued| - 1]]) == Apply(live, issued) by {
        assert [issued[|issued| - 1]][..0] == [];
      }
    }
  }

  /** The statement adding a missing row's column is among the ALTERs of its table's loop. */
  lemma {:induction false} AllAltersContains(entries: seq<Entry>, live: map<string, seq<string>>,
                                             order: seq<string>, t: string, e: Entry)
    requires t in order && e in MissingFor(entries, live, t)
    ensures AddColumn(t, Def(e)) in AllAlters(entries, live, order)
    decreases |order|
  {
    var front := order[..|order| - 1];
    var last := order[|order| - 1];
    assert order == front + [last];
    if t == last {
      var m := MissingFor(entries, live, t);
      var k :| 0 <= k < |m| && m[k] == e;
      assert Alters(t, m)[k] == AddColumn(t, Def(e));
    } else {
      AllAltersContains(entries, live, front, t, e);
    }
  }

  /** A row's column is among the names of its rows' column definitions. */
  lemma NameAmongDefs(rows: seq<Entry>, e: Entry)
    requires e in rows
    ensures e.dbColname in Introduced(CreateTable("", Defs(rows)))
  {
    var k :| 0 <= k < |rows| && rows[k] == e;
    assert Introduced(CreateTable("", Defs(rows)))[k] == e.dbColname;
  }

  /** An entry of a table the database has is either there already or added by an ALTER. */
  lemma LandsInExisting(entries: seq<Entry>, live: map<string, seq<string>>,
                        existingOrder: seq<string>, issued: seq<Statement>, e: Entry)
    requires e in entries && e.table.Present? && e.table.value in existingOrder
    requires forall s :: s in AllAlters(entries, live, existingOrder) ==> s in issued
    ensures Has(Apply(live, issued), e.table.value, e.dbColname)
  {
    var t := e.table.value;
    if Has(live, t, e.dbColname) {
      ApplyKeeps(live, issued, t, e.dbColname);
    } else {
      RowsOfMembers(entries, Present(t));
      MissingRowsMembers(RowsOf(entries, Present(t)), Columns(live, t));
      assert e in MissingFor(entries, live, t);
      AllAltersContains(entries, live, existingOrder, t, e);
      var i :| 0 <= i < |issued| && issued[i] == AddColumn(t, Def(e));
      ApplyAdds(live, issued, i, e.dbColname);
    }
  }

  /** An entry of a table the database lacks is added by that table's CREATE. */
  lemma LandsInNew(entries: seq<Entry>, live: map<string, seq<string>>,
                   newOrder: seq<Cell<string>>, issued: seq<Statement>, e: Entry)
    requires e in entries && e.table.Present? && e.table in newOrder
    requires forall s :: s in CreatePhase(entries, newOrder) ==> s in issued
    ensures Has(Apply(live, issued), e.table.value, e.dbColname)
  {
    var creates := CreatePhase(entries, newOrder);
    var j :| 0 <= j < |newOrder| && newOrder[j] == e.table;
    var rows := RowsOf(entries, e.table);
    RowsOfMembers(entries, e.table);
    NameAmongDefs(rows, e);
    assert creates[j] == CreateTable(e.table.value, Defs(rows));
    assert creates[j] in creates;
    var i :| 0 <= i < |issued| && issued[i] == creates[j];
    ApplyAdds(live, issued, i, e.dbColname);
  }

  /**
    After a completed run, applying the issued statements leaves every
    requested column in its table, whether the table existed or was created.
   */
  lemma EveryRequestedColumnLands(entries: seq<Entry>, live: map<string, seq<string>>,
                                  existingOrder: seq<string>, newOrder: seq<Cell<string>>)
    requires Enumerates(existingOrder, ExistingTables(Requested(entries), live.Keys))
    requires Enumerates(newOrder, NewTables(Requested(entries), ExistingTables(Requested(entries), live.Keys)))
    requires Diff(entries, live, existingOrder, newOrder).outcome == Completed
    ensures forall e :: e in entries && e.table.Present? ==>
      Has(Apply(live, Diff(entries, live, existingOrder, newOrder).issued), e.table.value, e.dbColname)
  {
    var requested := Requested(entries);
    var existing := ExistingTables(requested, live.Keys);
    var issued := Diff(entries, live, existingOrder, newOrder).issued;
    AlterPhaseCompletedIff(entries, live, existingOrder);
    AlterPhaseAdmitted(entries, live, existingOrder);
    assert issued == AllAlters(entries, live, existingOrder) + CreatePhase(entries, newOrder);
    forall e | e in entries && e.table.Present?
      ensures Has(Apply(live, issued), e.table.value, e.dbColname)
    {
      assert e.table in requested;
      if e.table.value in live {
        assert e.table.value in existing;
        LandsInExisting(entries, live, existingOrder, issued, e);
      } else {
        assert e.table !in Lift(existing);
        LandsInNew(entries, live, newOrder, issued, e);
      }
    }
  }

  /** The rows missing from a table that has every requested column are none. */
  lemma {:induction false} NothingMissing(rows: seq<Entry>, columns: seq<string>)
    requires forall e :: e in rows ==> e.dbColname in columns
    ensures MissingRows(rows, columns) == []
  {
    if rows != [] {
      assert rows[0] in rows;
      assert forall e :: e in rows[1..] ==> e in rows;
      NothingMissing(rows[1..], columns);
    }
  }

  /** With nothing missing anywhere, the ALTER loop issues nothing. */
  lemma {:induction false} NoAlters(entries: seq<Entry>, live: map<string, seq<string>>, order: seq<string>)
    requires forall j :: 0 <= j < |order| ==> MissingFor(entries, live, order[j]) == []
    ensures AllAlters(entries, live, order) == []
    decreases |order|
  {
    if order != [] {
      var front := order[..|order| - 1];
      assert forall j :: 0 <= j < |front| ==> front[j] == order[j];
      NoAlters(entries, live, front);
    }
  }

  /**
    Running the same request again against the schema the first run left
    (every requested table named) completes without issuing any statement:
    every table now exists, and none lacks a requested column.
   */
  lemma RerunIssuesNothing(entries: seq<Entry>, live: map<string, seq<string>>,
                           existingOrder: seq<string>, newOrder: seq<Cell<string>>,
                           againExisting: seq<string>, againNew: seq<Cell<string>>)
    requires forall e :: e in entries ==> e.table.Present?
    requires Enumerates(existingOrder, ExistingTables(Requested(entries), live.Keys))
    requires Enumerates(newOrder, NewTables(Requested(entries), ExistingTables(Requested(entries), live.Keys)))
    requires Diff(entries, live, existingOrder, newOrder).outcome == Completed
    requires var after := Apply(live, Diff(entries, live, existingOrder, newOrder).issued);
      Enumerates(againExisting, ExistingTables(Requested(entries), after.Keys)) &&
      Enumerates(againNew, NewTables(Requested(entries), ExistingTables(Requested(entries), after.Keys)))
    ensures var after := Apply(live, Diff(entries, live, existingOrder, newOrder).issued);
      Diff(entries, after, againExisting, againNew) == Run(Completed, [])
  {
    var after := Apply(live, Diff(entries, live, existingOrder, newOrder).issued);
    var requested := Requested(entries);
    var existing := ExistingTables(requested, after.Keys);
    EveryRequestedColumnLands(entries, live, existingOrder, newOrder);
    assert NewTables(requested, existing) == {} by {
      forall k | k in requested ensures k in Lift(existing) {
        var e :| e in entries && e.table == k;
        assert Has(after, k.value, e.dbColname);
        assert k.value in existing;
      }
    }
    assert againNew == [];
    forall j | 0 <= j < |againExisting|
      ensures MissingFor(entries, after, againExisting[j]) == []
    {
      var t := againExisting[j];
      RowsOfMembers(entries, Present(t));
      NothingMissing(RowsOf(entries, Present(t)), Columns(after, t));
    }
    NoAlters(entries, after, againExisting);
    AlterPhaseAdmitted(entries, after, againExisting);
  }

  /**
    The same for the whole procedure: a request whose rows all name a table,
    once completed, is accepted again against the resulting schema and sends
    no statement.
   */
  lemma RerunOfRequest(fname: string, headers: seq<string>, rows: seq<Row>, live: map<string, seq<string>>,
                       existingOrder: seq<string>, newOrder: seq<Cell<string>>,
                       againExisting: seq<string>, againNew: seq<Cell<string>>)
    requires Validates(fname, headers, rows)
    requires forall i :: 0 <= i < |rows| ==> rows[i].table.Present?
    requires Enumerates(existingOrder, ExistingOf(rows, live))
    requires Enumerates(newOrder, NewOf(rows, live))
    requires Process(fname, headers, rows, live, existingOrder, newOrder).outcome == Completed
    requires var after := Apply(live, Process(fname, headers, rows, live, existingOrder, newOrder).issued);
      Enumerates(againExisting, ExistingOf(rows, after)) && Enumerates(againNew, NewOf(rows, after))
    ensures var after := Apply(live, Process(fname, headers, rows, live, existingOrder, newOrder).issued);
      Process(fname, headers, rows, after, againExisting, againNew) == Run(Completed, [])
  {
    var entries := Entries(rows);
    EntriesRowForRow(rows);
    forall e | e in entries ensures e.table.Present? {
      var i :| 0 <= i < |entries| && entries[i] == e;
    }
    RerunIssuesNothing(entries, live, existingOrder, newOrder, againExisting, againNew);
  }
}
