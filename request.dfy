/**
  The change-request table: its rows, the header and completeness checks
  run on it, and the split of the UNITS column into a SQL type and a
  physical unit.
 */
module Request {
  import opened Text

  /** A cell of the parsed table; an empty cell is reported as missing (NaN). */
  datatype Cell<T> = Missing | Present(value: T)

  /** One row of the request table as read, one field per expected column. */
  datatype Row = Row(
    myColname: Cell<string>,
    dbColname: Cell<string>,
    units: Cell<string>,
    newKey: Cell<bool>,
    description: Cell<string>,
    table: Cell<string>)

  /**
    A row after the completeness check and the UNITS split: UNITS is
    replaced by its SQL part and the PHYSICALUNIT column is added.
   */
  datatype Entry = Entry(
    myColname: string,
    dbColname: string,
    sqlUnit: string,
    physicalUnit: Cell<string>,
    newKey: Cell<bool>,
    description: Cell<string>,
    table: Cell<string>)

  /** The header names a request table must carry, and no other. */
  const ExpectedColumns: seq<string> :=
    ["MY_COLNAME", "DB_COLNAME", "UNITS", "NEW_KEY", "DESCRIPTION", "TABLE"]

  function SymmetricDifference<T>(a: set<T>, b: set<T>): set<T> {
    (a - b) + (b - a)
  }

  /** The header check: the symmetric difference with the expected names is empty. */
  function HeadersValid(headers: seq<string>): (ok: bool)
    ensures ok <==>
      (forall c :: c in ExpectedColumns ==> c in headers) &&
      (forall h :: h in headers ==> h in ExpectedColumns)
  {
    var present := set h | h in headers;
    var expected := set c | c in ExpectedColumns;
    var d := SymmetricDifference(present, expected);
    assert |d| == 0 <==> d == {};
    assert d == {} <==> present == expected by {
      if d != {} {
        var x :| x in d;
        assert !(x in present <==> x in expected);
      }
    }
    assert present == expected <==>
      (forall c :: c in ExpectedColumns ==> c in headers) &&
      (forall h :: h in headers ==> h in ExpectedColumns) by {
      assert forall x :: x in present <==> x in headers;
      assert forall x :: x in expected <==> x in ExpectedColumns;
    }
    |d| == 0
  }

  /**
    The completeness check: no MY_COLNAME, DB_COLNAME or UNITS cell is
    missing. NEW_KEY, DESCRIPTION and TABLE are not looked at.
   */
  predicate Complete(rows: seq<Row>) {
    forall i :: 0 <= i < |rows| ==>
      rows[i].myColname.Present? && rows[i].dbColname.Present? && rows[i].units.Present?
  }

  /** Completeness depends on the first three columns only. */
  lemma CompletenessIgnoresOtherColumns(rows: seq<Row>, other: seq<Row>)
    requires |rows| == |other|
    requires forall i :: 0 <= i < |rows| ==>
      rows[i].myColname == other[i].myColname &&
      rows[i].dbColname == other[i].dbColname &&
      rows[i].units == other[i].units
    ensures Complete(rows) <==> Complete(other)
  {
  }

  /** The text between the first and the second comma of a value that has a comma. */
  function SecondField(val: string): string
    requires ',' in val
  {
    var rest := val[IndexOf(val, ',') + 1..];
    if ',' in rest then rest[..IndexOf(rest, ',')] else rest
  }

  /**
    Splits one UNITS value: with a comma, the stripped text before the first
    comma is the SQL unit and the stripped text after it (up to a second
    comma) is the physical unit; without one, the value is the SQL unit
    unchanged and there is no physical unit.
   */
  function SplitUnit(val: string): (string, Cell<string>)
  {
    if ',' in val then
      SplitHead(val, ',');
      var tmp := Split(val, ',');
      (Strip(tmp[0]), Present(Strip(tmp[1])))
    else
      (val, Missing)
  }

  /** The second piece of a split at commas is the text between the first two commas. */
  lemma SecondPiece(val: string)
    requires ',' in val
    ensures |Split(val, ',')| >= 2 && Split(val, ',')[1] == SecondField(val)
  {
    var rest := val[IndexOf(val, ',') + 1..];
    var tmp := Split(val, ',');
    SplitHead(val, ',');
    SplitHead(rest, ',');
    assert tmp[1] == tmp[1..][0];
  }

  /** SplitUnit in terms of comma positions rather than of a split list. */
  lemma SplitUnitFields(val: string)
    ensures ',' !in val ==> SplitUnit(val) == (val, Missing)
    ensures ',' in val ==>
      SplitUnit(val) == (Strip(val[..IndexOf(val, ',')]), Present(Strip(SecondField(val))))
  {
    if ',' in val {
      SplitHead(val, ',');
      SecondPiece(val);
    }
  }

  /** A SQL unit and a physical unit written as "sql,phys" split back into the two. */
  lemma SplitUnitOfPair(sql: string, phys: string)
    requires Stripped(sql) && Stripped(phys)
    requires ',' !in sql && ',' !in phys
    ensures SplitUnit(sql + "," + phys) == (sql, Present(phys))
  {
    var val := sql + "," + phys;
    assert val[|sql|] == ',';
    var i := IndexOf(val, ',');
    assert i == |sql|;
    assert val[..i] == sql;
    assert val[i + 1..] == phys;
    assert SecondField(val) == phys;
    SplitUnitFields(val);
    StripOfStripped(sql);
    StripOfStripped(phys);
  }

  /** The UNITS loop: one SQL unit and one physical unit per input value, in order. */
  method SplitUnits(units: seq<string>) returns (sqlu: seq<string>, physu: seq<Cell<string>>)
    ensures |sqlu| == |units| && |physu| == |units|
    ensures forall i :: 0 <= i < |units| ==> (sqlu[i], physu[i]) == SplitUnit(units[i])
  {
    sqlu, physu := [], [];
    for i := 0 to |units|
      invariant |sqlu| == i && |physu| == i
      invariant forall k :: 0 <= k < i ==> (sqlu[k], physu[k]) == SplitUnit(units[k])
    {
      var u := SplitUnit(units[i]);
      sqlu, physu := sqlu + [u.0], physu + [u.1];
    }
  }

  /** A validated row with its UNITS cell replaced by the split units. */
  function WithUnits(r: Row, sqlUnit: string, physicalUnit: Cell<string>): Entry
    requires r.myColname.Present? && r.dbColname.Present?
  {
    Entry(r.myColname.value, r.dbColname.value, sqlUnit, physicalUnit,
          r.newKey, r.description, r.table)
  }

  /** The table after the UNITS split, row for row. */
  function Entries(rows: seq<Row>): (entries: seq<Entry>)
    requires Complete(rows)
  {
    seq(|rows|, i requires 0 <= i < |rows| =>
      var u := SplitUnit(rows[i].units.value);
      WithUnits(rows[i], u.0, u.1))
  }

  /** The split keeps one entry per row, in order, with every other field carried over. */
  lemma EntriesRowForRow(rows: seq<Row>)
    requires Complete(rows)
    ensures |Entries(rows)| == |rows|
    ensures forall i :: 0 <= i < |rows| ==>
      var e := Entries(rows)[i];
      Present(e.myColname) == rows[i].myColname && Present(e.dbColname) == rows[i].dbColname &&
      (e.sqlUnit, e.physicalUnit) == SplitUnit(rows[i].units.value) &&
      e.newKey == rows[i].newKey && e.description == rows[i].description && e.table == rows[i].table
  {
  }
}
