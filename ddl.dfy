/**
  The statements the request processor issues: ALTER TABLE ... ADD COLUMN
  and CREATE TABLE, as records and as the SQL text sent to the database.
 */
module Ddl {
  import opened Text
  import opened Request

  /** A column as it appears in a statement: name, SQL type and comment. */
  datatype ColumnDef = ColumnDef(name: string, sqlType: string, comment: string)

  datatype Statement =
    | AddColumn(table: string, column: ColumnDef)
    | CreateTable(table: string, columns: seq<ColumnDef>)

  /** The type a column is declared with: the sentinel STRING becomes TEXT. */
  function SqlType(unit: string): (t: string)
    ensures t != "STRING"
    ensures t == unit || t == "TEXT"
    ensures t == "TEXT" <==> unit == "STRING" || unit == "TEXT"
  {
    if unit == "STRING" then "TEXT" else unit
  }

  /** How a cell prints inside a formatted string: a missing cell prints as nan. */
  function CellText(c: Cell<string>): string {
    match c
    case Present(s) => s
    case Missing => "nan"
  }

  /** The column a request row asks for. */
  function Def(e: Entry): (d: ColumnDef)
    ensures d.name == e.dbColname && d.sqlType == SqlType(e.sqlUnit)
    ensures d.comment == CellText(e.description)
  {
    ColumnDef(e.dbColname, SqlType(e.sqlUnit), CellText(e.description))
  }

  /** The columns of the given rows, one per row, in the same order. */
  function Defs(rows: seq<Entry>): seq<ColumnDef> {
    seq(|rows|, i requires 0 <= i < |rows| => Def(rows[i]))
  }

  /** The names the given columns declare. */
  function Names(defs: seq<ColumnDef>): seq<string> {
    seq(|defs|, i requires 0 <= i < |defs| => defs[i].name)
  }

  /** `name type COMMENT "comment"`, the column text shared by both statements. */
  function ColumnSql(d: ColumnDef): string {
    d.name + " " + d.sqlType + " COMMENT \"" + d.comment + "\""
  }

  /** The column texts of a CREATE TABLE, one per column, in order. */
  function ColumnTexts(ds: seq<ColumnDef>): (texts: seq<string>)
    ensures |texts| == |ds|
  {
    seq(|ds|, i requires 0 <= i < |ds| => ColumnSql(ds[i]))
  }

  /** The SQL text of a statement. */
  function Sql(s: Statement): (text: string)
    ensures s.AddColumn? ==> |text| > 12 && text[..12] == "ALTER TABLE "
    ensures s.CreateTable? ==> |text| > 13 && text[..13] == "CREATE TABLE "
    ensures |text| > 0 && text[|text| - 1] == ';'
  {
    match s
    case AddColumn(t, d) =>
      "ALTER TABLE " + t + " ADD COLUMN " + ColumnSql(d) + ";"
    case CreateTable(t, ds) =>
      "CREATE TABLE " + t + " (" +
      Join(", ", ColumnTexts(ds)) + ");"
  }

  /** A row whose SQL unit is STRING is added as a TEXT column. */
  lemma StringColumnIsText(t: string, e: Entry)
    requires e.sqlUnit == "STRING"
    ensures Sql(AddColumn(t, Def(e))) ==
      "ALTER TABLE " + t + " ADD COLUMN " + e.dbColname + " TEXT COMMENT \"" +
      CellText(e.description) + "\";"
  {
  }

  /** A CREATE TABLE of one column holds that column's text in parentheses. */
  lemma CreateTableOfOne(t: string, d: ColumnDef)
    ensures Sql(CreateTable(t, [d])) == "CREATE TABLE " + t + " (" + ColumnSql(d) + ");"
  {
    assert ColumnTexts([d]) == [ColumnSql(d)];
  }

  /**
    One more column makes the CREATE TABLE text continue, before its closing
    ");", with ", " and that column's text. With CreateTableOfOne this fixes
    the text of every CREATE TABLE with columns.
   */
  lemma CreateTableAppend(t: string, ds: seq<ColumnDef>, d: ColumnDef)
    requires ds != []
    ensures var s := Sql(CreateTable(t, ds));
      |s| >= 2 && s[|s| - 2..] == ");" &&
      Sql(CreateTable(t, ds + [d])) == s[..|s| - 2] + ", " + ColumnSql(d) + ");"
  {
    var open := "CREATE TABLE " + t + " (";
    var joined := Join(", ", ColumnTexts(ds));
    var c := ColumnSql(d);
    ColumnTextsAppend(ds, d);
    JoinAppend(", ", ColumnTexts(ds), c);
    assert Sql(CreateTable(t, ds)) == open + joined + ");";
    assert Sql(CreateTable(t, ds + [d])) == open + (joined + ", " + c) + ");";
    ClosingParenthesis(open + joined);
    assert open + (joined + ", " + c) + ");" == (open + joined) + ", " + c + ");";
  }

  lemma ColumnTextsAppend(ds: seq<ColumnDef>, d: ColumnDef)
    ensures ColumnTexts(ds + [d]) == ColumnTexts(ds) + [ColumnSql(d)]
  {
  }

  lemma ClosingParenthesis(head: string)
    ensures var s := head + ");"; |s| >= 2 && s[..|s| - 2] == head && s[|s| - 2..] == ");"
  {
  }
}
