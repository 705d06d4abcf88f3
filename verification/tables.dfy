/** The pandas DataFrames the stages hand to each other, reduced to what the
    scraper does with them: named columns in order, rows as maps from column
    to cell text. A row that lacks a column holds a missing value (NaN);
    every table the modelled stages build has all its cells. */
module Tables {
  import opened Base
  import opened Seqs

  /** The column headers the scraper reads and writes. */
  datatype Column =
    | PirateUrl | PirateName | CrewRank | CrewName | FlagRole | FlagName
    | Skill(skill: string)
    | ShopType | ShopSize | ShopName | Location | OwnershipRole
    | CrewUrl | Rank | Members | Fame
    | PublicStatement | Captain
    | ErrorType | Message
    | LastUpdated

  /** The header text of each column in the CSV files. */
  function Header(c: Column): string {
    match c
    case PirateUrl => "Pirate URL"
    case PirateName => "Pirate Name"
    case CrewRank => "Crew Rank"
    case CrewName => "Crew Name"
    case FlagRole => "Flag Role"
    case FlagName => "Flag Name"
    case Skill(s) => s
    case ShopType => "Shop Type"
    case ShopSize => "Shop size"
    case ShopName => "Shop Name"
    case Location => "Location"
    case OwnershipRole => "Ownership Role"
    case CrewUrl => "Crew URL"
    case Rank => "Rank"
    case Members => "Members"
    case Fame => "Fame"
    case PublicStatement => "Public Statement"
    case Captain => "Captain"
    case ErrorType => "Error Type"
    case Message => "Message"
    case LastUpdated => "Last Updated (UTC)"
  }

  type Row = map<Column, string>

  datatype Table = Table(columns: seq<Column>, rows: seq<Row>)

  function ColumnSet(columns: seq<Column>): set<Column> {
    set c | c in columns
  }

  lemma ColumnSetConcat(a: seq<Column>, b: seq<Column>)
    ensures ColumnSet(a + b) == ColumnSet(a) + ColumnSet(b)
  {
  }

  /** Every row has exactly the table's columns: no missing cells. */
  ghost predicate WellFormed(t: Table) {
    forall i :: 0 <= i < |t.rows| ==> t.rows[i].Keys == ColumnSet(t.columns)
  }

  /** The text of column `c` in row `r`; "" where the row lacks it. */
  function Cell(r: Row, c: Column): string {
    if c in r then r[c] else ""
  }

  /** `df.empty`: true when the table has no rows or no columns. */
  predicate IsEmpty(t: Table) {
    |t.rows| == 0 || |t.columns| == 0
  }

  /** `df[c]`: the column's values, a missing cell as `None`. */
  function ColumnValues(t: Table, c: Column): (vs: seq<Option<string>>)
    ensures |vs| == |t.rows|
    ensures forall i :: 0 <= i < |t.rows| ==> (vs[i].Some? <==> c in t.rows[i])
    ensures forall i :: 0 <= i < |t.rows| && c in t.rows[i] ==> vs[i].value == t.rows[i][c]
  {
    seq(|t.rows|, i requires 0 <= i < |t.rows| => if c in t.rows[i] then Some(t.rows[i][c]) else None)
  }

  /** `df[c] = v` with a scalar `v`: appends the column when it is new and
      gives every row the value `v`, leaving every other cell alone. */
  function SetColumn(t: Table, c: Column, v: string): (r: Table)
    ensures |r.rows| == |t.rows|
    ensures c in r.columns
    ensures forall d :: d in t.columns ==> d in r.columns
    ensures forall i :: 0 <= i < |r.rows| ==> c in r.rows[i] && r.rows[i][c] == v
    ensures forall i, d :: 0 <= i < |r.rows| && d != c && d in t.rows[i] ==> d in r.rows[i] && r.rows[i][d] == t.rows[i][d]
    ensures WellFormed(t) ==> WellFormed(r)
  {
    Table(if c in t.columns then t.columns else t.columns + [c],
          seq(|t.rows|, i requires 0 <= i < |t.rows| => t.rows[i][c := v]))
  }

  /** The row restricted to the given columns (those it has). */
  function ProjectRow(r: Row, columns: seq<Column>): (p: Row)
    ensures p.Keys == r.Keys * ColumnSet(columns)
    ensures forall c :: c in p ==> p[c] == r[c]
  {
    map c | c in r && c in ColumnSet(columns) :: r[c]
  }

  /** The columns of `wanted` that `present` holds, in the order of `wanted`. */
  function PresentColumns(wanted: seq<Column>, present: seq<Column>): (r: seq<Column>)
    ensures forall c :: c in r <==> c in wanted && c in present
    ensures IsSubsequence(r, wanted)
    decreases |wanted|
  {
    if wanted == [] then []
    else
      var n := |wanted| - 1;
      var init := PresentColumns(wanted[..n], present);
      assert wanted == wanted[..n] + [wanted[n]];
      SubsequenceExtend(init, wanted[..n], wanted[n]);
      if wanted[n] in present then init + [wanted[n]]
      else
        assert init + [] == init;
        init
  }
}
