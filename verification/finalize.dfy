/** The last stage (scraper/stages/finalize.py): derive the royals table
    from the pirates table, stamp every non-empty dataset with one shared
    update time, and name the ten output files. */
module Finalize {
  import opened Base
  import opened Text
  import opened Seqs
  import opened Tables
  import opened Sorting

  /** `VALID_TITLES`, in the order `title_order` ranks them. */
  const Titles: seq<string> := ["King", "Queen", "Prince", "Princess", "Lord", "Lady"]

  /** `fillna(999)`: the rank of a role `title_order` does not know. */
  const UnknownRank := 999

  /** The royals' columns, in the order they are kept. */
  const RoyalColumns: seq<Column> := [PirateName, FlagRole, FlagName, CrewName, CrewRank, PirateUrl]

  // ------------------------------------------------------------ titles

  /** `_title_clean`: strip, then the first character upper-cased and the
      rest lower-cased; blank input gives "". */
  function TitleClean(s: string): (r: string)
    ensures |r| == |Strip(s)|
    ensures r == "" <==> AllSpace(s)
    ensures forall i :: 0 <= i < |r| ==> Lower(r[i]) == Lower(Strip(s)[i])
    ensures r != "" ==> !IsLower(r[0])
    ensures forall i :: 0 < i < |r| ==> !IsUpper(r[i])
  {
    var t := Strip(s);
    StripEmpty(s);
    if t == "" then ""
    else
      var r := [Upper(t[0])] + LowerStr(t[1..]);
      assert forall i :: 0 < i < |r| ==> r[i] == Lower(t[i]);
      r
  }

  /** A cleaned title has no whitespace at either end. */
  lemma TitleCleanTrimmed(s: string)
    ensures var r := TitleClean(s); r == [] || (!IsSpace(r[0]) && !IsSpace(r[|r| - 1]))
  {
    var t := Strip(s);
    var r := TitleClean(s);
    if r != [] {
      assert Lower(r[0]) == Lower(t[0]) && Lower(r[|r| - 1]) == Lower(t[|t| - 1]);
    }
  }

  /** Two title-cased strings that agree ignoring case are equal. */
  lemma TitleCaseUnique(a: string, b: string)
    requires |a| == |b|
    requires forall i :: 0 <= i < |a| ==> Lower(a[i]) == Lower(b[i])
    requires a != [] ==> !IsLower(a[0]) && !IsLower(b[0])
    requires forall i :: 0 < i < |a| ==> !IsUpper(a[i]) && !IsUpper(b[i])
    ensures a == b
  {
    forall i | 0 <= i < |a|
      ensures a[i] == b[i]
    {
      assert Lower(a[i]) == Lower(b[i]);
    }
  }

  /** Cleaning a cleaned title changes nothing. */
  lemma TitleCleanIdempotent(s: string)
    ensures TitleClean(TitleClean(s)) == TitleClean(s)
  {
    var r := TitleClean(s);
    TitleCleanTrimmed(s);
    StripTrimmed(r);
    TitleCaseUnique(TitleClean(r), r);
  }

  /** The case the input is written in does not matter: "queen", "QUEEN"
      and "Queen" clean to the same title. */
  lemma TitleCleanIgnoresCase(s: string)
    ensures TitleClean(LowerStr(s)) == TitleClean(s)
  {
    StripLower(s);
    TitleCaseUnique(TitleClean(LowerStr(s)), TitleClean(s));
  }

  /** `_only_valid_title`: the cleaned title when it is one of the six,
      else "". */
  function OnlyValidTitle(s: string): (r: string)
    ensures r == "" || r in Titles
    ensures r in Titles <==> TitleClean(s) in Titles
    ensures r in Titles ==> r == TitleClean(s)
  {
    var t := TitleClean(s);
    if t in Titles then t else ""
  }

  /** A valid title is kept as it is; filtering twice is filtering once. */
  lemma OnlyValidTitleIdempotent(s: string)
    ensures OnlyValidTitle(OnlyValidTitle(s)) == OnlyValidTitle(s)
  {
    TitleCleanIdempotent(s);
    var t := TitleClean(s);
    if t !in Titles {
      assert TitleClean("") == "";
    }
  }

  /** `title_order` with `fillna(999)`. */
  function RoleRank(role: string): (k: nat)
    ensures role in Titles ==> k < |Titles| && Titles[k] == role
    ensures role !in Titles ==> k == UnknownRank
  {
    if role == "King" then 0
    else if role == "Queen" then 1
    else if role == "Prince" then 2
    else if role == "Princess" then 3
    else if role == "Lord" then 4
    else if role == "Lady" then 5
    else UnknownRank
  }

  // ------------------------------------------------------------ royals

  /** `astype(str)`: a missing cell (NaN) reads as "nan". */
  function CellText(r: Row, c: Column): string {
    if c in r then r[c] else "nan"
  }

  /** One row of the copy after `Flag Role` and `Flag Name` are normalised. */
  function NormalizeRow(r: Row): (n: Row)
    ensures n.Keys == r.Keys + {FlagRole, FlagName}
    ensures n[FlagRole] == OnlyValidTitle(CellText(r, FlagRole))
    ensures n[FlagName] == Strip(CellText(r, FlagName))
    ensures forall c :: c in r && c != FlagRole && c != FlagName ==> n[c] == r[c]
  {
    r[FlagRole := OnlyValidTitle(CellText(r, FlagRole))][FlagName := Strip(CellText(r, FlagName))]
  }

  /** `p = pirates_df.copy()`, the two columns added as "" when absent,
      then both mapped. */
  function Normalize(p: Table): (n: Table)
    ensures FlagRole in n.columns && FlagName in n.columns
    ensures |n.rows| == |p.rows|
  {
    var t1 := if FlagRole in p.columns then p else SetColumn(p, FlagRole, "");
    var t2 := if FlagName in t1.columns then t1 else SetColumn(t1, FlagName, "");
    Table(t2.columns, seq(|t2.rows|, i requires 0 <= i < |t2.rows| => NormalizeRow(t2.rows[i])))
  }

  /** A row whose title is one of `VALID_TITLES`. */
  predicate HasValidTitle(row: Row) {
    FlagRole in row && row[FlagRole] in Titles
  }

  /** `p.loc[p["Flag Role"].isin(VALID_TITLES)]`. */
  function ValidRows(rows: seq<Row>): (r: seq<Row>)
    ensures forall i :: 0 <= i < |r| ==> FlagRole in r[i] && r[i][FlagRole] in Titles
    ensures IsSubsequence(r, rows)
  {
    var r := Filter(rows, HasValidTitle);
    assert forall i :: 0 <= i < |r| ==> HasValidTitle(r[i]);
    r
  }

  /** Every row with a valid title is kept. */
  lemma ValidRowsComplete(rows: seq<Row>)
    ensures forall i :: 0 <= i < |rows| && FlagRole in rows[i] && rows[i][FlagRole] in Titles ==> rows[i] in ValidRows(rows)
  {
    FilterComplete(rows, HasValidTitle);
    assert forall i :: 0 <= i < |rows| ==> HasValidTitle(rows[i]) == (FlagRole in rows[i] && rows[i][FlagRole] in Titles);
  }

  /** The kept rows are the valid ones in their original order, one per
      valid input position. */
  lemma ValidRowsInOrder(rows: seq<Row>)
    ensures FilteredBy(ValidRows(rows), rows, KeepIf(HasValidTitle))
  {
    FilterInOrder(rows, HasValidTitle);
  }

  /** A valid row is kept as many times as it occurs in the input; an
      invalid one not at all. */
  lemma ValidRowsCount(rows: seq<Row>)
    ensures forall row :: multiset(ValidRows(rows))[row] == if HasValidTitle(row) then multiset(rows)[row] else 0
  {
    FilterCount(rows, HasValidTitle);
  }

  // ------------------------------------------------------------ sorting

  /** The sort key: the role's rank, then the pirate name when the table
      has that column (a missing name sorts last, as pandas puts NaN). */
  datatype SortKey = SortKey(rank: nat, name: Option<string>)

  function RowKey(r: Row): SortKey {
    SortKey(RoleRank(Cell(r, FlagRole)), if PirateName in r then Some(r[PirateName]) else None)
  }

  predicate NameLe(a: Option<string>, b: Option<string>) {
    match (a, b)
    case (Some(x), Some(y)) => LexLe(x, y)
    case (_, None) => true
    case (None, Some(_)) => false
  }

  /** Ascending by rank, then (when `byName`) by name. */
  predicate KeyLe(a: SortKey, b: SortKey, byName: bool) {
    a.rank < b.rank || (a.rank == b.rank && (!byName || NameLe(a.name, b.name)))
  }

  predicate RowLe(a: Row, b: Row, byName: bool) {
    KeyLe(RowKey(a), RowKey(b), byName)
  }

  lemma KeyLeTotal(a: SortKey, b: SortKey, byName: bool)
    ensures KeyLe(a, b, byName) || KeyLe(b, a, byName)
  {
    if a.name.Some? && b.name.Some? {
      LexLeTotal(a.name.value, b.name.value);
    }
  }

  lemma KeyLeTransitive(a: SortKey, b: SortKey, c: SortKey, byName: bool)
    requires KeyLe(a, b, byName) && KeyLe(b, c, byName)
    ensures KeyLe(a, c, byName)
  {
    if byName && a.rank == b.rank == c.rank && a.name.Some? && b.name.Some? && c.name.Some? {
      LexLeTransitive(a.name.value, b.name.value, c.name.value);
    }
  }

  /** The row order of `sort_values`. */
  function RowOrder(byName: bool): (Row, Row) -> bool {
    (a, b) => RowLe(a, b, byName)
  }

  lemma RowOrderPreorder(byName: bool)
    ensures Total(RowOrder(byName)) && Transitive(RowOrder(byName))
  {
    var le := RowOrder(byName);
    forall a, b
      ensures le(a, b) || le(b, a)
    {
      KeyLeTotal(RowKey(a), RowKey(b), byName);
    }
    forall a, b, c | le(a, b) && le(b, c)
      ensures le(a, c)
    {
      KeyLeTransitive(RowKey(a), RowKey(b), RowKey(c), byName);
    }
  }

  // ------------------------------------------------------------ dedup

  /** `drop_duplicates(subset=[c])`: NaN counts as one value. */
  function UrlKey(r: Row): Option<string> {
    if PirateUrl in r then Some(r[PirateUrl]) else None
  }

  function NameKey(r: Row): Option<string> {
    if PirateName in r then Some(r[PirateName]) else None
  }

  /** The de-duplication step: by URL when the column is kept, else by
      name when that is, else none. */
  function DedupRoyals(rows: seq<Row>, columns: seq<Column>): (r: seq<Row>)
    ensures IsSubsequence(r, rows)
    ensures PirateUrl in columns ==> KeysDistinct(r, UrlKey) && KeysOf(r, UrlKey) == KeysOf(rows, UrlKey)
    ensures PirateUrl !in columns && PirateName in columns ==> KeysDistinct(r, NameKey) && KeysOf(r, NameKey) == KeysOf(rows, NameKey)
    ensures PirateUrl !in columns && PirateName !in columns ==> r == rows
    ensures PirateUrl in columns ==> FirstOccurrences(r, rows, UrlKey)
    ensures PirateUrl !in columns && PirateName in columns ==> FirstOccurrences(r, rows, NameKey)
  {
    if PirateUrl in columns then
      DedupByFirstOccurrences(rows, UrlKey);
      DedupByInOrder(rows, UrlKey);
      DedupBy(rows, UrlKey)
    else if PirateName in columns then
      DedupByFirstOccurrences(rows, NameKey);
      DedupByInOrder(rows, NameKey);
      DedupBy(rows, NameKey)
    else
      SubsequenceRefl(rows);
      rows
  }

  /** `p.loc[:, keep_cols]` on the kept rows. */
  function ProjectRows(rows: seq<Row>, keep: seq<Column>): (r: seq<Row>)
    ensures |r| == |rows|
    ensures forall i :: 0 <= i < |rows| ==> r[i] == ProjectRow(rows[i], keep)
  {
    seq(|rows|, i requires 0 <= i < |rows| => ProjectRow(rows[i], keep))
  }

  /** The royals pipeline on the normalised rows and columns. */
  function RoyalsFrom(rows: seq<Row>, columns: seq<Column>): Table {
    var keep := PresentColumns(RoyalColumns, columns);
    var sorted := Sort(ProjectRows(ValidRows(rows), keep), RowOrder(PirateName in keep));
    Table(keep, DedupRoyals(sorted, keep))
  }

  /** The royals table from the pirates table. */
  function Royals(p: Table): Table {
    var n := Normalize(p);
    RoyalsFrom(n.rows, n.columns)
  }

  /** `r` is one of `rows` restricted to `keep`. */
  ghost predicate ProjectionOf(r: Row, rows: seq<Row>, keep: seq<Column>) {
    exists k :: 0 <= k < |rows| && r == ProjectRow(rows[k], keep)
  }

  /** Every row of the sorted projection is the projection of a row with a
      valid title. */
  lemma SortedProjection(rows: seq<Row>, keep: seq<Column>, byName: bool)
    requires FlagRole in keep
    ensures var sorted := Sort(ProjectRows(ValidRows(rows), keep), RowOrder(byName));
      forall r :: r in sorted ==> FlagRole in r && r[FlagRole] in Titles && ProjectionOf(r, rows, keep)
  {
    var valid := ValidRows(rows);
    var projected := ProjectRows(valid, keep);
    var sorted := Sort(projected, RowOrder(byName));
    SubsequenceMembers(valid, rows);
    forall r | r in sorted
      ensures FlagRole in r && r[FlagRole] in Titles
      ensures ProjectionOf(r, rows, keep)
    {
      assert r in multiset(projected);
      var i :| 0 <= i < |projected| && projected[i] == r;
      assert valid[i] in rows;
      var k :| 0 <= k < |rows| && rows[k] == valid[i];
    }
  }

  /** Every royal is one of the input rows, restricted to the kept
      columns, and holds one of the six titles. */
  lemma RoyalsFromRows(rows: seq<Row>, columns: seq<Column>)
    requires FlagRole in columns
    ensures var r := RoyalsFrom(rows, columns);
      forall i :: 0 <= i < |r.rows| ==>
        FlagRole in r.rows[i] && r.rows[i][FlagRole] in Titles && ProjectionOf(r.rows[i], rows, r.columns)
  {
    var keep := PresentColumns(RoyalColumns, columns);
    var le := RowOrder(PirateName in keep);
    var sorted := Sort(ProjectRows(ValidRows(rows), keep), le);
    SortedProjection(rows, keep, PirateName in keep);
    var out := DedupRoyals(sorted, keep);
    assert RoyalsFrom(rows, columns) == Table(keep, out);
    SubsequenceMembers(out, sorted);
    forall i | 0 <= i < |out|
      ensures FlagRole in out[i] && out[i][FlagRole] in Titles && ProjectionOf(out[i], rows, keep)
    {
      assert out[i] in out;
    }
  }

  /** The royals are in (title rank, name) order, and no two share a pirate
      URL (or a name, when the URL column is absent). */
  lemma RoyalsFromOrder(rows: seq<Row>, columns: seq<Column>)
    ensures var r := RoyalsFrom(rows, columns);
      && Sorted(r.rows, RowOrder(PirateName in r.columns))
      && (PirateUrl in r.columns ==> KeysDistinct(r.rows, UrlKey))
      && (PirateUrl !in r.columns && PirateName in r.columns ==> KeysDistinct(r.rows, NameKey))
  {
    var keep := PresentColumns(RoyalColumns, columns);
    var le := RowOrder(PirateName in keep);
    var sorted := Sort(ProjectRows(ValidRows(rows), keep), le);
    RowOrderPreorder(PirateName in keep);
    SortSorted(ProjectRows(ValidRows(rows), keep), le);
    SortedSubsequence(DedupRoyals(sorted, keep), sorted, le);
  }

  /** The royals pipeline, on rows whose columns include the title and the
      flag name: the kept columns are the present ones among the six, in
      their order, title and flag name among them; every row is the
      projection of an input row and holds one of the six titles; the rows
      are in (title rank, name) order; and no two rows share a pirate URL
      (or a name, when the URL column is absent). */
  lemma RoyalsFromShape(rows: seq<Row>, columns: seq<Column>)
    requires FlagRole in columns && FlagName in columns
    ensures var r := RoyalsFrom(rows, columns);
      && r.columns == PresentColumns(RoyalColumns, columns)
      && FlagRole in r.columns && FlagName in r.columns
      && (forall i :: 0 <= i < |r.rows| ==> FlagRole in r.rows[i] && r.rows[i][FlagRole] in Titles)
      && (forall i :: 0 <= i < |r.rows| ==> ProjectionOf(r.rows[i], rows, r.columns))
      && Sorted(r.rows, RowOrder(PirateName in r.columns))
      && (PirateUrl in r.columns ==> KeysDistinct(r.rows, UrlKey))
      && (PirateUrl !in r.columns && PirateName in r.columns ==> KeysDistinct(r.rows, NameKey))
  {
    RoyalsFromRows(rows, columns);
    RoyalsFromOrder(rows, columns);
  }

  /** `RoyalsFromShape` for the pirates table itself. */
  lemma RoyalsShape(p: Table)
    ensures var r, n := Royals(p), Normalize(p);
      && r.columns == PresentColumns(RoyalColumns, n.columns)
      && FlagRole in r.columns && FlagName in r.columns
      && (forall i :: 0 <= i < |r.rows| ==> FlagRole in r.rows[i] && r.rows[i][FlagRole] in Titles)
      && (forall i :: 0 <= i < |r.rows| ==> ProjectionOf(r.rows[i], n.rows, r.columns))
      && Sorted(r.rows, RowOrder(PirateName in r.columns))
      && (PirateUrl in r.columns ==> KeysDistinct(r.rows, UrlKey))
      && (PirateUrl !in r.columns && PirateName in r.columns ==> KeysDistinct(r.rows, NameKey))
  {
    var n := Normalize(p);
    RoyalsFromShape(n.rows, n.columns);
  }

  /** A row with a valid title reaches the sorted projection, restricted
      to the kept columns. */
  lemma ValidRowSorted(rows: seq<Row>, keep: seq<Column>, byName: bool, k: nat)
    requires k < |rows| && FlagRole in rows[k] && rows[k][FlagRole] in Titles
    ensures ProjectRow(rows[k], keep) in Sort(ProjectRows(ValidRows(rows), keep), RowOrder(byName))
  {
    var valid := ValidRows(rows);
    ValidRowsComplete(rows);
    var m :| 0 <= m < |valid| && valid[m] == rows[k];
    var projected := ProjectRows(valid, keep);
    assert projected[m] == ProjectRow(rows[k], keep);
    assert projected[m] in multiset(Sort(projected, RowOrder(byName)));
  }

  /** The sorted projection is sorted, under a total order. */
  lemma SortedRoyalsInput(rows: seq<Row>, keep: seq<Column>, byName: bool)
    ensures Sorted(Sort(ProjectRows(ValidRows(rows), keep), RowOrder(byName)), RowOrder(byName))
    ensures Total(RowOrder(byName))
  {
    RowOrderPreorder(byName);
    SortSorted(ProjectRows(ValidRows(rows), keep), RowOrder(byName));
  }

  /** One instance of `RoyalsFromLeast`: a survivor of the de-duplication
      of the sorted projection sorts no later than a row of the sorted
      projection with its key. */
  lemma RoyalLeast(rows: seq<Row>, keep: seq<Column>, byName: bool, key: Row -> Option<string>, out: seq<Row>, i: nat, y: Row)
    requires FirstOccurrences(out, Sort(ProjectRows(ValidRows(rows), keep), RowOrder(byName)), key)
    requires i < |out| && y in Sort(ProjectRows(ValidRows(rows), keep), RowOrder(byName)) && key(y) == key(out[i])
    ensures RowLe(out[i], y, byName)
  {
    SortedRoyalsInput(rows, keep, byName);
    FirstOccurrenceLeastAt(Sort(ProjectRows(ValidRows(rows), keep), RowOrder(byName)), key, RowOrder(byName), out, i, y);
  }

  /** The royal kept for a pirate URL sorts no later, in (title rank, name)
      order, than any row with a valid title and that URL: the
      de-duplication keeps the first row of the sorted table, so a least
      one. The same holds by name when the URL column is absent. */
  lemma RoyalsFromLeast(rows: seq<Row>, columns: seq<Column>)
    ensures var r := RoyalsFrom(rows, columns);
      PirateUrl in r.columns ==>
        forall i, k :: (0 <= i < |r.rows| && 0 <= k < |rows| && FlagRole in rows[k] && rows[k][FlagRole] in Titles
          && UrlKey(rows[k]) == UrlKey(r.rows[i])) ==> RowLe(r.rows[i], ProjectRow(rows[k], r.columns), PirateName in r.columns)
    ensures var r := RoyalsFrom(rows, columns);
      PirateUrl !in r.columns && PirateName in r.columns ==>
        forall i, k :: (0 <= i < |r.rows| && 0 <= k < |rows| && FlagRole in rows[k] && rows[k][FlagRole] in Titles
          && NameKey(rows[k]) == NameKey(r.rows[i])) ==> RowLe(r.rows[i], ProjectRow(rows[k], r.columns), true)
  {
    var keep := PresentColumns(RoyalColumns, columns);
    var byName := PirateName in keep;
    var sorted := Sort(ProjectRows(ValidRows(rows), keep), RowOrder(byName));
    var out := DedupRoyals(sorted, keep);
    assert RoyalsFrom(rows, columns) == Table(keep, out);
    if PirateUrl in keep {
      forall i, k | 0 <= i < |out| && 0 <= k < |rows| && FlagRole in rows[k] && rows[k][FlagRole] in Titles
          && UrlKey(rows[k]) == UrlKey(out[i])
        ensures RowLe(out[i], ProjectRow(rows[k], keep), byName)
      {
        ProjectKeepsUrl(rows[k], keep);
        ValidRowSorted(rows, keep, byName, k);
        RoyalLeast(rows, keep, byName, UrlKey, out, i, ProjectRow(rows[k], keep));
      }
    } else if PirateName in keep {
      forall i, k | 0 <= i < |out| && 0 <= k < |rows| && FlagRole in rows[k] && rows[k][FlagRole] in Titles
          && NameKey(rows[k]) == NameKey(out[i])
        ensures RowLe(out[i], ProjectRow(rows[k], keep), true)
      {
        ProjectKeepsName(rows[k], keep);
        ValidRowSorted(rows, keep, byName, k);
        RoyalLeast(rows, keep, byName, NameKey, out, i, ProjectRow(rows[k], keep));
      }
    }
  }

  lemma ProjectKeepsName(r: Row, keep: seq<Column>)
    requires PirateName in keep
    ensures NameKey(ProjectRow(r, keep)) == NameKey(r)
  {
    assert PirateName in ColumnSet(keep);
  }

  lemma ProjectKeepsUrl(r: Row, keep: seq<Column>)
    requires PirateUrl in keep
    ensures UrlKey(ProjectRow(r, keep)) == UrlKey(r)
  {
    assert PirateUrl in ColumnSet(keep);
  }

  /** Every row whose title is valid is represented in the royals by its
      URL, when that column is kept. */
  lemma RoyalsKeepEveryUrl(rows: seq<Row>, columns: seq<Column>)
    requires PirateUrl in columns
    ensures forall i :: 0 <= i < |rows| && FlagRole in rows[i] && rows[i][FlagRole] in Titles ==>
      UrlKey(rows[i]) in KeysOf(RoyalsFrom(rows, columns).rows, UrlKey)
  {
    var keep := PresentColumns(RoyalColumns, columns);
    assert PirateUrl in keep;
    var valid := ValidRows(rows);
    ValidRowsComplete(rows);
    var projected := ProjectRows(valid, keep);
    var sorted := Sort(projected, RowOrder(PirateName in keep));
    forall i | 0 <= i < |rows| && FlagRole in rows[i] && rows[i][FlagRole] in Titles
      ensures UrlKey(rows[i]) in KeysOf(RoyalsFrom(rows, columns).rows, UrlKey)
    {
      var row := rows[i];
      var k :| 0 <= k < |valid| && valid[k] == row;
      var pr := projected[k];
      ProjectKeepsUrl(row, keep);
      assert pr in multiset(sorted);
      assert UrlKey(pr) in KeysOf(sorted, UrlKey);
    }
  }

  // ------------------------------------------------------------ stamping

  /** `df["Last Updated (UTC)"] = stamp` for a non-empty table. */
  function Stamp(t: Table, stamp: string): (r: Table)
    ensures IsEmpty(t) ==> r == t
    ensures !IsEmpty(t) ==> LastUpdated in r.columns
    ensures !IsEmpty(t) ==> forall i :: 0 <= i < |r.rows| ==> LastUpdated in r.rows[i] && r.rows[i][LastUpdated] == stamp
    ensures |r.rows| == |t.rows|
    ensures forall i, c :: 0 <= i < |t.rows| && c != LastUpdated && c in t.rows[i] ==> c in r.rows[i] && r.rows[i][c] == t.rows[i][c]
  {
    if IsEmpty(t) then t else SetColumn(t, LastUpdated, stamp)
  }

  /** What the stage reads: the six datasets and four failure logs (the
      crew-details pair may be absent, read as empty tables). */
  datatype Inputs = Inputs(
    crews: Table, crewDetails: Option<Table>, crewFailures: Option<Table>,
    pirateUrls: Table, pirateUrlsFailures: Table,
    pirates: Table, piratesFailures: Table,
    shoppes: Table, shoppesFailures: Table)

  const EmptyTable := Table([], [])

  /** The ten files the stage writes. */
  datatype OutputFile =
    | CrewsCsv | CrewDetailsCsv | PirateUrlsCsv | PiratesCsv | ShoppesCsv | RoyalsCsv
    | CrewFailuresCsv | PirateUrlsFailuresCsv | PiratesFailuresCsv | ShoppesFailuresCsv

  function FileName(f: OutputFile): string {
    match f
    case CrewsCsv => "crews.csv"
    case CrewDetailsCsv => "crew_details.csv"
    case PirateUrlsCsv => "pirate_urls.csv"
    case PiratesCsv => "pirates.csv"
    case ShoppesCsv => "shoppes.csv"
    case RoyalsCsv => "royals.csv"
    case CrewFailuresCsv => "crew_failures.csv"
    case PirateUrlsFailuresCsv => "pirate_urls_failures.csv"
    case PiratesFailuresCsv => "pirates_failures.csv"
    case ShoppesFailuresCsv => "shoppes_failures.csv"
  }

  /** The ten files have ten different names. */
  lemma FileNamesDistinct(f: OutputFile, g: OutputFile)
    requires f != g
    ensures FileName(f) != FileName(g)
  {
  }

  /** A failure log is written as it was read: no timestamp column. */
  predicate IsFailureLog(f: OutputFile) {
    f.CrewFailuresCsv? || f.PirateUrlsFailuresCsv? || f.PiratesFailuresCsv? || f.ShoppesFailuresCsv?
  }

  const AllFiles: set<OutputFile> := {
    CrewsCsv, CrewDetailsCsv, PirateUrlsCsv, PiratesCsv, ShoppesCsv, RoyalsCsv,
    CrewFailuresCsv, PirateUrlsFailuresCsv, PiratesFailuresCsv, ShoppesFailuresCsv}

  lemma AllFilesCover()
    ensures forall f: OutputFile :: f in AllFiles
  {
    forall f: OutputFile
      ensures f in AllFiles
    {
      match f
      case CrewsCsv =>
      case CrewDetailsCsv =>
      case PirateUrlsCsv =>
      case PiratesCsv =>
      case ShoppesCsv =>
      case RoyalsCsv =>
      case CrewFailuresCsv =>
      case PirateUrlsFailuresCsv =>
      case PiratesFailuresCsv =>
      case ShoppesFailuresCsv =>
    }
  }

  /** What the stage writes to one file. */
  function OutputOf(inp: Inputs, stamp: string, f: OutputFile): Table {
    match f
    case CrewsCsv => Stamp(inp.crews, stamp)
    case CrewDetailsCsv => Stamp(inp.crewDetails.GetOr(EmptyTable), stamp)
    case PirateUrlsCsv => Stamp(inp.pirateUrls, stamp)
    case PiratesCsv => Stamp(inp.pirates, stamp)
    case ShoppesCsv => Stamp(inp.shoppes, stamp)
    case RoyalsCsv => Stamp(Royals(inp.pirates), stamp)
    case CrewFailuresCsv => inp.crewFailures.GetOr(EmptyTable)
    case PirateUrlsFailuresCsv => inp.pirateUrlsFailures
    case PiratesFailuresCsv => inp.piratesFailures
    case ShoppesFailuresCsv => inp.shoppesFailures
  }

  /** The table the stage holds for a file before stamping: what it read
      (an absent crew-details table read as empty), or the royals. */
  function InputOf(inp: Inputs, f: OutputFile): Table {
    match f
    case CrewsCsv => inp.crews
    case CrewDetailsCsv => inp.crewDetails.GetOr(EmptyTable)
    case PirateUrlsCsv => inp.pirateUrls
    case PiratesCsv => inp.pirates
    case ShoppesCsv => inp.shoppes
    case RoyalsCsv => Royals(inp.pirates)
    case CrewFailuresCsv => inp.crewFailures.GetOr(EmptyTable)
    case PirateUrlsFailuresCsv => inp.pirateUrlsFailures
    case PiratesFailuresCsv => inp.piratesFailures
    case ShoppesFailuresCsv => inp.shoppesFailures
  }

  /** The stage's `run`, with the clock reading passed in as `stamp`: all
      ten files are written. A failure log, and an empty dataset, is written
      exactly as held; every row of a non-empty dataset gets the one shared
      stamp and keeps its other cells, so in particular the pirates table is
      written with the titles it was read with (the royals work on a copy). */
  function RunFinalize(inp: Inputs, stamp: string): (out: map<OutputFile, Table>)
    ensures forall f: OutputFile :: f in out
    ensures forall f: OutputFile :: IsFailureLog(f) || IsEmpty(InputOf(inp, f)) ==> out[f] == InputOf(inp, f)
    ensures forall f: OutputFile :: !IsFailureLog(f) && !IsEmpty(InputOf(inp, f)) ==>
      && LastUpdated in out[f].columns
      && |out[f].rows| == |InputOf(inp, f).rows|
      && (forall i :: 0 <= i < |out[f].rows| ==> LastUpdated in out[f].rows[i] && out[f].rows[i][LastUpdated] == stamp)
      && (forall i, c :: 0 <= i < |InputOf(inp, f).rows| && c != LastUpdated && c in InputOf(inp, f).rows[i] ==>
            c in out[f].rows[i] && out[f].rows[i][c] == InputOf(inp, f).rows[i][c])
  {
    AllFilesCover();
    map f | f in AllFiles :: OutputOf(inp, stamp, f)
  }
}
