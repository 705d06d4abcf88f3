/** The crew-list stage (scraper/stages/crews.py): fetch the flag page,
    pick the crews table by its header words (or the eleventh table when no
    header matches), skip its first row and turn every row with four cells
    and a linked first cell into a crew row. */
module Crews {
  import opened Base
  import opened Text
  import opened Tables
  import opened Stages
  import opened Seqs
  import opened Html

  const Site := "https://emerald.puzzlepirates.com"
  const ExpectedWords: seq<string> := ["Crew", "Rank", "Members", "Fame"]
  const FallbackIndex := 10
  const NoTableMessage := "Could not find crews table (not enough <table> elements)."

  // ------------------------------------------------------------ the page

  /** A link: its `href` attribute (if any) and its text nodes. */
  datatype Link = Link(href: Option<string>, strings: Strings)

  /** A `th` or `td` cell: its text nodes and its first link, if any. */
  datatype Cell = Cell(strings: Strings, link: Option<Link>)

  /** A `tr`, with the `td` cells `find_all("td")` returns. */
  datatype ListRow = ListRow(tds: seq<Cell>)

  /** A `<table>`: its `th` cells and its `tr` rows, in document order. */
  datatype ListTable = ListTable(th: seq<Cell>, rows: seq<ListRow>)

  datatype FlagPage = FlagPage(tables: seq<ListTable>)

  /** The cells `_find_crews_table` reads as the header: the `th` cells when
      there are any, else the `td` cells of the first row (none when the
      table has no row). */
  function HeaderCells(t: ListTable): seq<Cell> {
    if t.th != [] then t.th
    else if t.rows == [] then []
    else t.rows[0].tds
  }

  function CellTexts(cells: seq<Cell>): (r: seq<string>)
    ensures |r| == |cells|
    ensures forall k :: 0 <= k < |cells| ==> r[k] == GetText(cells[k].strings, " ")
  {
    seq(|cells|, k requires 0 <= k < |cells| => GetText(cells[k].strings, " "))
  }

  function HeaderText(t: ListTable): string {
    Join(CellTexts(HeaderCells(t)), " ")
  }

  /** The header holds every expected word, ignoring case. */
  predicate HeaderMatches(header: string) {
    forall k :: 0 <= k < |ExpectedWords| ==> Contains(LowerStr(header), LowerStr(ExpectedWords[k]))
  }

  /** Lower-casing is idempotent, so the match does not depend on the case
      the page writes its header in. */
  lemma HeaderMatchesIgnoresCase(header: string)
    ensures HeaderMatches(LowerStr(header)) <==> HeaderMatches(header)
    ensures HeaderMatches(UpperStr(header)) <==> HeaderMatches(header)
  {
    assert LowerStr(LowerStr(header)) == LowerStr(header);
    assert LowerStr(UpperStr(header)) == LowerStr(header);
  }

  /** `_find_crews_table`: the index of the first table whose header
      matches, if any. */
  predicate IsCrewsTable(t: ListTable) {
    HeaderMatches(HeaderText(t))
  }

  function FindCrewsTable(tables: seq<ListTable>): (r: Option<nat>)
    ensures r.Some? ==> r.value < |tables| && HeaderMatches(HeaderText(tables[r.value]))
    ensures r.Some? ==> forall j :: 0 <= j < r.value ==> !HeaderMatches(HeaderText(tables[j]))
    ensures r.None? <==> forall j :: 0 <= j < |tables| ==> !HeaderMatches(HeaderText(tables[j]))
  {
    FirstIndex(tables, IsCrewsTable)
  }

  /** The table `run` reads: the matching one, else the eleventh when there
      are more than ten, else the stage fails. */
  function ChooseTable(tables: seq<ListTable>): (r: Result<ListTable, StageError>)
    ensures r.Err? <==> FindCrewsTable(tables).None? && |tables| <= FallbackIndex
    ensures r.Err? ==> r.error == NoCrewsTable(NoTableMessage)
    ensures r.Ok? && FindCrewsTable(tables).Some? ==> r.value == tables[FindCrewsTable(tables).value]
    ensures r.Ok? && FindCrewsTable(tables).None? ==> r.value == tables[FallbackIndex]
  {
    match FindCrewsTable(tables)
    case Some(i) => Ok(tables[i])
    case None =>
      if |tables| > FallbackIndex then Ok(tables[FallbackIndex])
      else Err(NoCrewsTable(NoTableMessage))
  }

  // ------------------------------------------------------------ rows

  /** A row of `crews_df`. */
  datatype CrewRow = CrewRow(crewName: string, crewUrl: string, rank: string, members: string, fame: string)

  /** A site-relative href is put under the site; any other is kept as is
      (an href with no leading "/" is not made absolute here). */
  function CrewUrlOf(href: string): (u: string)
    ensures |href| <= |u| && u[|u| - |href|..] == href
    ensures StartsWith(href, "/") <==> u != href
    ensures u != href ==> u == Site + href
  {
    if StartsWith(href, "/") then Site + href else href
  }

  /** The link of a row that is kept: it has four cells or more and its
      first cell has a link with a non-empty href. */
  predicate Usable(tr: ListRow) {
    |tr.tds| >= 4 && tr.tds[0].link.Some? && tr.tds[0].link.value.href.Some? && tr.tds[0].link.value.href.value != ""
  }

  /** The crew row a usable `tr` gives. */
  function CrewRowOf(tr: ListRow): (r: CrewRow)
    requires Usable(tr)
    ensures r.crewName == GetText(tr.tds[0].link.value.strings, "")
    ensures r.crewUrl == CrewUrlOf(tr.tds[0].link.value.href.value) && r.crewUrl != ""
    ensures r.rank == GetText(tr.tds[1].strings, "")
    ensures r.members == GetText(tr.tds[2].strings, "")
    ensures r.fame == GetText(tr.tds[3].strings, "")
  {
    var link := tr.tds[0].link.value;
    CrewRow(GetText(link.strings, ""), CrewUrlOf(link.href.value),
            GetText(tr.tds[1].strings, ""), GetText(tr.tds[2].strings, ""), GetText(tr.tds[3].strings, ""))
  }

  /** The crew row of a `tr`, when the loop keeps it. */
  function CrewRowOpt(tr: ListRow): Option<CrewRow> {
    if Usable(tr) then Some(CrewRowOf(tr)) else None
  }

  /** The loop over the rows it is given (the table's rows after the first). */
  function CrewRowsOf(trs: seq<ListRow>): (r: seq<CrewRow>)
    ensures FilteredBy(r, trs, CrewRowOpt)
    ensures |r| <= |trs|
  {
    FilterMapInOrder(trs, CrewRowOpt);
    FilterMap(trs, CrewRowOpt)
  }

  /** `table.find_all("tr")[1:]`, filtered and converted. */
  function CrewRows(t: ListTable): seq<CrewRow> {
    if t.rows == [] then [] else CrewRowsOf(t.rows[1..])
  }

  /** Every usable row gives its crew row. */
  lemma CrewRowsOfComplete(trs: seq<ListRow>)
    ensures forall j :: 0 <= j < |trs| && Usable(trs[j]) ==> CrewRowOf(trs[j]) in CrewRowsOf(trs)
  {
    FilterMapComplete(trs, CrewRowOpt);
    forall j | 0 <= j < |trs| && Usable(trs[j])
      ensures CrewRowOf(trs[j]) in CrewRowsOf(trs)
    {
      assert CrewRowOpt(trs[j]).Some?;
    }
  }

  /** Every crew row comes from a usable row. */
  lemma CrewRowsOfSound(trs: seq<ListRow>)
    ensures forall r :: r in CrewRowsOf(trs) ==> exists j :: 0 <= j < |trs| && Usable(trs[j]) && r == CrewRowOf(trs[j])
  {
    FilterMapSound(trs, CrewRowOpt);
    forall r | r in CrewRowsOf(trs)
      ensures exists j :: 0 <= j < |trs| && Usable(trs[j]) && r == CrewRowOf(trs[j])
    {
      var j :| 0 <= j < |trs| && CrewRowOpt(trs[j]) == Some(r);
    }
  }

  /** Every row with fewer than four cells or without a linked href is
      dropped: when no row is usable the output is empty. */
  lemma CrewRowsOfNone(trs: seq<ListRow>)
    requires forall j :: 0 <= j < |trs| ==> !Usable(trs[j])
    ensures CrewRowsOf(trs) == []
  {
    FilterMapNone(trs, CrewRowOpt);
  }

  /** The first row is always skipped: whatever it holds, it contributes
      nothing, even when it would be usable. */
  lemma CrewRowsSkipsFirst(first: ListRow, other: ListRow, rest: seq<ListRow>, th: seq<Cell>)
    ensures CrewRows(ListTable(th, [first] + rest)) == CrewRows(ListTable(th, [other] + rest))
    ensures CrewRows(ListTable(th, [first] + rest)) == CrewRowsOf(rest)
  {
    assert ([first] + rest)[1..] == rest;
    assert ([other] + rest)[1..] == rest;
  }

  // ------------------------------------------------------------ the stage

  /** `requests.get` and `raise_for_status`: a transport error, or a 4xx or
      5xx status, aborts the stage; any other response is parsed. */
  function RunCrews(f: Fetched<FlagPage>): (res: Result<seq<CrewRow>, StageError>)
    ensures f.TransportError? ==> res == Err(Transport(f.kind, f.message))
    ensures f.Response? && 400 <= f.status < 600 ==> res == Err(HttpStatus(f.status))
    ensures f.Response? && !(400 <= f.status < 600) ==>
      (res.Ok? <==> ChooseTable(f.page.tables).Ok?)
    ensures f.Response? && !(400 <= f.status < 600) && res.Ok? ==>
      res.value == CrewRows(ChooseTable(f.page.tables).value)
  {
    match f
    case TransportError(kind, message) => Err(Transport(kind, message))
    case Response(status, page) =>
      if 400 <= status < 600 then Err(HttpStatus(status))
      else
        match ChooseTable(page.tables)
        case Err(e) => Err(e)
        case Ok(t) => Ok(CrewRows(t))
  }

  const CrewColumns: seq<Column> := [CrewName, CrewUrl, Rank, Members, Fame]

  /** `crews_df`: one row per crew row, with exactly its five fields. */
  function CrewsTable(rows: seq<CrewRow>): (t: Table)
    ensures t.columns == CrewColumns && |t.rows| == |rows|
    ensures WellFormed(t)
    ensures forall i :: 0 <= i < |rows| ==>
      && t.rows[i][CrewName] == rows[i].crewName && t.rows[i][CrewUrl] == rows[i].crewUrl
      && t.rows[i][Rank] == rows[i].rank && t.rows[i][Members] == rows[i].members
      && t.rows[i][Fame] == rows[i].fame
  {
    Table(CrewColumns, seq(|rows|, i requires 0 <= i < |rows| =>
      map[CrewName := rows[i].crewName, CrewUrl := rows[i].crewUrl, Rank := rows[i].rank,
          Members := rows[i].members, Fame := rows[i].fame]))
  }
}
