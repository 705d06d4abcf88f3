/** The crew-details stage (scraper/stages/crew_details.py): for each crew
    URL, read the crew name and public statement from the centre cell of the
    page's second table, and the captain from the row after the first
    captain-icon table; a page without those anchors fails the crew. */
module CrewDetails {
  import opened Base
  import opened Text
  import opened Tables
  import opened Stages
  import opened Seqs

  const FewTables := "Expected at least 2 tables on the page."
  const NoCenterCell := "Center cell not found in second table."
  const NoNameFont := "Crew name font tag not found."
  const NoNameBold := "Crew name <b> not found."
  const MissingCrewUrl := "crews_df missing required column: 'Crew URL'"

  /** The crew-name heading of the centre cell: no `font size="+2"`, a font
      without a `<b>`, or the `<b>`'s stripped text. */
  datatype NameTag = NoFont | NoBold | Bold(text: string)

  /** `td align="center"`: its name heading, and the stripped strings of its
      `p align="left"` when it has one. */
  datatype CenterCell = CenterCell(name: NameTag, statement: Option<seq<string>>)

  /** One `<table>` of the page, in `find_all` order: its first centre cell,
      whether it holds the captain icon, and the stripped text of the first
      link in the row after the row that encloses it (when there are such a
      row and such a link). */
  datatype PageTable = PageTable(center: Option<CenterCell>, captainIcon: bool, nextRowLink: Option<string>)

  datatype DetailPage = DetailPage(tables: seq<PageTable>)

  /** A row of `crew_details_df`. */
  datatype CrewDetail = CrewDetail(crewName: string, statement: string, captain: string, crewUrl: string)

  /** An item-level error: the `ValueError` message. */
  datatype DetailError = DetailError(message: string)

  /** `_extract_crew_name`. */
  function ExtractCrewName(cell: CenterCell): (r: Result<string, DetailError>)
    ensures r.Ok? <==> cell.name.Bold?
    ensures r.Ok? ==> r.value == cell.name.text
    ensures cell.name.NoFont? ==> r == Err(DetailError(NoNameFont))
    ensures cell.name.NoBold? ==> r == Err(DetailError(NoNameBold))
  {
    match cell.name
    case NoFont => Err(DetailError(NoNameFont))
    case NoBold => Err(DetailError(NoNameBold))
    case Bold(text) => Ok(text)
  }

  /** `_extract_public_statement`: no paragraph or no lines gives "", one
      line is kept as it is, and of two or more the first (a label such as
      "Public statement:") is dropped and the rest joined by single spaces. */
  function StatementOf(lines: Option<seq<string>>): string {
    match lines
    case None => ""
    case Some(ls) =>
      if |ls| == 0 then ""
      else if |ls| >= 2 then Join(ls[1..], " ")
      else ls[0]
  }

  /** The first line never shows through when there is a second: two
      paragraphs that differ only in their first line give the same statement. */
  lemma PublicStatementIgnoresLabel(a: string, b: string, rest: seq<string>)
    requires |rest| >= 1
    ensures StatementOf(Some([a] + rest)) == StatementOf(Some([b] + rest))
    ensures StatementOf(Some([a] + rest)) == Join(rest, " ")
  {
    assert ([a] + rest)[1..] == rest;
    assert ([b] + rest)[1..] == rest;
  }

  /** The lines after the label are recovered from the statement by splitting
      it at its spaces, when they hold none themselves. */
  lemma PublicStatementSplits(lines: seq<string>)
    requires |lines| >= 2
    requires forall k :: 1 <= k < |lines| ==> ' ' !in lines[k]
    ensures Split(StatementOf(Some(lines)), ' ') == lines[1..]
  {
    var rest := lines[1..];
    assert forall k :: 0 <= k < |rest| ==> rest[k] == lines[k + 1];
    SplitJoin(rest, ' ');
  }

  /** A single line comes back unchanged; no paragraph or no lines give "". */
  lemma PublicStatementShort(line: string)
    ensures StatementOf(Some([line])) == line
    ensures StatementOf(Some([])) == "" && StatementOf(None) == ""
  {
  }

  /** A table `_extract_captain` takes the captain from. */
  predicate Qualifies(t: PageTable) {
    t.captainIcon && t.nextRowLink.Some?
  }

  /** The first table that qualifies, if any. */
  function CaptainTable(tables: seq<PageTable>): (r: Option<nat>)
    ensures r.Some? ==> r.value < |tables| && Qualifies(tables[r.value])
    ensures r.Some? ==> forall j :: 0 <= j < r.value ==> !Qualifies(tables[j])
    ensures r.None? <==> forall j :: 0 <= j < |tables| ==> !Qualifies(tables[j])
  {
    FirstIndex(tables, Qualifies)
  }

  /** `_extract_captain`: the link text of the first qualifying table, or "". */
  function CaptainOf(tables: seq<PageTable>): string {
    match CaptainTable(tables)
    case None => ""
    case Some(i) => tables[i].nextRowLink.value
  }

  /** Tables without the icon, or without a link in the next row, never
      decide the captain: the first one that has both does. */
  lemma CaptainFirstQualifying(tables: seq<PageTable>, i: nat)
    requires i < |tables| && Qualifies(tables[i])
    requires forall j :: 0 <= j < i ==> !Qualifies(tables[j])
    ensures CaptainOf(tables) == tables[i].nextRowLink.value
  {
  }

  /** `_scrape_one` after a 200 response: the anchors are checked in the
      order the source checks them, and the first missing one is the error. */
  function ScrapeDetail(crewUrl: string, page: DetailPage): (r: Result<CrewDetail, DetailError>)
    ensures |page.tables| < 2 ==> r == Err(DetailError(FewTables))
    ensures |page.tables| >= 2 && page.tables[1].center.None? ==> r == Err(DetailError(NoCenterCell))
    ensures r.Ok? <==> |page.tables| >= 2 && page.tables[1].center.Some? && page.tables[1].center.value.name.Bold?
    ensures r.Ok? ==> var cell := page.tables[1].center.value;
      r.value == CrewDetail(cell.name.text, StatementOf(cell.statement), CaptainOf(page.tables), crewUrl)
  {
    if |page.tables| < 2 then Err(DetailError(FewTables))
    else
      match page.tables[1].center
      case None => Err(DetailError(NoCenterCell))
      case Some(cell) =>
        match ExtractCrewName(cell)
        case Err(e) => Err(e)
        case Ok(name) => Ok(CrewDetail(name, StatementOf(cell.statement), CaptainOf(page.tables), crewUrl))
  }

  /** The error of a page with enough tables and a centre cell is the name
      heading's: the font is looked for before the `<b>`. */
  lemma ScrapeDetailNameErrors(crewUrl: string, page: DetailPage)
    requires |page.tables| >= 2 && page.tables[1].center.Some?
    ensures page.tables[1].center.value.name.NoFont? ==> ScrapeDetail(crewUrl, page) == Err(DetailError(NoNameFont))
    ensures page.tables[1].center.value.name.NoBold? ==> ScrapeDetail(crewUrl, page) == Err(DetailError(NoNameBold))
  {
  }

  function DetailParse(url: string): DetailPage -> Outcome<CrewDetail> {
    page =>
      match ScrapeDetail(url, page)
      case Ok(d) => Success([d])
      case Err(e) => Failure("ValueError", e.message)
  }

  function DetailAttempt(fetch: string -> Fetched<DetailPage>): string -> Outcome<CrewDetail> {
    url => Attempt(fetch(url), DetailParse(url))
  }

  /** The `run` of the crew-details stage. */
  function RunCrewDetails(input: Table, fetch: string -> Fetched<DetailPage>): (res: Result<StageRun<CrewDetail>, StageError>)
    ensures res.Err? <==> CrewUrl !in input.columns
    ensures res.Err? ==> res.error == MissingColumn(MissingCrewUrl)
  {
    RunKeyedStage(input, CrewUrl, MissingCrewUrl, DetailAttempt(fetch))
  }

  /** A crew URL that succeeds gives exactly one row, and it carries that URL. */
  lemma DetailAttemptRow(fetch: string -> Fetched<DetailPage>, k: string)
    requires DetailAttempt(fetch)(k).Success?
    ensures |DetailAttempt(fetch)(k).rows| == 1
    ensures DetailAttempt(fetch)(k).rows[0].crewUrl == k
  {
    assert fetch(k).Response?;
    assert ScrapeDetail(k, fetch(k).page).Ok?;
  }

  /** Every prepared crew URL yields exactly one detail row or one failure
      row; every row's URL and every failure's key is a prepared URL. */
  lemma RunCrewDetailsAccounting(input: Table, fetch: string -> Fetched<DetailPage>)
    requires CrewUrl in input.columns
    ensures var run := RunCrewDetails(input, fetch).value;
            var keys := PrepareKeys(ColumnValues(input, CrewUrl));
            && |run.rows| + |run.failures| == |keys|
            && (forall r :: r in run.rows ==> r.crewUrl in keys)
            && (forall f :: f in run.failures ==> f.key in keys)
  {
    var keys := PrepareKeys(ColumnValues(input, CrewUrl));
    var attempt := DetailAttempt(fetch);
    forall k | k in keys && attempt(k).Success?
      ensures |attempt(k).rows| == 1
    {
      DetailAttemptRow(fetch, k);
    }
    RunOneRowEach(keys, attempt);
    RunRecords(keys, attempt);
    DetailRowsKeys(keys, fetch);
  }

  /** Every detail row of a run carries one of the run's keys. */
  lemma DetailRowsKeys(keys: seq<string>, fetch: string -> Fetched<DetailPage>)
    ensures forall r :: r in Run(keys, DetailAttempt(fetch)).rows ==> r.crewUrl in keys
  {
    var attempt := DetailAttempt(fetch);
    RunRecords(keys, attempt);
    forall r: CrewDetail | r in Run(keys, attempt).rows
      ensures r.crewUrl in keys
    {
      var k :| k in keys && attempt(k).Success? && r in attempt(k).rows;
      DetailAttemptRow(fetch, k);
    }
  }

  const DetailColumns: seq<Column> := [CrewName, PublicStatement, Captain, CrewUrl]

  /** `crew_details_df`: one row per detail, with exactly its four fields. */
  function CrewDetailsTable(rows: seq<CrewDetail>): (t: Table)
    ensures t.columns == DetailColumns && |t.rows| == |rows|
    ensures WellFormed(t)
    ensures forall i :: 0 <= i < |rows| ==>
      && t.rows[i][CrewName] == rows[i].crewName && t.rows[i][PublicStatement] == rows[i].statement
      && t.rows[i][Captain] == rows[i].captain && t.rows[i][CrewUrl] == rows[i].crewUrl
  {
    Table(DetailColumns, seq(|rows|, i requires 0 <= i < |rows| =>
      map[CrewName := rows[i].crewName, PublicStatement := rows[i].statement,
          Captain := rows[i].captain, CrewUrl := rows[i].crewUrl]))
  }
}
