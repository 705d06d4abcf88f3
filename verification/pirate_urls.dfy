/** The member-link stage (scraper/stages/pirate_urls.py): for each crew
    page, walk the body's elements in document order, collect every pirate
    profile link until the "jobbing pirates" marker image, make each URL
    absolute without its fragment, and keep the first row of every
    (URL, name, crew) triple. */
module PirateUrls {
  import opened Base
  import opened Text
  import opened Seqs
  import opened Tables
  import opened Stages

  const Site := "https://emerald.puzzlepirates.com"
  const PirateLinkMark := "/yoweb/pirate.wm"
  const TargetMark := "target="
  const JobbingSrc := "/yoweb/images/crew-jobbing.png"
  const UnknownCrew := "Unknown"
  const MissingCrewUrl := "crews_df missing required column: 'Crew URL'"

  // ------------------------------------------------------------ links

  /** `_is_pirate_link`: the href names the profile script and a target. */
  predicate IsPirateLink(href: string) {
    Contains(href, PirateLinkMark) && Contains(href, TargetMark)
  }

  /** A profile href as the crew pages write it is a pirate link. */
  lemma ProfileHrefIsPirateLink(name: string)
    ensures IsPirateLink(PirateLinkMark + "?" + TargetMark + name)
  {
    var h := PirateLinkMark + "?" + TargetMark + name;
    assert h[0..|PirateLinkMark|] == PirateLinkMark;
    ContainsAt(h, 0, PirateLinkMark);
    var i := |PirateLinkMark| + 1;
    assert h[i..i + |TargetMark|] == TargetMark;
    ContainsAt(h, i, TargetMark);
  }

  /** Without the profile script's path an href is never a pirate link,
      whatever else it holds. */
  lemma NotPirateLinkWithoutMark(href: string)
    requires !Contains(href, PirateLinkMark)
    ensures !IsPirateLink(href)
  {
  }

  predicate HasScheme(u: string) {
    StartsWith(u, "http://") || StartsWith(u, "https://")
  }

  /** `_make_absolute`: an http(s) URL is kept, a rooted path is put under
      the site, anything else is put under the site's root. The href is
      always kept whole at the end, and the result always has a scheme. */
  function MakeAbsolute(href: string): (u: string)
    ensures HasScheme(u)
    ensures |href| <= |u| && u[|u| - |href|..] == href
    ensures HasScheme(href) <==> u == href
    ensures !HasScheme(href) && StartsWith(href, "/") ==> u == Site + href
    ensures !HasScheme(href) && !StartsWith(href, "/") ==> u == Site + "/" + href
  {
    if HasScheme(href) then href
    else
      assert (Site + href)[..8] == Site[..8];
      assert (Site + "/" + href)[..8] == Site[..8];
      if StartsWith(href, "/") then Site + href else Site + "/" + href
  }

  /** An absolute URL is a fixed point: making a result absolute again
      changes nothing. */
  lemma MakeAbsoluteIdempotent(href: string)
    ensures MakeAbsolute(MakeAbsolute(href)) == MakeAbsolute(href)
  {
  }

  /** `urlunsplit` of `urlsplit` with the fragment replaced by "": the URL
      up to its first '#'. */
  function DropFragment(u: string): (r: string)
    ensures |r| <= |u| && r == u[..|r|]
    ensures '#' !in r
    ensures '#' in u <==> |r| < |u|
    ensures |r| < |u| ==> u[|r|] == '#'
  {
    if '#' in u then u[..IndexOf(u, '#')] else u
  }

  /** Dropping the fragment twice is dropping it once. */
  lemma DropFragmentIdempotent(u: string)
    ensures DropFragment(DropFragment(u)) == DropFragment(u)
  {
  }

  /** The URL a profile link is recorded under. */
  function PirateUrlOf(href: string): (u: string)
    ensures HasScheme(u) && '#' !in u
  {
    DropFragmentKeepsScheme(MakeAbsolute(href));
    DropFragment(MakeAbsolute(href))
  }

  /** The scheme comes before any '#', so dropping the fragment keeps it. */
  lemma DropFragmentKeepsScheme(a: string)
    requires HasScheme(a)
    ensures HasScheme(DropFragment(a))
  {
    var u := DropFragment(a);
    var p := if StartsWith(a, "https://") then "https://" else "http://";
    assert a[..|p|] == p;
    assert forall k :: 0 <= k < |p| ==> a[k] == p[k] && a[k] != '#';
    assert |u| >= |p|;
    assert u[..|p|] == a[..|p|];
  }

  /** A link whose href has a scheme and no fragment is recorded as written. */
  lemma PirateUrlOfAbsolute(href: string)
    requires HasScheme(href) && '#' !in href
    ensures PirateUrlOf(href) == href
  {
  }

  // ------------------------------------------------------------ the page

  /** The nodes of `soup.body.descendants` the loop looks at: links with
      their `href` attribute (if any) and stripped text, images with their
      `src`, and everything else. */
  datatype Element = Anchor(href: Option<string>, text: string) | Image(src: Option<string>) | Other

  /** `el == jobbing_img`, where `jobbing_img` is the first image with the
      jobbing source: the first element equal to it is that image. */
  predicate IsMarker(el: Element) {
    el.Image? && el.src == Some(JobbingSrc)
  }

  /** A crew page: the stripped text of `font[size="+2"] > b` when that tag
      exists, and the body's elements when there is a body. */
  datatype CrewPage = CrewPage(heading: Option<string>, body: Option<seq<Element>>)

  /** A row of `pirate_urls_df`. */
  datatype LinkRow = LinkRow(pirateUrl: string, pirateName: string, crewName: string, crewUrl: string)

  /** `_get_crew_name`. */
  function CrewNameOf(page: CrewPage): string {
    page.heading.GetOr(UnknownCrew)
  }

  /** The row one element contributes when it is not cut off. */
  function LinkOf(el: Element, crewName: string, crewUrl: string): (r: seq<LinkRow>)
    ensures |r| <= 1
    ensures |r| == 1 <==> el.Anchor? && el.href.Some? && IsPirateLink(el.href.value)
  {
    match el
    case Anchor(Some(href), text) =>
      if IsPirateLink(href) then [LinkRow(PirateUrlOf(href), text, crewName, crewUrl)] else []
    case _ => []
  }

  /** The `for` loop over the descendants, with its `jobbing_reached` flag:
      the flag is set at the marker and never cleared, and no element seen
      while it is set contributes. */
  function CollectFrom(els: seq<Element>, reached: bool, crewName: string, crewUrl: string): seq<LinkRow>
    decreases |els|
  {
    if els == [] then []
    else
      var now := reached || IsMarker(els[0]);
      (if now then [] else LinkOf(els[0], crewName, crewUrl)) + CollectFrom(els[1..], now, crewName, crewUrl)
  }

  /** The elements before the first marker: all of them when there is none. */
  function BeforeMarker(els: seq<Element>): (pre: seq<Element>)
    ensures |pre| <= |els| && pre == els[..|pre|]
    ensures forall i :: 0 <= i < |pre| ==> !IsMarker(pre[i])
    ensures |pre| < |els| ==> IsMarker(els[|pre|])
    decreases |els|
  {
    if els == [] || IsMarker(els[0]) then []
    else
      var rest := BeforeMarker(els[1..]);
      assert ([els[0]] + rest)[1..] == rest;
      [els[0]] + rest
  }

  /** The pirate links of the elements, in order. */
  function Links(els: seq<Element>, crewName: string, crewUrl: string): seq<LinkRow>
    decreases |els|
  {
    if els == [] then [] else LinkOf(els[0], crewName, crewUrl) + Links(els[1..], crewName, crewUrl)
  }

  /** Once the flag is set nothing more is collected. */
  lemma {:induction false} CollectFromReached(els: seq<Element>, crewName: string, crewUrl: string)
    ensures CollectFrom(els, true, crewName, crewUrl) == []
    decreases |els|
  {
    if els != [] {
      CollectFromReached(els[1..], crewName, crewUrl);
    }
  }

  /** The loop collects exactly the pirate links that come before the first
      marker: the marker and everything after it contribute nothing. */
  lemma {:induction false} CollectCutoff(els: seq<Element>, crewName: string, crewUrl: string)
    ensures CollectFrom(els, false, crewName, crewUrl) == Links(BeforeMarker(els), crewName, crewUrl)
    decreases |els|
  {
    if els != [] {
      if IsMarker(els[0]) {
        CollectFromReached(els[1..], crewName, crewUrl);
      } else {
        CollectCutoff(els[1..], crewName, crewUrl);
        var rest := BeforeMarker(els[1..]);
        assert BeforeMarker(els) == [els[0]] + rest;
        assert ([els[0]] + rest)[1..] == rest;
      }
    }
  }

  /** Appending elements adds their links at the end. */
  lemma {:induction false} LinksAppend(a: seq<Element>, b: seq<Element>, crewName: string, crewUrl: string)
    ensures Links(a + b, crewName, crewUrl) == Links(a, crewName, crewUrl) + Links(b, crewName, crewUrl)
    decreases |a|
  {
    if a == [] {
      assert a + b == b;
    } else {
      var x := LinkOf(a[0], crewName, crewUrl);
      assert (a + b)[0] == a[0];
      assert (a + b)[1..] == a[1..] + b;
      LinksAppend(a[1..], b, crewName, crewUrl);
      var la, lb := Links(a[1..], crewName, crewUrl), Links(b, crewName, crewUrl);
      assert Links(a + b, crewName, crewUrl) == x + (la + lb);
      assert x + (la + lb) == (x + la) + lb;
    }
  }

  /** Every collected row carries the page's crew name and URL, its pirate
      URL has a scheme and no fragment, and it comes from a pirate link. */
  lemma {:induction false} LinksRows(els: seq<Element>, crewName: string, crewUrl: string)
    ensures forall r :: r in Links(els, crewName, crewUrl) ==>
      && r.crewName == crewName && r.crewUrl == crewUrl && HasScheme(r.pirateUrl) && '#' !in r.pirateUrl
      && exists i :: 0 <= i < |els| && els[i].Anchor? && els[i].href.Some? && IsPirateLink(els[i].href.value)
                     && r == LinkRow(PirateUrlOf(els[i].href.value), els[i].text, crewName, crewUrl)
    decreases |els|
  {
    if els != [] {
      LinksRows(els[1..], crewName, crewUrl);
      forall r | r in Links(els, crewName, crewUrl)
        ensures exists i :: 0 <= i < |els| && els[i].Anchor? && els[i].href.Some? && IsPirateLink(els[i].href.value)
                            && r == LinkRow(PirateUrlOf(els[i].href.value), els[i].text, crewName, crewUrl)
      {
        if r !in LinkOf(els[0], crewName, crewUrl) {
          var j :| 0 <= j < |els[1..]| && els[1..][j].Anchor? && els[1..][j].href.Some? && IsPirateLink(els[1..][j].href.value)
                   && r == LinkRow(PirateUrlOf(els[1..][j].href.value), els[1..][j].text, crewName, crewUrl);
          assert els[j + 1] == els[1..][j];
        }
      }
    }
  }

  // ------------------------------------------------------------ dedup

  /** The de-duplication key of a row. */
  function TripleKey(r: LinkRow): (string, string, string) {
    (r.pirateUrl, r.pirateName, r.crewName)
  }

  /** The `seen`-set loop: it keeps the first row of every key, in order,
      the same rows `DedupBy` keeps. */
  method DedupRows(rows: seq<LinkRow>) returns (deduped: seq<LinkRow>)
    ensures deduped == DedupBy(rows, TripleKey)
    ensures KeysDistinct(deduped, TripleKey)
    ensures IsSubsequence(deduped, rows)
    ensures KeysOf(deduped, TripleKey) == KeysOf(rows, TripleKey)
    ensures FirstOccurrences(deduped, rows, TripleKey)
  {
    var seen: set<(string, string, string)> := {};
    deduped := [];
    var i := 0;
    while i < |rows|
      invariant 0 <= i <= |rows|
      invariant deduped == DedupBy(rows[..i], TripleKey)
      invariant seen == KeysOf(rows[..i], TripleKey)
    {
      var key := TripleKey(rows[i]);
      assert rows[..i + 1][..i] == rows[..i];
      assert rows[..i + 1][i] == rows[i];
      assert KeysOf(rows[..i + 1], TripleKey) == KeysOf(rows[..i], TripleKey) + {key};
      if key !in seen {
        seen := seen + {key};
        deduped := deduped + [rows[i]];
      }
      i := i + 1;
    }
    assert rows[..i] == rows;
    DedupByFirstOccurrences(rows, TripleKey);
    DedupByInOrder(rows, TripleKey);
  }

  // ------------------------------------------------------------ one crew

  /** What `_scrape_one_crew` returns: the crew name and the rows. */
  datatype CrewScrape = CrewScrape(crewName: string, rows: seq<LinkRow>)

  /** `_scrape_one_crew` after a 200 response. */
  function ScrapeCrew(crewUrl: string, page: CrewPage): (s: CrewScrape)
    ensures s.crewName == CrewNameOf(page)
    ensures KeysDistinct(s.rows, TripleKey)
  {
    var name := CrewNameOf(page);
    var els := if page.body.Some? then page.body.value else [];
    var collected := CollectFrom(els, false, name, crewUrl);
    DedupByFirstOccurrences(collected, TripleKey);
    CrewScrape(name, DedupBy(collected, TripleKey))
  }

  /** The rows of one crew page: the first occurrences, in order, of the
      pirate links before the jobbing marker; every row carries the page's
      crew name (or "Unknown") and the input URL, and its pirate URL is
      absolute with no fragment. */
  lemma ScrapeCrewRows(crewUrl: string, page: CrewPage)
    ensures var els := if page.body.Some? then page.body.value else [];
      var links := Links(BeforeMarker(els), CrewNameOf(page), crewUrl);
      && IsSubsequence(ScrapeCrew(crewUrl, page).rows, links)
      && KeysOf(ScrapeCrew(crewUrl, page).rows, TripleKey) == KeysOf(links, TripleKey)
      && FirstOccurrences(ScrapeCrew(crewUrl, page).rows, links, TripleKey)
    ensures forall r :: r in ScrapeCrew(crewUrl, page).rows ==>
      && r.crewName == CrewNameOf(page) && r.crewUrl == crewUrl
      && HasScheme(r.pirateUrl) && '#' !in r.pirateUrl
  {
    var name := CrewNameOf(page);
    var els := if page.body.Some? then page.body.value else [];
    CollectCutoff(els, name, crewUrl);
    var links := Links(BeforeMarker(els), name, crewUrl);
    LinksRows(BeforeMarker(els), name, crewUrl);
    DedupByInOrder(links, TripleKey);
    SubsequenceMembers(ScrapeCrew(crewUrl, page).rows, links);
  }

  /** A page without a body yields no rows, whatever its heading. */
  lemma ScrapeCrewNoBody(crewUrl: string, page: CrewPage)
    requires page.body.None?
    ensures ScrapeCrew(crewUrl, page).rows == []
  {
  }

  // ------------------------------------------------------------ the stage

  function CrewAttempt(fetch: string -> Fetched<CrewPage>): string -> Outcome<LinkRow> {
    url => Attempt(fetch(url), (page: CrewPage) => Success(ScrapeCrew(url, page).rows))
  }

  /** The `run` of the member-link stage. */
  function RunPirateUrls(input: Table, fetch: string -> Fetched<CrewPage>): (res: Result<StageRun<LinkRow>, StageError>)
    ensures res.Err? <==> CrewUrl !in input.columns
    ensures res.Err? ==> res.error == MissingColumn(MissingCrewUrl)
  {
    RunKeyedStage(input, CrewUrl, MissingCrewUrl, CrewAttempt(fetch))
  }

  /** Every prepared crew URL is counted once, as a success or as a failure
      (a crew contributes any number of rows); every row's crew URL and every
      failure's key is a prepared URL. */
  lemma RunPirateUrlsAccounting(input: Table, fetch: string -> Fetched<CrewPage>)
    requires CrewUrl in input.columns
    ensures var run := RunPirateUrls(input, fetch).value;
            var keys := PrepareKeys(ColumnValues(input, CrewUrl));
            && run.succeeded + |run.failures| == |keys|
            && (forall r :: r in run.rows ==> r.crewUrl in keys)
            && (forall f :: f in run.failures ==> f.key in keys)
  {
    var keys := PrepareKeys(ColumnValues(input, CrewUrl));
    var attempt := CrewAttempt(fetch);
    RunRecords(keys, attempt);
    var run := Run(keys, attempt);
    forall r: LinkRow | r in run.rows
      ensures r.crewUrl in keys
    {
      var k :| k in keys && attempt(k).Success? && r in attempt(k).rows;
      CrewAttemptRows(fetch, k);
    }
  }

  /** A crew URL that succeeds yields rows that all carry it. */
  lemma CrewAttemptRows(fetch: string -> Fetched<CrewPage>, k: string)
    requires CrewAttempt(fetch)(k).Success?
    ensures forall r :: r in CrewAttempt(fetch)(k).rows ==> r.crewUrl == k
  {
    assert fetch(k).Response?;
    ScrapeCrewRows(k, fetch(k).page);
  }

  const LinkColumns: seq<Column> := [PirateUrl, PirateName, CrewName, CrewUrl]

  /** `pirate_urls_df`: one row per link row, in the stage's column order. */
  function PirateUrlsTable(rows: seq<LinkRow>): (t: Table)
    ensures t.columns == LinkColumns && |t.rows| == |rows|
    ensures WellFormed(t)
    ensures forall i :: 0 <= i < |rows| ==>
      && t.rows[i][PirateUrl] == rows[i].pirateUrl && t.rows[i][PirateName] == rows[i].pirateName
      && t.rows[i][CrewName] == rows[i].crewName && t.rows[i][CrewUrl] == rows[i].crewUrl
  {
    Table(LinkColumns, seq(|rows|, i requires 0 <= i < |rows| =>
      map[PirateUrl := rows[i].pirateUrl, PirateName := rows[i].pirateName,
          CrewName := rows[i].crewName, CrewUrl := rows[i].crewUrl]))
  }
}
