/** The pirates stage (scraper/pirates.py): for every pirate URL, read the
    profile page's name, crew and flag affiliation and the 22 skill
    standings into one record. The page arrives already reduced to the
    parts the scraper looks at (`ProfilePage`). */
module Pirates {
  import opened Base
  import opened Text
  import opened Tables
  import opened Stages
  import opened Html
  import opened Seqs

  /** `ALL_SKILLS`: the fixed skill vocabulary, in column order. */
  const AllSkills: seq<string> := [
    "Sailing", "Rigging", "Carpentry", "Patching", "Bilging", "Gunning", "Treasure Haul", "Navigating",
    "Battle Navigation", "Swordfighting", "Rumble", "Drinking", "Spades", "Hearts", "Treasure Drop",
    "Poker", "Distilling", "Alchemistry", "Shipwrightery", "Blacksmithing", "Foraging", "Weaving"
  ]

  function NameSet(names: seq<string>): set<string> {
    set s | s in names
  }

  function SkillSet(): set<string> {
    NameSet(AllSkills)
  }

  /** The columns of the pirates table: six identity columns, then the skills. */
  const BaseColumns: seq<Column> := [PirateUrl, PirateName, CrewRank, CrewName, FlagRole, FlagName]

  /** One column per skill name, in order. */
  function SkillColumns(names: seq<string>): (cs: seq<Column>)
    ensures |cs| == |names|
    ensures forall i :: 0 <= i < |cs| ==> cs[i] == Skill(names[i])
  {
    seq(|names|, i requires 0 <= i < |names| => Skill(names[i]))
  }

  function PirateColumns(): seq<Column> {
    BaseColumns + SkillColumns(AllSkills)
  }

  // ---------------------------------------------------------------- skills

  /** `parse_skills`: the first two `/`-separated fields, each stripped,
      printed as "<experience> / <standing>"; "" when both are blank. */
  function ParseSkills(s: string): (r: string)
    ensures r == "" || (|r| >= 3 && '/' in r)
  {
    var parts := Split(s, '/');
    var exp := Strip(parts[0]);
    var standing := if |parts| > 1 then Strip(parts[1]) else "";
    if exp != "" || standing != "" then
      assert (exp + " / " + standing)[|exp| + 1] == '/';
      exp + " / " + standing
    else ""
  }

  /** With two or more fields, only the first two count: each is stripped,
      and everything after a second `/` is dropped. */
  lemma ParseSkillsFields(a: string, b: string, rest: seq<string>)
    requires '/' !in a && '/' !in b
    requires forall k :: 0 <= k < |rest| ==> '/' !in rest[k]
    ensures ParseSkills(Join([a, b] + rest, "/"))
         == if Strip(a) == "" && Strip(b) == "" then "" else Strip(a) + " / " + Strip(b)
  {
    var parts := [a, b] + rest;
    forall k | 0 <= k < |parts|
      ensures '/' !in parts[k]
    {
      if k >= 2 {
        assert parts[k] == rest[k - 2];
      }
    }
    SplitJoin(parts, '/');
  }

  /** A field without `/` is all experience: the standing is empty and the
      separator keeps its trailing space ("5" gives "5 / "). */
  lemma ParseSkillsSingle(a: string)
    requires '/' !in a
    ensures ParseSkills(a) == if Strip(a) == "" then "" else Strip(a) + " / "
  {
    SplitJoin([a], '/');
  }

  /** A formatted field parses back to itself. */
  lemma ParseSkillsFormatted(exp: string, standing: string)
    requires '/' !in exp && '/' !in standing
    requires exp == [] || (!IsSpace(exp[0]) && !IsSpace(exp[|exp| - 1]))
    requires standing == [] || (!IsSpace(standing[0]) && !IsSpace(standing[|standing| - 1]))
    requires exp != "" || standing != ""
    ensures ParseSkills(exp + " / " + standing) == exp + " / " + standing
  {
    var a := exp + " ";
    var b := " " + standing;
    assert Join([a, b], "/") == exp + " / " + standing;
    SplitJoin([a, b], '/');
    StripPadded(exp);
    StripPadded(standing);
  }

  /** `parse_skills` is idempotent: its output parses back to itself. */
  lemma ParseSkillsIdempotent(s: string)
    ensures ParseSkills(ParseSkills(s)) == ParseSkills(s)
  {
    var parts := Split(s, '/');
    var exp := Strip(parts[0]);
    var standing := if |parts| > 1 then Strip(parts[1]) else "";
    if exp != "" || standing != "" {
      StripKeeps(parts[0]);
      if |parts| > 1 {
        StripKeeps(parts[1]);
      }
      ParseSkillsFormatted(exp, standing);
    }
  }

  /** `parse_skills("5")` keeps the trailing space of the separator. */
  lemma ParseSkillsExampleSingle()
    ensures ParseSkills("5") == "5 / "
  {
    ParseSkillsSingle("5");
    assert Strip("5") == "5";
  }

  /** Two blank fields give "". */
  lemma ParseSkillsExampleBlank()
    ensures ParseSkills(" / ") == ""
  {
    assert " / " == Join([" ", " "], "/");
    ParseSkillsFields(" ", " ", []);
    assert Strip(" ") == "" by {
      assert " "[1..] == "";
    }
  }

  /** A skill icon: its `alt` text and the text of the next cell after the
      icon's own cell, when the icon has an enclosing cell with a next
      sibling cell. */
  datatype SkillIcon = SkillIcon(alt: string, valueCell: Option<string>)

  /** The icon writes skill `k`. */
  predicate Writes(icon: SkillIcon, k: string) {
    Strip(icon.alt) == k && icon.valueCell.Some?
  }

  /** The skills dictionary after the icon loop over a vocabulary: every
      skill present, "" by default, written by each icon whose stripped alt
      names it. */
  function SkillMapOver(icons: seq<SkillIcon>, vocabulary: set<string>, parse: string -> string): (m: map<string, string>)
    ensures m.Keys == vocabulary
    decreases |icons|
  {
    if icons == [] then map k | k in vocabulary :: ""
    else
      var n := |icons| - 1;
      var m := SkillMapOver(icons[..n], vocabulary, parse);
      var icon := icons[n];
      var skill := Strip(icon.alt);
      if skill in m && icon.valueCell.Some? then m[skill := parse(icon.valueCell.value)] else m
  }

  /** `skills` in `_scrape_one`, over `ALL_SKILLS`. */
  function SkillMap(icons: seq<SkillIcon>): (m: map<string, string>)
    ensures m.Keys == SkillSet()
  {
    SkillMapOver(icons, SkillSet(), ParseSkills)
  }

  /** A skill no icon writes keeps "". */
  lemma {:induction false} SkillMapUnwritten(icons: seq<SkillIcon>, vocabulary: set<string>, parse: string -> string, k: string)
    requires k in vocabulary
    requires forall j :: 0 <= j < |icons| ==> !Writes(icons[j], k)
    ensures SkillMapOver(icons, vocabulary, parse)[k] == ""
    decreases |icons|
  {
    if icons != [] {
      SkillMapUnwritten(icons[..|icons| - 1], vocabulary, parse, k);
    }
  }

  /** A skill's value comes from the last icon that writes it: later icons
      overwrite earlier ones. */
  lemma {:induction false} SkillMapLastWriter(icons: seq<SkillIcon>, vocabulary: set<string>, parse: string -> string, k: string, i: nat)
    requires k in vocabulary
    requires i < |icons| && Writes(icons[i], k)
    requires forall j :: i < j < |icons| ==> !Writes(icons[j], k)
    ensures SkillMapOver(icons, vocabulary, parse)[k] == parse(icons[i].valueCell.value)
    decreases |icons|
  {
    var n := |icons| - 1;
    var prev := SkillMapOver(icons[..n], vocabulary, parse);
    if i < n {
      assert forall j :: i < j < n ==> icons[..n][j] == icons[j];
      SkillMapLastWriter(icons[..n], vocabulary, parse, k, i);
      assert !Writes(icons[n], k);
      assert SkillMapOver(icons, vocabulary, parse)[k] == prev[k];
    }
  }

  /** An icon whose alt is not a skill name changes nothing. */
  lemma {:induction false} SkillMapIgnores(icons: seq<SkillIcon>, vocabulary: set<string>, parse: string -> string, icon: SkillIcon)
    requires Strip(icon.alt) !in vocabulary
    ensures SkillMapOver(icons + [icon], vocabulary, parse) == SkillMapOver(icons, vocabulary, parse)
  {
    assert (icons + [icon])[..|icons|] == icons;
  }

  // ------------------------------------------------------ crew and flag

  const CrewPhrase := "of the crew"
  const FlagPhrase := "of the flag"

  /** The end of the run of word characters (`\w`) starting at `p`. */
  function WordEnd(s: string, p: nat): (e: nat)
    requires p <= |s|
    ensures p <= e <= |s|
    ensures forall k :: p <= k < e ==> IsWordChar(s[k])
    ensures e == |s| || !IsWordChar(s[e])
    decreases |s| - p
  {
    if p < |s| && IsWordChar(s[p]) then WordEnd(s, p + 1) else p
  }

  /** The end of the run of whitespace (`\s`) starting at `p`. */
  function SpaceEnd(s: string, p: nat): (e: nat)
    requires p <= |s|
    ensures p <= e <= |s|
    ensures forall k :: p <= k < e ==> IsSpace(s[k])
    ensures e == |s| || !IsSpace(s[e])
    decreases |s| - p
  {
    if p < |s| && IsSpace(s[p]) then SpaceEnd(s, p + 1) else p
  }

  /** A run of `n` word characters that stops at `p + n` is exactly what
      `WordEnd` takes. */
  lemma {:induction false} WordEndAt(s: string, p: nat, n: nat)
    requires p + n <= |s|
    requires forall k :: p <= k < p + n ==> IsWordChar(s[k])
    requires p + n == |s| || !IsWordChar(s[p + n])
    ensures WordEnd(s, p) == p + n
    decreases n
  {
    if n > 0 {
      WordEndAt(s, p + 1, n - 1);
    }
  }

  /** A run of `n` whitespace characters that stops at `p + n` is exactly
      what `SpaceEnd` skips. */
  lemma {:induction false} SpaceEndAt(s: string, p: nat, n: nat)
    requires p + n <= |s|
    requires forall k :: p <= k < p + n ==> IsSpace(s[k])
    requires p + n == |s| || !IsSpace(s[p + n])
    ensures SpaceEnd(s, p) == p + n
    decreases n
  {
    if n > 0 {
      SpaceEndAt(s, p + 1, n - 1);
    }
  }

  /** `\s+(.+)` matches from `q`: one or more whitespace characters, then at
      least one character other than a newline. */
  predicate RestOk(s: string, q: nat)
    decreases |s| - q
  {
    q + 1 < |s| && IsSpace(s[q]) && (s[q + 1] != '\n' || RestOk(s, q + 1))
  }

  /** `(\w+)\s+<phrase>\s+(.+)` under `re.IGNORECASE` matches at `p`. Since
      the phrase opens with a letter, `\w+` must take the whole word run and
      `\s+` the whole space run after it. */
  predicate MatchAt(s: string, phrase: string, p: nat) {
    && p < |s|
    && IsWordChar(s[p])
    && var we := WordEnd(s, p);
       var q := SpaceEnd(s, we);
       q > we && MatchesAtCI(s, q, phrase) && RestOk(s, q + |phrase|)
  }

  /** `re.search`: the leftmost position at or after `from` where the pattern matches. */
  function Search(s: string, phrase: string, from: nat): (r: Option<nat>)
    ensures r.Some? ==> from <= r.value < |s| && MatchAt(s, phrase, r.value)
    ensures r.Some? ==> forall p :: from <= p < r.value ==> !MatchAt(s, phrase, p)
    ensures r.None? ==> forall p :: from <= p ==> !MatchAt(s, phrase, p)
  {
    var ok := (p: nat) => MatchAt(s, phrase, p);
    assert forall p: nat :: ok(p) == MatchAt(s, phrase, p);
    LeastFrom(|s|, ok, from)
  }

  /** The matched group 1 is a whole word: the search never starts inside a
      word, because a match there extends to the word's start. */
  lemma MatchedWordIsWhole(s: string, phrase: string)
    requires Search(s, phrase, 0).Some?
    ensures var p := Search(s, phrase, 0).value; p == 0 || !IsWordChar(s[p - 1])
  {
    var p := Search(s, phrase, 0).value;
    if p > 0 && IsWordChar(s[p - 1]) {
      WordEndStep(s, p - 1);
      assert MatchAt(s, phrase, p - 1);
    }
  }

  lemma WordEndStep(s: string, p: nat)
    requires p < |s| && IsWordChar(s[p])
    ensures WordEnd(s, p) == WordEnd(s, p + 1)
  {
  }

  /** A match contains the phrase, so the `in text.lower()` guard before the
      search never changes the outcome. */
  lemma MatchImpliesGuard(s: string, phrase: string, p: nat)
    requires LowerStr(phrase) == phrase
    requires MatchAt(s, phrase, p)
    ensures Contains(LowerStr(s), phrase)
  {
    var q := SpaceEnd(s, WordEnd(s, p));
    var l := LowerStr(s);
    assert l[q..q + |phrase|] == LowerStr(s[q..q + |phrase|]);
    ContainsAt(l, q, phrase);
  }

  /** A row of the first table of the left column: its text
      (`get_text(" ", strip=True)`) and the text nodes of its first link, if
      it has one. Each stage joins the link's nodes its own way. */
  datatype PanelRow = PanelRow(text: string, link: Option<Strings>)

  /** `_safe_text(a)`: the link's text with no separator between its nodes
      (`get_text(strip=True)`), or "" when the row has no link. */
  function SafeText(a: Option<Strings>): (t: string)
    ensures a.None? ==> t == ""
    ensures a.Some? ==> t == Join(StrippedStrings(a.value), "")
  {
    match a
    case None => ""
    case Some(strs) => GetText(strs, "")
  }

  /** The rank word the row yields for `phrase`: guarded by the lowercase
      containment test, then the leftmost match's group 1. */
  function RowRole(row: PanelRow, phrase: string): (r: Option<string>)
    requires LowerStr(phrase) == phrase
    ensures r.Some? <==> exists p :: MatchAt(row.text, phrase, p)
    ensures r.Some? ==> |r.value| > 0 && forall k :: 0 <= k < |r.value| ==> IsWordChar(r.value[k])
  {
    if Contains(LowerStr(row.text), phrase) then
      match Search(row.text, phrase, 0)
      case Some(p) => Some(row.text[p..WordEnd(row.text, p)])
      case None => None
    else
      NoGuardNoMatch(row.text, phrase);
      None
  }

  /** The leftmost match decides the rank: its whole word is the value. */
  lemma RowRoleAt(row: PanelRow, phrase: string, p: nat)
    requires LowerStr(phrase) == phrase
    requires MatchAt(row.text, phrase, p)
    requires forall q :: 0 <= q < p ==> !MatchAt(row.text, phrase, q)
    ensures RowRole(row, phrase) == Some(row.text[p..WordEnd(row.text, p)])
  {
    MatchImpliesGuard(row.text, phrase, p);
    var found := Search(row.text, phrase, 0);
    assert found.Some?;
    assert found.value == p;
  }

  /** Whenever the row yields a rank, it is the word of the leftmost match. */
  lemma RowRoleValue(row: PanelRow, phrase: string)
    requires LowerStr(phrase) == phrase
    ensures RowRole(row, phrase).Some? ==> exists p: nat ::
      && MatchAt(row.text, phrase, p)
      && (forall q :: 0 <= q < p ==> !MatchAt(row.text, phrase, q))
      && RowRole(row, phrase).value == row.text[p..WordEnd(row.text, p)]
  {
    if RowRole(row, phrase).Some? {
      var p := Search(row.text, phrase, 0).value;
      RowRoleAt(row, phrase, p);
    }
  }

  /** A row reading `<word> <phrase> <rest>`, after any run of non-word
      characters, yields that word. */
  lemma RowRoleOfWord(u: string, w: string, phrase: string, x: string, link: Option<Strings>)
    requires LowerStr(phrase) == phrase && phrase != [] && !IsSpace(phrase[0])
    requires forall k :: 0 <= k < |u| ==> !IsWordChar(u[k])
    requires w != [] && forall k :: 0 <= k < |w| ==> IsWordChar(w[k])
    requires x != [] && x[0] != '\n'
    ensures RowRole(PanelRow(u + w + " " + phrase + " " + x, link), phrase) == Some(w)
  {
    var s := u + w + " " + phrase + " " + x;
    SentenceParts(s, u, w, phrase, x);
    WordMatchFacts(s, |u|, w, phrase);
    RowRoleAt(PanelRow(s, link), phrase, |u|);
  }

  /** Where each part of `u + w + " " + phrase + " " + x` sits. */
  lemma SentenceParts(s: string, u: string, w: string, phrase: string, x: string)
    requires s == u + w + " " + phrase + " " + x
    ensures |s| == |u| + |w| + |phrase| + 2 + |x|
    ensures s[..|u|] == u && s[|u|..|u| + |w|] == w && s[|u| + |w|] == ' '
    ensures s[|u| + |w| + 1..|u| + |w| + 1 + |phrase|] == phrase
    ensures s[|u| + |w| + 1 + |phrase|] == ' ' && s[|u| + |w| + 2 + |phrase|..] == x
  {
    assert s == u + (w + (" " + (phrase + (" " + x))));
  }

  /** The match at `p` takes the word `w` there, and no match starts before
      `p` when no word character does. */
  lemma WordMatchFacts(s: string, p: nat, w: string, phrase: string)
    requires LowerStr(phrase) == phrase && phrase != [] && !IsSpace(phrase[0])
    requires w != [] && forall k :: 0 <= k < |w| ==> IsWordChar(w[k])
    requires p + |w| + |phrase| + 2 < |s| && s[p..p + |w|] == w && s[p + |w|] == ' '
    requires forall k :: 0 <= k < p ==> !IsWordChar(s[k])
    requires s[p + |w| + 1..p + |w| + 1 + |phrase|] == phrase
    requires s[p + |w| + 1 + |phrase|] == ' ' && s[p + |w| + 2 + |phrase|] != '\n'
    ensures MatchAt(s, phrase, p) && s[p..WordEnd(s, p)] == w
    ensures forall q :: 0 <= q < p ==> !MatchAt(s, phrase, q)
  {
    assert forall k :: p <= k < p + |w| ==> IsWordChar(s[k]) by {
      assert forall k :: p <= k < p + |w| ==> s[k] == s[p..p + |w|][k - p];
    }
    MatchAtParts(s, p, |w|, phrase);
  }

  /** `MatchAt` from its parts: a word of `n` characters at `p`, one space,
      the phrase, one space and a character that is not a newline. */
  lemma MatchAtParts(s: string, p: nat, n: nat, phrase: string)
    requires LowerStr(phrase) == phrase && phrase != [] && !IsSpace(phrase[0])
    requires n > 0 && p + n + |phrase| + 2 < |s|
    requires forall k :: p <= k < p + n ==> IsWordChar(s[k])
    requires s[p + n] == ' ' && s[p + n + 1..p + n + 1 + |phrase|] == phrase
    requires s[p + n + 1 + |phrase|] == ' ' && s[p + n + 2 + |phrase|] != '\n'
    ensures MatchAt(s, phrase, p) && WordEnd(s, p) == p + n
  {
    var q := p + n + 1;
    assert s[q] == phrase[0];
    WordEndAt(s, p, n);
    SpaceEndAt(s, p + n, 1);
    assert RestOk(s, q + |phrase|);
  }

  /** The panel line "Captain of the crew Foo" gives the crew rank
      "Captain". */
  lemma RowRoleCaptainExample()
    ensures RowRole(PanelRow("Captain of the crew Foo", None), CrewPhrase) == Some("Captain")
  {
    var text := "" + "Captain" + " " + CrewPhrase + " " + "Foo";
    assert text == "Captain of the crew Foo";
    assert LowerStr(CrewPhrase) == CrewPhrase;
    RowRoleOfWord("", "Captain", CrewPhrase, "Foo", None);
  }

  lemma NoGuardNoMatch(s: string, phrase: string)
    requires LowerStr(phrase) == phrase
    requires !Contains(LowerStr(s), phrase)
    ensures forall p :: !MatchAt(s, phrase, p)
  {
    forall p | MatchAt(s, phrase, p)
      ensures false
    {
      MatchImpliesGuard(s, phrase, p);
    }
  }

  /** A rank and the name beside it, "" when unset. */
  datatype Role = Role(rank: string, name: string)

  /** What a row sets the crew (or flag) fields to: its rank and its link
      text, when it matches. */
  function RowPick(phrase: string): PanelRow -> Option<Role>
    requires LowerStr(phrase) == phrase
  {
    row =>
      match RowRole(row, phrase)
      case Some(rank) => Some(Role(rank, SafeText(row.link)))
      case None => None
  }

  /** The crew (or flag) fields after the row loop: each matching row sets the
      rank and the row's link text, with no `break`. */
  function LastRole(rows: seq<PanelRow>, phrase: string): Role
    requires LowerStr(phrase) == phrase
  {
    LastSome(rows, RowPick(phrase)).GetOr(Role("", ""))
  }

  /** No matching row leaves both fields "". */
  lemma LastRoleNone(rows: seq<PanelRow>, phrase: string)
    requires LowerStr(phrase) == phrase
    requires forall j :: 0 <= j < |rows| ==> RowRole(rows[j], phrase).None?
    ensures LastRole(rows, phrase) == Role("", "")
  {
    LastSomeNone(rows, RowPick(phrase));
  }

  /** The last matching row decides both the rank and the name. */
  lemma LastRoleLastMatch(rows: seq<PanelRow>, phrase: string, i: nat)
    requires LowerStr(phrase) == phrase
    requires i < |rows| && RowRole(rows[i], phrase).Some?
    requires forall j :: i < j < |rows| ==> RowRole(rows[j], phrase).None?
    ensures LastRole(rows, phrase) == Role(RowRole(rows[i], phrase).value, SafeText(rows[i].link))
  {
    LastSomeAt(rows, RowPick(phrase), i);
  }

  // ---------------------------------------------------------------- page

  /** A table inside the left column, as its rows. */
  datatype PanelTable = PanelTable(rows: seq<PanelRow>)

  /** What `_scrape_one` reads from a profile page: the stripped text of the
      `<font size="+1">` and `<title>` tags when present, the tables of the
      `<td width="190">` left column when present, and every `<img>` with an
      `alt`, in document order. */
  datatype ProfilePage = ProfilePage(
    nameFont: Option<string>,
    title: Option<string>,
    leftColumn: Option<seq<PanelTable>>,
    icons: seq<SkillIcon>)

  /** The pirate name: the `+1` font's text, falling back to the title only
      when that is missing or empty. */
  function ProfileName(page: ProfilePage): (name: string)
    ensures page.nameFont.Some? && page.nameFont.value != "" ==> name == page.nameFont.value
    ensures (page.nameFont.None? || page.nameFont.value == "") ==> name == page.title.GetOr("")
  {
    var fromFont := page.nameFont.GetOr("");
    if fromFont != "" then fromFont else page.title.GetOr("")
  }

  /** The rows the role scan looks at: those of the left column's first table. */
  function PanelRows(page: ProfilePage): seq<PanelRow> {
    match page.leftColumn
    case Some(tables) => if |tables| > 0 then tables[0].rows else []
    case None => []
  }

  datatype PirateRecord = PirateRecord(
    url: string,
    name: string,
    crew: Role,
    flag: Role,
    skills: map<string, string>)

  /** `_scrape_one` after a 200 response. */
  function ScrapePirate(url: string, page: ProfilePage): (r: PirateRecord)
    ensures r.url == url
    ensures r.skills.Keys == SkillSet()
  {
    var rows := PanelRows(page);
    PirateRecord(url, ProfileName(page), LastRole(rows, CrewPhrase), LastRole(rows, FlagPhrase), SkillMap(page.icons))
  }

  /** A page without a left column (or with no table in it) gives empty crew
      and flag fields. */
  lemma ScrapePirateNoPanel(url: string, page: ProfilePage)
    requires page.leftColumn.None? || page.leftColumn.value == []
    ensures ScrapePirate(url, page).crew == Role("", "")
    ensures ScrapePirate(url, page).flag == Role("", "")
  {
  }

  /** The skill cells of a row: one per skill. */
  function SkillCells(skills: map<string, string>): (cells: Row)
    ensures cells.Keys == set k | k in skills :: Skill(k)
  {
    map k | k in skills :: Skill(k) := skills[k]
  }

  lemma SkillColumnSet(names: seq<string>)
    ensures ColumnSet(SkillColumns(names)) == set k | k in NameSet(names) :: Skill(k)
  {
    var cs := SkillColumns(names);
    forall k | k in NameSet(names)
      ensures Skill(k) in ColumnSet(cs)
    {
      var i :| 0 <= i < |names| && names[i] == k;
      assert cs[i] == Skill(k);
    }
  }

  /** The six identity cells of a record's row. */
  function IdentityCells(r: PirateRecord): Row {
    map[PirateUrl := r.url, PirateName := r.name, CrewRank := r.crew.rank,
        CrewName := r.crew.name, FlagRole := r.flag.rank, FlagName := r.flag.name]
  }

  /** The record as a row of `pirates_df`: the identity cells and one cell
      per skill. */
  function PirateRow(r: PirateRecord): Row {
    SkillCells(r.skills) + IdentityCells(r)
  }

  /** The six identity cells hold the record's URL, name, crew and flag fields. */
  lemma PirateRowIdentity(r: PirateRecord)
    ensures var row := PirateRow(r);
      && row[PirateUrl] == r.url && row[PirateName] == r.name
      && row[CrewRank] == r.crew.rank && row[CrewName] == r.crew.name
      && row[FlagRole] == r.flag.rank && row[FlagName] == r.flag.name
  {
  }

  /** Each skill's cell holds the record's value for that skill. */
  lemma PirateRowSkill(r: PirateRecord, k: string)
    requires k in r.skills
    ensures Skill(k) in PirateRow(r) && PirateRow(r)[Skill(k)] == r.skills[k]
  {
    assert Skill(k) !in IdentityCells(r);
  }

  /** A record with the full skill map has exactly the pirates table's columns. */
  lemma PirateRowColumns(r: PirateRecord)
    requires r.skills.Keys == SkillSet()
    ensures PirateRow(r).Keys == ColumnSet(PirateColumns())
  {
    ColumnSetConcat(BaseColumns, SkillColumns(AllSkills));
    SkillColumnSet(AllSkills);
    assert IdentityCells(r).Keys == ColumnSet(BaseColumns);
  }

  const MissingPirateUrl := "pirate_urls_df missing required column: 'Pirate URL'"

  /** One key's attempt: fetch, check the status, read the page. */
  function PirateAttempt(fetch: string -> Fetched<ProfilePage>): string -> Outcome<PirateRecord> {
    url => Attempt(fetch(url), (page: ProfilePage) => Success([ScrapePirate(url, page)]))
  }

  /** The `run` of the pirates stage. */
  function RunPirates(input: Table, fetch: string -> Fetched<ProfilePage>): (res: Result<StageRun<PirateRecord>, StageError>)
    ensures res.Err? <==> PirateUrl !in input.columns
    ensures res.Err? ==> res.error == MissingColumn(MissingPirateUrl)
  {
    RunKeyedStage(input, PirateUrl, MissingPirateUrl, PirateAttempt(fetch))
  }

  /** Every prepared URL yields exactly one pirate row or one failure row;
      every row's URL and every failure's key is a prepared URL. */
  lemma RunPiratesAccounting(input: Table, fetch: string -> Fetched<ProfilePage>)
    requires PirateUrl in input.columns
    ensures var run := RunPirates(input, fetch).value;
            var keys := PrepareKeys(ColumnValues(input, PirateUrl));
            && |run.rows| + |run.failures| == |keys|
            && (forall r :: r in run.rows ==> r.url in keys && r.skills.Keys == SkillSet())
            && (forall f :: f in run.failures ==> f.key in keys)
  {
    var keys := PrepareKeys(ColumnValues(input, PirateUrl));
    var attempt := PirateAttempt(fetch);
    var good := (r: PirateRecord) => r.url in keys && r.skills.Keys == SkillSet();
    forall k | k in keys && attempt(k).Success?
      ensures |attempt(k).rows| == 1 && forall r :: r in attempt(k).rows ==> good(r)
    {
      PirateAttemptRows(fetch, k);
    }
    RunOneRowEach(keys, attempt);
    RunRecords(keys, attempt);
    RunRowsHold(keys, attempt, good);
  }

  /** A successful attempt on a URL gives one row, for that URL. */
  lemma PirateAttemptRows(fetch: string -> Fetched<ProfilePage>, url: string)
    ensures var o := PirateAttempt(fetch)(url);
            o.Success? ==> |o.rows| == 1 && forall r :: r in o.rows ==> r.url == url && r.skills.Keys == SkillSet()
  {
    var f := fetch(url);
    if f.Response? && f.status == 200 {
      assert PirateAttempt(fetch)(url) == Success([ScrapePirate(url, f.page)]);
    }
  }

  /** `pirates_df`: one row per record, in the pirates table's column order. */
  function PiratesTable(records: seq<PirateRecord>): (t: Table)
    requires forall i :: 0 <= i < |records| ==> records[i].skills.Keys == SkillSet()
    ensures t.columns == PirateColumns() && |t.rows| == |records|
    ensures WellFormed(t)
  {
    PirateRowsColumns(records);
    Table(PirateColumns(), seq(|records|, i requires 0 <= i < |records| => PirateRow(records[i])))
  }

  lemma PirateRowsColumns(records: seq<PirateRecord>)
    requires forall i :: 0 <= i < |records| ==> records[i].skills.Keys == SkillSet()
    ensures forall i :: 0 <= i < |records| ==> PirateRow(records[i]).Keys == ColumnSet(PirateColumns())
  {
    forall i | 0 <= i < |records|
      ensures PirateRow(records[i]).Keys == ColumnSet(PirateColumns())
    {
      PirateRowColumns(records[i]);
    }
  }
}
