/** The shoppes stage (scraper/shoppes.py): for every pirate URL, list the
    shoppes and stalls the pirate owns or manages. A shoppe is a row of the
    left column whose first cell holds a shop icon and whose second cell
    reads "Name on Location, Name on Location, ..."; a stall is an icon in
    the paragraph after the "Stalls" heading, titled "Name on Location".
    The icon's file name says the shop type and whether it is managed. */
module Shoppes {
  import opened Base
  import opened Text
  import opened Tables
  import opened Stages
  import opened Pirates
  import opened Seqs
  import opened Html

  // ------------------------------------------------------------ shop type

  /** `SHOP_TYPE_CANON`: display labels of the slugs that humanising would
      get wrong or that are fixed by convention. */
  const ShopTypeCanon: map<string, string> := map[
    "apothecary" := "Apothecary", "distillery" := "Distillery", "furnisher" := "Furnisher",
    "ironmonger" := "Iron Monger", "shipyard" := "Shipyard", "tailor" := "Tailor",
    "weavery" := "Weavery", "fort" := "Fort", "estateagent" := "Estate Agent"]

  /** `_humanize_slug`: hyphens become spaces, the result is stripped and
      title-cased, and "Ironmonger" is split into two words. */
  function Humanize(slug: string): (h: string)
    ensures slug == "" ==> h == ""
  {
    if slug == "" then ""
    else ReplaceAll(Title(Strip(ReplaceAll(slug, "-", " "))), "Ironmonger", "Iron Monger")
  }

  /** No hyphen survives humanising. */
  lemma HumanizeNoHyphen(slug: string)
    ensures '-' !in Humanize(slug)
  {
    if slug != "" {
      var spaced := ReplaceAll(slug, "-", " ");
      ReplaceAllAvoids(slug, "-", " ", '-');
      StripKeeps(spaced);
      var titled := Title(Strip(spaced));
      assert '-' !in titled by {
        forall i | 0 <= i < |titled|
          ensures titled[i] != '-'
        {
          assert Lower(titled[i]) == Lower(Strip(spaced)[i]);
        }
      }
      ReplaceAllAvoids(titled, "Ironmonger", "Iron Monger", '-');
    }
  }

  /** A one-word slug other than "ironmonger..." is capitalised: its first
      letter raised, the rest kept. */
  lemma HumanizeWord(w: string)
    requires w != [] && forall k :: 0 <= k < |w| ==> IsLower(w[k])
    requires !StartsWith(w, "ironmonger")
    ensures Humanize(w) == [Upper(w[0])] + w[1..]
  {
    assert '-' !in w;
    ReplaceAllAbsent(w, "-", " ");
    StripTrimmed(w);
    TitleWord(w);
    var cap := [Upper(w[0])] + w[1..];
    CapitalNotIronmonger(w);
    ReplaceAllAbsent(cap[1..], "Ironmonger", "Iron Monger");
    assert cap == [cap[0]] + cap[1..];
  }

  /** `str.title()` of a lower-case word raises its first letter only. */
  lemma TitleWord(w: string)
    requires w != [] && forall k :: 0 <= k < |w| ==> IsLower(w[k])
    ensures Title(w) == [Upper(w[0])] + w[1..]
  {
    var t := Title(w);
    var cap := [Upper(w[0])] + w[1..];
    assert IsUpper(t[0]) && Lower(t[0]) == w[0];
    forall i | 1 <= i < |w|
      ensures t[i] == cap[i]
    {
      assert IsLetter(w[i - 1]);
      assert IsLower(t[i]) && Lower(t[i]) == w[i];
    }
  }

  lemma CapitalNotIronmonger(w: string)
    requires w != [] && forall k :: 0 <= k < |w| ==> IsLower(w[k])
    requires !StartsWith(w, "ironmonger")
    ensures !StartsWith([Upper(w[0])] + w[1..], "Ironmonger")
  {
    var cap := [Upper(w[0])] + w[1..];
    var q := "ironmonger";
    if |w| >= 10 {
      assert w[..10] != q;
      var k :| 0 <= k < 10 && w[..10][k] != q[k];
      if k == 0 {
        assert IsLower(w[0]) && w[0] != 'i';
        assert cap[0] != 'I';
      } else {
        assert cap[k] == w[k];
      }
      assert cap[..10][k] != "Ironmonger"[k];
    }
  }

  /** `SHOP_TYPE_CANON.get(slug) or _humanize_slug(slug)`. */
  function ShopLabel(slug: string): string {
    if slug in ShopTypeCanon && ShopTypeCanon[slug] != "" then ShopTypeCanon[slug] else Humanize(slug)
  }

  /** Every canonical label is non-empty, so a canonical slug always gets its
      canonical label and every other slug its humanised form. */
  lemma ShopLabelCanon(slug: string)
    ensures slug in ShopTypeCanon ==> ShopLabel(slug) == ShopTypeCanon[slug] && ShopLabel(slug) != ""
    ensures slug !in ShopTypeCanon ==> ShopLabel(slug) == Humanize(slug)
  {
  }

  // ------------------------------------------------------------ icon src

  const IconPrefix := "/yoweb/images/shop"
  const ManagedMark := "-managed"
  const IconSuffix := ".png"

  /** The class `[a-z\-]` under `re.IGNORECASE`. */
  predicate IsSlugChar(c: char) { IsLetter(c) || c == '-' }

  /** The end of the run of slug characters starting at `p`. */
  function SlugEnd(s: string, p: nat): (e: nat)
    requires p <= |s|
    ensures p <= e <= |s|
    ensures forall k :: p <= k < e ==> IsSlugChar(s[k])
    ensures e == |s| || !IsSlugChar(s[e])
    decreases |s| - p
  {
    if p < |s| && IsSlugChar(s[p]) then SlugEnd(s, p + 1) else p
  }

  /** `-([a-z\-]+)\.png` at `p`. The `.` of the suffix is not a slug
      character, so only the whole greedy run can be followed by it. */
  function SlugAt(s: string, p: nat): (slug: Option<string>)
    ensures slug.Some? ==> slug.value != [] && forall k :: 0 <= k < |slug.value| ==> IsSlugChar(slug.value[k])
  {
    if p < |s| && s[p] == '-' then
      var e := SlugEnd(s, p + 1);
      if e > p + 1 && MatchesAtCI(s, e, IconSuffix) then Some(s[p + 1..e]) else None
    else None
  }

  /** A match of `TYPE_AND_ROLE_RE`: whether group 1 (`-managed`) took part,
      and group 2, the slug. */
  datatype IconMatch = IconMatch(managed: bool, slug: string)

  /** `TYPE_AND_ROLE_RE` at `p`: the optional `(-managed)?` is tried first
      and given up only when the rest of the pattern fails with it. */
  function IconMatchAt(s: string, p: nat): (m: Option<IconMatch>)
    ensures m.Some? ==> p + |IconPrefix| < |s|
  {
    if !MatchesAtCI(s, p, IconPrefix) then None
    else
      var q := p + |IconPrefix|;
      var marked := if MatchesAtCI(s, q, ManagedMark) then SlugAt(s, q + |ManagedMark|) else None;
      if marked.Some? then Some(IconMatch(true, marked.value))
      else
        match SlugAt(s, q)
        case Some(slug) => Some(IconMatch(false, slug))
        case None => None
  }

  /** `TYPE_AND_ROLE_RE.search`: the leftmost start at or after `from`. */
  function IconSearch(s: string, from: nat): (r: Option<nat>)
    ensures r.Some? ==> from <= r.value < |s| && IconMatchAt(s, r.value).Some?
    ensures r.Some? ==> forall p :: from <= p < r.value ==> IconMatchAt(s, p).None?
    ensures r.None? ==> forall p :: from <= p ==> IconMatchAt(s, p).None?
  {
    var ok := (p: nat) => IconMatchAt(s, p).Some?;
    assert forall p: nat :: ok(p) == IconMatchAt(s, p).Some?;
    LeastFrom(|s|, ok, from)
  }

  datatype Ownership = Owns | Manages

  function OwnershipText(o: Ownership): string {
    match o
    case Owns => "Owns"
    case Manages => "Manages"
  }

  /** A decoded shop icon: the shop type label and the ownership role. */
  datatype IconInfo = IconInfo(shopType: string, role: Ownership)

  /** `_parse_icon_src`. `None` stands for the `("", "")` the source returns
      when the pattern is found nowhere in `src`. */
  function ParseIconSrc(src: string): (r: Option<IconInfo>)
    ensures r.None? <==> forall p :: IconMatchAt(src, p).None?
  {
    match IconSearch(src, 0)
    case None => None
    case Some(p) =>
      var m := IconMatchAt(src, p).value;
      Some(IconInfo(ShopLabel(LowerStr(m.slug)), if m.managed then Manages else Owns))
  }

  /** The icon path the site uses for a slug and a role. */
  function IconSrc(slug: string, role: Ownership): string {
    IconPrefix + (if role == Manages then ManagedMark else "") + "-" + slug + IconSuffix
  }

  /** The end of a slug of letters written into an icon path. */
  lemma SlugAtIconTail(s: string, p: nat, slug: string)
    requires slug != [] && forall k :: 0 <= k < |slug| ==> IsLower(slug[k])
    requires p + 1 + |slug| + |IconSuffix| <= |s|
    requires s[p..p + 1 + |slug| + |IconSuffix|] == "-" + slug + IconSuffix
    ensures SlugAt(s, p) == Some(slug)
  {
    var e := p + 1 + |slug|;
    assert forall k :: p + 1 <= k < e ==> s[k] == slug[k - p - 1];
    assert s[e] == '.';
    assert SlugEnd(s, p + 1) == e;
    var w := "-" + slug + IconSuffix;
    assert w[1 + |slug|..] == IconSuffix && w[1..1 + |slug|] == slug;
    assert s[e..e + |IconSuffix|] == w[1 + |slug|..];
    assert s[p + 1..e] == w[1..1 + |slug|];
  }

  /** Decoding the icon path of a lower-case slug gives back the slug's
      label and the role: the two icon spellings round-trip. */
  lemma IconSrcRoundTrip(slug: string, role: Ownership)
    requires slug != [] && forall k :: 0 <= k < |slug| ==> IsLower(slug[k])
    ensures ParseIconSrc(IconSrc(slug, role)) == Some(IconInfo(ShopLabel(slug), role))
  {
    var s := IconSrc(slug, role);
    if role == Manages {
      IconSrcManaged(slug);
    } else {
      IconSrcOwned(slug);
    }
    assert IconSearch(s, 0) == Some(0);
    assert LowerStr(slug) == slug;
  }

  lemma IconSrcManaged(slug: string)
    requires slug != [] && forall k :: 0 <= k < |slug| ==> IsLower(slug[k])
    ensures IconMatchAt(IconSrc(slug, Manages), 0) == Some(IconMatch(true, slug))
  {
    var s := IconSrc(slug, Manages);
    var q := |IconPrefix|;
    assert s[..q] == IconPrefix;
    assert s[q..q + |ManagedMark|] == ManagedMark;
    SlugAtIconTail(s, q + |ManagedMark|, slug);
  }

  /** Without the mark, the optional group cannot take part: after a slug
      spelled "managed..." comes a letter or the suffix, never the hyphen
      the marked form needs. */
  lemma IconSrcOwned(slug: string)
    requires slug != [] && forall k :: 0 <= k < |slug| ==> IsLower(slug[k])
    ensures IconMatchAt(IconSrc(slug, Owns), 0) == Some(IconMatch(false, slug))
  {
    var s := IconSrc(slug, Owns);
    var q := |IconPrefix|;
    assert s[..q] == IconPrefix;
    SlugAtIconTail(s, q, slug);
    assert SlugAt(s, q + |ManagedMark|).None? by {
      if q + |ManagedMark| < |s| {
        assert s[q + |ManagedMark|] != '-';
      }
    }
  }

  /** A src without the icon path decodes to nothing. */
  lemma ParseIconSrcEmpty()
    ensures ParseIconSrc("") == None
  {
  }

  // ---------------------------------------------------- name/location pairs

  /** One (shop name, location) pair. */
  datatype Pair = Pair(name: string, location: string)

  /** `re.sub(r"^(Owns:|Manages:)\s*", "", txt, flags=re.I)`. */
  function StripOwnsPrefix(t: string): (r: string)
    ensures |r| <= |t| && r == t[|t| - |r|..]
  {
    if MatchesAtCI(t, 0, "Owns:") then t[SpaceEnd(t, 5)..]
    else if MatchesAtCI(t, 0, "Manages:") then t[SpaceEnd(t, 8)..]
    else t
  }

  /** The prefix is removed, in any letter case, together with all the
      whitespace after it. */
  lemma StripOwnsPrefixRemoves(h: string, w: string, x: string)
    requires LowerStr(h) == "owns:" || LowerStr(h) == "manages:"
    requires forall k :: 0 <= k < |w| ==> IsSpace(w[k])
    requires x == [] || !IsSpace(x[0])
    ensures StripOwnsPrefix(h + w + x) == x
  {
    var t := h + w + x;
    var n := |h|;
    assert t[n..] == w + x;
    assert forall k :: n <= k < n + |w| ==> t[k] == w[k - n];
    assert n + |w| < |t| ==> t[n + |w|] == x[0];
    SpaceEndAt(t, n, |w|);
    if LowerStr(h) == "manages:" {
      ManagesPrefixMatches(t, h);
    } else {
      OwnsPrefixMatches(t, h);
    }
  }

  lemma OwnsPrefixMatches(t: string, h: string)
    requires LowerStr(h) == "owns:" && h <= t
    ensures MatchesAtCI(t, 0, "Owns:")
  {
    assert t[0..5] == h;
    assert LowerStr("Owns:") == "owns:";
  }

  lemma ManagesPrefixMatches(t: string, h: string)
    requires LowerStr(h) == "manages:" && h <= t
    ensures !MatchesAtCI(t, 0, "Owns:") && MatchesAtCI(t, 0, "Manages:")
  {
    assert t[0..8] == h;
    assert LowerStr("Manages:") == "manages:";
    assert LowerStr(t[0..5])[0] == Lower(h[0]) == 'm';
  }

  /** A text that starts with neither prefix, in any letter case, is kept
      as it is. */
  lemma StripOwnsPrefixKeeps(t: string)
    requires !(|t| >= 5 && LowerStr(t[..5]) == "owns:")
    requires !(|t| >= 8 && LowerStr(t[..8]) == "manages:")
    ensures StripOwnsPrefix(t) == t
  {
    assert LowerStr("Owns:") == "owns:" && LowerStr("Manages:") == "manages:";
  }

  /** Where `NAME_LOC_PAIRS_RE` can end its name group at `e` on
      single-spaced text: `\s+on\s+` is " on " (case-insensitive), and the
      location group `[^,]+?` needs a first character that is not a comma. */
  predicate PairSepAt(t: string, e: nat) {
    && e + 4 < |t|
    && IsSpace(t[e]) && MatchesAtCI(t, e + 1, "on") && IsSpace(t[e + 3])
    && t[e + 4] != ','
  }

  /** The lazy name group: the first separator position at or after `from`. */
  function PairSepFrom(t: string, from: nat): (r: Option<nat>)
    ensures r.Some? ==> from <= r.value && PairSepAt(t, r.value)
    ensures r.Some? ==> forall e :: from <= e < r.value ==> !PairSepAt(t, e)
    ensures r.None? ==> forall e :: from <= e ==> !PairSepAt(t, e)
    decreases |t| - from
  {
    if from + 4 >= |t| then None
    else if PairSepAt(t, from) then Some(from)
    else PairSepFrom(t, from + 1)
  }

  /** The first comma at or after `p`, or the end: the lazy location group
      stops where `(?=,|$)` first holds. */
  function CommaEnd(t: string, p: nat): (f: nat)
    requires p <= |t|
    ensures p <= f <= |t|
    ensures forall k :: p <= k < f ==> t[k] != ','
    ensures f == |t| || t[f] == ','
    decreases |t| - p
  {
    if p < |t| && t[p] != ',' then CommaEnd(t, p + 1) else p
  }

  /** `if not loc: loc = "Error"`. */
  function LocationOrError(loc: string): string {
    if loc == "" then "Error" else loc
  }

  /** `NAME_LOC_PAIRS_RE.finditer(t)` from `pos`, each match's groups cleaned.
      On single-spaced text `\s*` takes the one space there may be, and a
      start with no match leaves no later start with one, so the matches
      are consecutive: each begins where the previous location ended, at its
      comma. */
  function PairsFrom(t: string, pos: nat): seq<Pair>
    requires pos <= |t|
    decreases |t| - pos
  {
    var ns := SpaceEnd(t, pos);
    match PairSepFrom(t, ns + 1)
    case None => []
    case Some(e) =>
      var f := CommaEnd(t, e + 4);
      [Pair(Clean(t[ns..e]), LocationOrError(Clean(t[e + 4..f])))] + PairsFrom(t, f)
  }

  /** The shape of the pairs read from single-spaced text: every name and
      every location is non-empty, no location holds a comma (so the "Error"
      substitute never appears), and every name after the first begins with
      the comma that ended the previous location. */
  predicate PairsShaped(ps: seq<Pair>) {
    && (forall i :: 0 <= i < |ps| ==> ps[i].name != "" && ps[i].location != "" && ',' !in ps[i].location)
    && (forall i :: 0 < i < |ps| ==> ps[i].name != "" && ps[i].name[0] == ',')
  }

  lemma PairsShapedCons(head: Pair, rest: seq<Pair>)
    requires head.name != "" && head.location != "" && ',' !in head.location
    requires PairsShaped(rest)
    requires rest != [] ==> rest[0].name != "" && rest[0].name[0] == ','
    ensures PairsShaped([head] + rest)
  {
    var ps := [head] + rest;
    assert forall i :: 0 < i < |ps| ==> ps[i] == rest[i - 1];
  }

  /** On single-spaced text the pairs are shaped, and the first name too
      begins with a comma when the scan starts at one. */
  lemma {:induction false} PairsShape(t: string, pos: nat)
    requires SingleSpaced(t) && pos <= |t|
    ensures PairsShaped(PairsFrom(t, pos))
    ensures pos < |t| && t[pos] == ',' && PairsFrom(t, pos) != [] ==>
      PairsFrom(t, pos)[0].name != "" && PairsFrom(t, pos)[0].name[0] == ','
    decreases |t| - pos
  {
    var ns := SpaceEnd(t, pos);
    match PairSepFrom(t, ns + 1)
    case None =>
    case Some(e) =>
      var f := CommaEnd(t, e + 4);
      PairsFromStep(t, pos, e, f);
      PairNameLocation(t, pos, ns, e, f);
      PairsShape(t, f);
      var rest := PairsFrom(t, f);
      assert f < |t| ==> t[f] == ',';
      assert f == |t| ==> rest == [];
      var head := Pair(Clean(t[ns..e]), LocationOrError(Clean(t[e + 4..f])));
      PairsShapedCons(head, rest);
  }

  /** The groups of one match: the name is the text between the start and
      the separator, the location group cleans to a non-empty, comma-free
      string, so the "Error" substitute is never used. */
  lemma PairNameLocation(t: string, pos: nat, ns: nat, e: nat, f: nat)
    requires SingleSpaced(t) && pos <= |t|
    requires ns == SpaceEnd(t, pos) && ns < e && PairSepAt(t, e)
    requires f == CommaEnd(t, e + 4)
    ensures Clean(t[ns..e]) == t[ns..e] && t[ns..e] != ""
    ensures pos < |t| && t[pos] == ',' ==> t[ns..e][0] == ','
    ensures Clean(t[e + 4..f]) != "" && ',' !in Clean(t[e + 4..f])
  {
    SingleSpacedSlice(t, ns, e);
    assert !IsSpace(t[e - 1]);
    CleanFixed(t[ns..e]);
    var loc := t[e + 4..f];
    assert !IsSpace(t[e + 4]);
    CleanShape(loc);
    assert !AllSpace(loc) by {
      assert !IsSpace(loc[0]);
    }
    CleanMembers(loc, ',');
  }

  /** `_extract_name_loc_pairs`: clean, drop one leading "Owns:" or
      "Manages:" with the whitespace after it, then collect the matches. */
  function ExtractPairs(text: string): seq<Pair> {
    PairsFrom(StripOwnsPrefix(Clean(text)), 0)
  }

  /** The extracted pairs are shaped. */
  lemma ExtractPairsShape(text: string)
    ensures PairsShaped(ExtractPairs(text))
  {
    var c := Clean(text);
    CleanShape(text);
    StripOwnsSingleSpaced(c);
    PairsShape(StripOwnsPrefix(c), 0);
  }

  lemma StripOwnsSingleSpaced(c: string)
    requires SingleSpaced(c)
    ensures SingleSpaced(StripOwnsPrefix(c))
  {
    var t := StripOwnsPrefix(c);
    SingleSpacedSlice(c, |c| - |t|, |c|);
    assert c[|c| - |t|..|c|] == t;
  }

  /** "a on b, c on d" gives ("a", "b") and (", c", "d"): the lookahead
      leaves the comma to be read as the start of the second name. */
  lemma ExtractPairsExample(a: char, b: char, c: char, d: char)
    requires IsLetter(a) && IsLetter(b) && IsLetter(c) && IsLetter(d)
    ensures ExtractPairs([a] + " on " + [b] + ", " + [c] + " on " + [d])
         == [Pair([a], [b]), Pair(", " + [c], [d])]
  {
    ExampleTextIs(a, b, c, d);
    ExampleTextClean(a, b, c, d);
    ExamplePairsFrom(a, b, c, d);
    ExampleGroups(a, b, c, d);
  }

  lemma ExampleTextIs(a: char, b: char, c: char, d: char)
    ensures ExampleText(a, b, c, d) == [a] + " on " + [b] + ", " + [c] + " on " + [d]
  {
  }

  /** The example's two matches, before their groups are cleaned. */
  lemma ExamplePairsFrom(a: char, b: char, c: char, d: char)
    requires IsLetter(a) && IsLetter(b) && IsLetter(c) && IsLetter(d)
    ensures var t := ExampleText(a, b, c, d);
      PairsFrom(t, 0) == [Pair(Clean(t[0..1]), LocationOrError(Clean(t[5..6]))),
                          Pair(Clean(t[6..9]), LocationOrError(Clean(t[13..14])))]
  {
    var t := ExampleText(a, b, c, d);
    ExampleTextMatches(a, b, c, d);
    PairsFromStep(t, 6, 9, 14);
    PairsFromStep(t, 0, 1, 6);
  }

  /** The example's groups clean to themselves. */
  lemma ExampleGroups(a: char, b: char, c: char, d: char)
    requires IsLetter(a) && IsLetter(b) && IsLetter(c) && IsLetter(d)
    ensures var t := ExampleText(a, b, c, d);
      && Clean(t[0..1]) == [a] && Clean(t[5..6]) == [b]
      && Clean(t[6..9]) == ", " + [c] && Clean(t[13..14]) == [d]
  {
    var t := ExampleText(a, b, c, d);
    assert t[0..1] == [a] && t[5..6] == [b] && t[6..9] == ", " + [c] && t[13..14] == [d];
    CleanLetter(a);
    CleanLetter(b);
    CleanLetter(d);
    CleanCommaLetter(c);
  }

  lemma CleanCommaLetter(c: char)
    requires IsLetter(c)
    ensures Clean(", " + [c]) == ", " + [c]
  {
    CleanFixed(", " + [c]);
  }

  function ExampleText(a: char, b: char, c: char, d: char): string {
    [a, ' ', 'o', 'n', ' ', b, ',', ' ', c, ' ', 'o', 'n', ' ', d]
  }

  lemma CleanLetter(a: char)
    requires IsLetter(a)
    ensures Clean([a]) == [a]
  {
    CleanFixed([a]);
  }

  lemma ExampleTextClean(a: char, b: char, c: char, d: char)
    requires IsLetter(a) && IsLetter(b) && IsLetter(c) && IsLetter(d)
    ensures Clean(ExampleText(a, b, c, d)) == ExampleText(a, b, c, d)
    ensures StripOwnsPrefix(ExampleText(a, b, c, d)) == ExampleText(a, b, c, d)
  {
    var t := ExampleText(a, b, c, d);
    assert SingleSpaced(t) by {
      forall i, j | 0 <= i && j == i + 1 && j < |t|
        ensures !(IsSpace(t[i]) && IsSpace(t[j]))
      {
      }
    }
    CleanFixed(t);
    assert !MatchesAtCI(t, 0, "Owns:") by {
      assert LowerStr(t[0..5])[1] == ' ';
    }
    assert !MatchesAtCI(t, 0, "Manages:") by {
      assert LowerStr(t[0..8])[1] == ' ';
    }
  }

  /** The two separators of the example, and the commas that end its locations. */
  lemma ExampleTextMatches(a: char, b: char, c: char, d: char)
    requires IsLetter(a) && IsLetter(b) && IsLetter(c) && IsLetter(d)
    ensures var t := ExampleText(a, b, c, d);
      && SpaceEnd(t, 0) == 0 && PairSepFrom(t, 1) == Some(1) && CommaEnd(t, 5) == 6
      && SpaceEnd(t, 6) == 6 && PairSepFrom(t, 7) == Some(9) && CommaEnd(t, 13) == 14
      && PairsFrom(t, 14) == []
  {
    var t := ExampleText(a, b, c, d);
    OnAt(t, 2);
    assert PairSepAt(t, 1);
    assert !PairSepAt(t, 7) by {
      assert !MatchesAtCI(t, 8, "on") by {
        assert LowerStr(t[8..10])[1] == ' ';
      }
    }
    OnAt(t, 10);
    assert PairSepAt(t, 9) && !PairSepAt(t, 8);
    assert PairSepFrom(t, 9) == Some(9);
  }

  /** One step of `finditer`: the match found from `pos` gives one pair,
      and the search goes on from the comma that ended its location. */
  lemma PairsFromStep(t: string, pos: nat, e: nat, f: nat)
    requires pos <= |t|
    requires PairSepFrom(t, SpaceEnd(t, pos) + 1) == Some(e)
    requires f == CommaEnd(t, e + 4)
    ensures PairsFrom(t, pos) == [Pair(Clean(t[SpaceEnd(t, pos)..e]), LocationOrError(Clean(t[e + 4..f])))] + PairsFrom(t, f)
  {
  }

  /** The two letters "on" at `i`. */
  lemma OnAt(t: string, i: nat)
    requires i + 2 <= |t| && t[i] == 'o' && t[i + 1] == 'n'
    ensures MatchesAtCI(t, i, "on")
  {
    assert t[i..i + 2] == "on";
  }

  // ------------------------------------------------------------ stalls

  /** Where the stall title pattern `^(.+?)\s+on\s+(.+)$` can end its name
      group at `e` on single-spaced text. */
  predicate StallSepAt(t: string, e: nat) {
    e + 4 < |t| && IsSpace(t[e]) && MatchesAtCI(t, e + 1, "on") && IsSpace(t[e + 3])
  }

  function StallSepFrom(t: string, from: nat): (r: Option<nat>)
    ensures r.Some? ==> from <= r.value && StallSepAt(t, r.value)
    ensures r.Some? ==> forall e :: from <= e < r.value ==> !StallSepAt(t, e)
    ensures r.None? ==> forall e :: from <= e ==> !StallSepAt(t, e)
    decreases |t| - from
  {
    if from + 4 >= |t| then None
    else if StallSepAt(t, from) then Some(from)
    else StallSepFrom(t, from + 1)
  }

  /** The name and location of a stall from its cleaned title; ("", "Error")
      when the title does not read "<name> on <location>". */
  function ParseStallTitle(title: string): (p: Pair)
    ensures p.location != ""
    ensures p.name == "" <==> p == Pair("", "Error")
    ensures p.name == "" <==> forall e :: 1 <= e ==> !StallSepAt(Clean(title), e)
  {
    var t := Clean(title);
    match StallSepFrom(t, 1)
    case None => Pair("", "Error")
    case Some(e) =>
      CleanShape(title);
      StallGroups(t, e);
      Pair(Clean(t[..e]), Clean(t[e + 4..]))
  }

  lemma StallGroups(t: string, e: nat)
    requires SingleSpaced(t) && 1 <= e && StallSepAt(t, e)
    ensures Clean(t[..e]) != "" && Clean(t[e + 4..]) != ""
  {
    assert !IsSpace(t[e - 1]) && !IsSpace(t[e + 4]);
    CleanShape(t[..e]);
    CleanShape(t[e + 4..]);
    assert !AllSpace(t[..e]) by { assert !IsSpace(t[..e][e - 1]); }
    assert !AllSpace(t[e + 4..]) by { assert !IsSpace(t[e + 4..][0]); }
  }

  /** Clean, trimmed, single-spaced text. */
  ghost predicate IsClean(s: string) {
    SingleSpaced(s) && s != [] && !IsSpace(s[0]) && !IsSpace(s[|s| - 1])
  }

  /** " on " does not occur in `n + " "`, ignoring case. */
  ghost predicate NoOnWord(n: string) {
    forall e :: 0 <= e && e + 4 <= |n| + 1 ==> !MatchesAtCI(n + " ", e, " on ")
  }

  /** Joining two clean strings around " on " keeps the text clean. */
  lemma StallTitleClean(n: string, l: string)
    requires IsClean(n) && IsClean(l)
    ensures IsClean(n + " on " + l)
  {
    var t := n + " on " + l;
    forall i | 0 <= i < |t| && IsSpace(t[i])
      ensures t[i] == ' '
    {
      if i >= |n| + 4 {
        assert t[i] == l[i - |n| - 4];
      }
    }
    forall i, j | 0 <= i && j == i + 1 && j < |t|
      ensures !(IsSpace(t[i]) && IsSpace(t[j]))
    {
      if j < |n| {
        assert t[i] == n[i] && t[j] == n[j];
      } else if i >= |n| + 4 {
        assert t[i] == l[i - |n| - 4] && t[j] == l[j - |n| - 4];
      }
    }
  }

  /** No separator starts inside a name without " on ". */
  lemma NoStallSepInName(n: string, l: string, e: nat)
    requires IsClean(n) && IsClean(l) && NoOnWord(n) && 1 <= e < |n|
    ensures !StallSepAt(n + " on " + l, e)
  {
    var t := n + " on " + l;
    var u := n + " ";
    if e == |n| - 1 {
      assert t[e] == n[|n| - 1];
    } else if e == |n| - 2 {
      assert t[e + 3] == 'o';
    } else if e + 4 < |t| && IsSpace(t[e]) && IsSpace(t[e + 3]) {
      assert t[e..e + 4] == u[e..e + 4];
      assert t[e] == n[e] == ' ';
      assert t[e + 3] == ' ' by {
        if e + 3 < |n| {
          assert t[e + 3] == n[e + 3];
        }
      }
      assert !MatchesAtCI(u, e, " on ");
      var lu := LowerStr(u[e..e + 4]);
      assert lu[1] == Lower(t[e + 1]) && lu[2] == Lower(t[e + 2]);
      assert lu[0] == ' ' && lu[3] == ' ';
      assert LowerStr(t[e + 1..e + 3]) != "on";
    }
  }

  /** A stall titled "<name> on <location>" gives back that name and
      location, provided the name does not itself contain " on ". */
  lemma StallTitleRoundTrip(n: string, l: string)
    requires IsClean(n) && IsClean(l) && NoOnWord(n)
    ensures ParseStallTitle(n + " on " + l) == Pair(n, l)
  {
    var t := n + " on " + l;
    StallTitleClean(n, l);
    CleanFixed(t);
    forall e | 1 <= e < |n|
      ensures !StallSepAt(t, e)
    {
      NoStallSepInName(n, l, e);
    }
    assert t[|n| + 1..|n| + 3] == "on";
    assert StallSepAt(t, |n|);
    assert StallSepFrom(t, 1) == Some(|n|);
    assert t[..|n|] == n;
    assert t[|n| + 4..] == l;
    CleanFixed(n);
    CleanFixed(l);
  }

  /** The text of a "Stalls" heading: `^\s*Stalls\s*$` under `re.I`. */
  predicate IsStallsHeader(s: string) {
    LowerStr(Strip(s)) == "stalls"
  }

  // ------------------------------------------------------------ page

  /** An `<img>`: its `src`, `title` and `alt` attributes when present. */
  datatype Img = Img(src: Option<string>, title: Option<string>, alt: Option<string>)

  /** A cell of a left-column row: its first `<img>`, if any, and its text
      (`get_text(" ", strip=True)`). */
  datatype ShopCell = ShopCell(img: Option<Img>, text: string)

  /** A `<tr>` of the left column (at any depth) as its `<td>` cells. */
  datatype ShopTableRow = ShopTableRow(cells: seq<ShopCell>)

  /** A string of the left column, with the `<img>`s of the first `<p>` that
      follows its parent element, if there is one. */
  datatype TextNode = TextNode(text: string, nextParagraph: Option<seq<Img>>)

  /** The `<td width="190">` column: its tables (for the crew row), all its
      rows, and its strings, each in document order. */
  datatype LeftColumn = LeftColumn(tables: seq<PanelTable>, rows: seq<ShopTableRow>, strings: seq<TextNode>)

  /** What `_scrape_one` reads: the `+1` font's stripped text and the left column. */
  datatype ShopPage = ShopPage(nameFont: Option<string>, left: Option<LeftColumn>)

  datatype Size = Shoppe | Stall

  function SizeText(s: Size): string {
    match s
    case Shoppe => "Shoppe"
    case Stall => "Stall"
  }

  /** A row of `shoppes_df`. */
  datatype ShopRecord = ShopRecord(
    pirateName: string,
    crewName: string,
    shopType: string,
    size: Size,
    shopName: string,
    location: string,
    role: Ownership)

  /** The decoded icon of a shop, or `None` where the row or icon is skipped
      (`if not shop_type: continue`). */
  function ShopIcon(img: Img): (r: Option<IconInfo>)
    ensures r.Some? ==> r.value.shopType != ""
  {
    match ParseIconSrc(img.src.GetOr(""))
    case Some(info) => if info.shopType != "" then Some(info) else None
    case None => None
  }

  /** An icon is a shop icon exactly when its `src` (or "" when it has none)
      decodes to a non-empty shop type, and then it carries that decoding's
      type and role. */
  lemma ShopIconDecodes(img: Img)
    ensures var d := ParseIconSrc(img.src.GetOr(""));
      && (ShopIcon(img).Some? <==> d.Some? && d.value.shopType != "")
      && (ShopIcon(img).Some? ==> ShopIcon(img) == d)
  {
  }

  /** The pairs of a shop row's text cell, or the one ("", "Error") pair
      when its cleaned text holds none. */
  function RowPairs(text: string): (ps: seq<Pair>)
    ensures ps != [] && forall i :: 0 <= i < |ps| ==> ps[i].location != ""
    ensures ExtractPairs(Clean(text)) == [] ==> ps == [Pair("", "Error")]
    ensures ExtractPairs(Clean(text)) != [] ==> ps == ExtractPairs(Clean(text))
  {
    var found := ExtractPairs(Clean(text));
    ExtractPairsShape(Clean(text));
    if found == [] then [Pair("", "Error")] else found
  }

  /** The records of one left-column row: nothing unless it has two cells
      and a shop icon in the first; otherwise one record per pair found in
      the second cell, or one ("", "Error") record when none is found. */
  function ShoppeRowsOf(row: ShopTableRow, pirateName: string, crewName: string): (rs: seq<ShopRecord>)
    ensures |rs| > 0 <==> |row.cells| >= 2 && row.cells[0].img.Some? && ShopIcon(row.cells[0].img.value).Some?
    ensures forall i :: 0 <= i < |rs| ==>
      && rs[i].pirateName == pirateName && rs[i].crewName == crewName
      && rs[i].shopType != "" && rs[i].size == Shoppe && rs[i].location != ""
  {
    if |row.cells| < 2 || row.cells[0].img.None? then []
    else
      match ShopIcon(row.cells[0].img.value)
      case None => []
      case Some(info) => PairRecords(RowPairs(row.cells[1].text), pirateName, crewName, info)
  }

  /** One shoppe record per pair, in order. */
  function PairRecords(pairs: seq<Pair>, pirateName: string, crewName: string, info: IconInfo): (rs: seq<ShopRecord>)
    ensures |rs| == |pairs|
    ensures forall i :: 0 <= i < |pairs| ==>
      rs[i] == ShopRecord(pirateName, crewName, info.shopType, Shoppe, pairs[i].name, pairs[i].location, info.role)
  {
    seq(|pairs|, i requires 0 <= i < |pairs| =>
      ShopRecord(pirateName, crewName, info.shopType, Shoppe, pairs[i].name, pairs[i].location, info.role))
  }

  /** A shop row whose text holds no pair gives exactly one record, with an
      empty name and the location "Error". */
  lemma ShoppeRowNoPairs(row: ShopTableRow, pirateName: string, crewName: string)
    requires |row.cells| >= 2 && row.cells[0].img.Some? && ShopIcon(row.cells[0].img.value).Some?
    requires ExtractPairs(Clean(row.cells[1].text)) == []
    ensures var info := ShopIcon(row.cells[0].img.value).value;
      ShoppeRowsOf(row, pirateName, crewName) == [ShopRecord(pirateName, crewName, info.shopType, Shoppe, "", "Error", info.role)]
  {
    var info := ShopIcon(row.cells[0].img.value).value;
    var rs := PairRecords([Pair("", "Error")], pirateName, crewName, info);
    assert RowPairs(row.cells[1].text) == [Pair("", "Error")];
    assert ShoppeRowsOf(row, pirateName, crewName) == rs;
    assert rs[0] == ShopRecord(pirateName, crewName, info.shopType, Shoppe, "", "Error", info.role);
  }

  /** A shop row whose text holds pairs gives one record per pair, in order. */
  lemma ShoppeRowPairs(row: ShopTableRow, pirateName: string, crewName: string)
    requires |row.cells| >= 2 && row.cells[0].img.Some? && ShopIcon(row.cells[0].img.value).Some?
    requires ExtractPairs(Clean(row.cells[1].text)) != []
    ensures var ps := ExtractPairs(Clean(row.cells[1].text));
      var rs := ShoppeRowsOf(row, pirateName, crewName);
      |rs| == |ps| && forall i :: 0 <= i < |rs| ==> rs[i].shopName == ps[i].name && rs[i].location == ps[i].location
  {
    var info := ShopIcon(row.cells[0].img.value).value;
    var ps := ExtractPairs(Clean(row.cells[1].text));
    assert RowPairs(row.cells[1].text) == ps;
    var rs := PairRecords(ps, pirateName, crewName, info);
    assert ShoppeRowsOf(row, pirateName, crewName) == rs;
    forall i | 0 <= i < |rs|
      ensures rs[i].shopName == ps[i].name && rs[i].location == ps[i].location
    {
      assert rs[i] == ShopRecord(pirateName, crewName, info.shopType, Shoppe, ps[i].name, ps[i].location, info.role);
    }
  }

  /** One row's records, as the rows loop applies it. */
  function ShoppeRowsFn(pirateName: string, crewName: string): ShopTableRow -> seq<ShopRecord> {
    row => ShoppeRowsOf(row, pirateName, crewName)
  }

  /** The loop over the left column's rows. */
  function ShoppeRows(rows: seq<ShopTableRow>, pirateName: string, crewName: string): (rs: seq<ShopRecord>)
    ensures forall i :: 0 <= i < |rs| ==>
      && rs[i].pirateName == pirateName && rs[i].crewName == crewName
      && rs[i].shopType != "" && rs[i].size == Shoppe && rs[i].location != ""
  {
    var f := ShoppeRowsFn(pirateName, crewName);
    FlatMapEvery(rows, f, (r: ShopRecord) =>
      && r.pirateName == pirateName && r.crewName == crewName
      && r.shopType != "" && r.size == Shoppe && r.location != "");
    FlatMap(rows, f)
  }

  /** The rows loop appends: the records of two runs of rows are those of
      the first followed by those of the second. */
  lemma ShoppeRowsAppend(a: seq<ShopTableRow>, b: seq<ShopTableRow>, pirateName: string, crewName: string)
    ensures ShoppeRows(a + b, pirateName, crewName) == ShoppeRows(a, pirateName, crewName) + ShoppeRows(b, pirateName, crewName)
  {
    FlatMapAppend(a, b, ShoppeRowsFn(pirateName, crewName));
  }

  /** One row alone gives that row's records. */
  lemma ShoppeRowsSingle(row: ShopTableRow, pirateName: string, crewName: string)
    ensures ShoppeRows([row], pirateName, crewName) == ShoppeRowsOf(row, pirateName, crewName)
  {
    FlatMapSingle(row, ShoppeRowsFn(pirateName, crewName));
  }

  /** `icon.get("title") or icon.get("alt") or ""`. */
  function StallTitle(img: Img): string {
    if img.title.Some? && img.title.value != "" then img.title.value
    else if img.alt.Some? && img.alt.value != "" then img.alt.value
    else ""
  }

  /** The record one icon gives: none unless it is a shop icon, else one
      stall record with the name and location read from its title. */
  function StallRecords(img: Img, pirateName: string, crewName: string): (rs: seq<ShopRecord>)
    ensures |rs| <= 1
    ensures forall i :: 0 <= i < |rs| ==>
      && rs[i].pirateName == pirateName && rs[i].crewName == crewName
      && rs[i].shopType != "" && rs[i].size == Stall && rs[i].location != ""
  {
    match ShopIcon(img)
    case None => []
    case Some(info) =>
      var p := ParseStallTitle(StallTitle(img));
      [ShopRecord(pirateName, crewName, info.shopType, Stall, p.name, p.location, info.role)]
  }

  function StallRecordsFn(pirateName: string, crewName: string): Img -> seq<ShopRecord> {
    img => StallRecords(img, pirateName, crewName)
  }

  /** The loop over the icons of the stalls paragraph: one record per shop icon. */
  function StallRows(imgs: seq<Img>, pirateName: string, crewName: string): (rs: seq<ShopRecord>)
    ensures |rs| <= |imgs|
    ensures forall i :: 0 <= i < |rs| ==>
      && rs[i].pirateName == pirateName && rs[i].crewName == crewName
      && rs[i].shopType != "" && rs[i].size == Stall && rs[i].location != ""
  {
    var f := StallRecordsFn(pirateName, crewName);
    FlatMapShort(imgs, f);
    FlatMapEvery(imgs, f, (r: ShopRecord) =>
      && r.pirateName == pirateName && r.crewName == crewName
      && r.shopType != "" && r.size == Stall && r.location != "");
    FlatMap(imgs, f)
  }

  /** The icons loop appends: the records of two runs of icons are those of
      the first followed by those of the second. */
  lemma StallRowsAppend(a: seq<Img>, b: seq<Img>, pirateName: string, crewName: string)
    ensures StallRows(a + b, pirateName, crewName) == StallRows(a, pirateName, crewName) + StallRows(b, pirateName, crewName)
  {
    FlatMapAppend(a, b, StallRecordsFn(pirateName, crewName));
  }

  /** One icon gives no record when it is not a shop icon, and otherwise
      one stall record with the icon's type and role and the name and
      location read from its title. */
  lemma StallRowsSingle(img: Img, pirateName: string, crewName: string)
    ensures ShopIcon(img).None? ==> StallRows([img], pirateName, crewName) == []
    ensures ShopIcon(img).Some? ==>
      var info, p := ShopIcon(img).value, ParseStallTitle(StallTitle(img));
      StallRows([img], pirateName, crewName) == [ShopRecord(pirateName, crewName, info.shopType, Stall, p.name, p.location, info.role)]
  {
    FlatMapSingle(img, StallRecordsFn(pirateName, crewName));
  }

  /** A shop icon whose title does not read "<name> on <location>" still
      gives a stall record, with an empty name and the location "Error". */
  lemma StallRowNoSeparator(img: Img, pirateName: string, crewName: string)
    requires ShopIcon(img).Some?
    requires forall e :: 1 <= e ==> !StallSepAt(Clean(StallTitle(img)), e)
    ensures var info := ShopIcon(img).value;
      StallRows([img], pirateName, crewName) == [ShopRecord(pirateName, crewName, info.shopType, Stall, "", "Error", info.role)]
  {
    StallRowsSingle(img, pirateName, crewName);
  }

  /** The paragraph after the first "Stalls" heading among the strings. */
  function StallsBlock(strings: seq<TextNode>): (b: Option<seq<Img>>)
    ensures (forall i :: 0 <= i < |strings| ==> !IsStallsHeader(strings[i].text)) ==> b.None?
    ensures forall i :: (0 <= i < |strings| && IsStallsHeader(strings[i].text)
      && (forall j :: 0 <= j < i ==> !IsStallsHeader(strings[j].text))) ==> b == strings[i].nextParagraph
    decreases |strings|
  {
    if strings == [] then None
    else if IsStallsHeader(strings[0].text) then strings[0].nextParagraph
    else StallsBlock(strings[1..])
  }

  /** `extract_shop_rows`: the shoppe records, then the stall records. */
  function ExtractShopRows(left: Option<LeftColumn>, pirateName: string, crewName: string): (rs: seq<ShopRecord>)
    ensures left.None? ==> rs == []
    ensures forall i :: 0 <= i < |rs| ==>
      && rs[i].pirateName == pirateName && rs[i].crewName == crewName
      && rs[i].shopType != "" && rs[i].location != ""
    ensures forall i, j :: 0 <= i < j < |rs| && rs[i].size == Stall ==> rs[j].size == Stall
    ensures left.Some? && StallsBlock(left.value.strings).None? ==> rs == ShoppeRows(left.value.rows, pirateName, crewName)
    ensures left.Some? && StallsBlock(left.value.strings).Some? ==>
      rs == ShoppeRows(left.value.rows, pirateName, crewName) + StallRows(StallsBlock(left.value.strings).value, pirateName, crewName)
  {
    match left
    case None => []
    case Some(col) =>
      var stalls := match StallsBlock(col.strings)
        case Some(imgs) => StallRows(imgs, pirateName, crewName)
        case None => [];
      ShoppeRows(col.rows, pirateName, crewName) + stalls
  }

  /** `a.get_text(" ", strip=True)` on the crew link: unlike the pirates
      stage, this one puts a space between the link's text nodes. */
  function CrewLinkText(a: Option<Strings>): (t: string)
    ensures a.None? ==> t == ""
    ensures a.Some? ==> t == Join(StrippedStrings(a.value), " ")
  {
    match a
    case None => ""
    case Some(strs) => GetText(strs, " ")
  }

  /** The crew name of `_scrape_one` in this stage: the link text of the
      first row containing "of the crew" (the loop breaks there), "" when
      that row has no link or no row contains the phrase. Unlike the
      pirates stage, the first such row wins. */
  function FirstCrewLink(rows: seq<PanelRow>): (name: string)
    ensures (forall j :: 0 <= j < |rows| ==> !Contains(LowerStr(rows[j].text), CrewPhrase)) ==> name == ""
    ensures forall i :: (0 <= i < |rows| && Contains(LowerStr(rows[i].text), CrewPhrase)
      && (forall j :: 0 <= j < i ==> !Contains(LowerStr(rows[j].text), CrewPhrase))) ==> name == CrewLinkText(rows[i].link)
    decreases |rows|
  {
    if rows == [] then ""
    else if Contains(LowerStr(rows[0].text), CrewPhrase) then CrewLinkText(rows[0].link)
    else FirstCrewLink(rows[1..])
  }

  function ShopCrewName(left: Option<LeftColumn>): string {
    match left
    case Some(col) => if |col.tables| > 0 then FirstCrewLink(col.tables[0].rows) else ""
    case None => ""
  }

  /** `_scrape_one` after a 200 response: no title fallback for the name here. */
  function ScrapeShops(page: ShopPage): (rs: seq<ShopRecord>)
    ensures page.left.None? ==> rs == []
    ensures forall i :: 0 <= i < |rs| ==> rs[i].pirateName == page.nameFont.GetOr("") && rs[i].shopType != ""
    ensures forall i :: 0 <= i < |rs| ==> rs[i].crewName == ShopCrewName(page.left)
    ensures page.left.Some? ==> ShoppeRows(page.left.value.rows, page.nameFont.GetOr(""), ShopCrewName(page.left)) <= rs
  {
    ExtractShopRows(page.left, page.nameFont.GetOr(""), ShopCrewName(page.left))
  }

  // ------------------------------------------------------------ stage

  function ShopAttempt(fetch: string -> Fetched<ShopPage>): string -> Outcome<ShopRecord> {
    url => Attempt(fetch(url), (page: ShopPage) => Success(ScrapeShops(page)))
  }

  /** The `run` of the shoppes stage. */
  function RunShops(input: Table, fetch: string -> Fetched<ShopPage>): (res: Result<StageRun<ShopRecord>, StageError>)
    ensures res.Err? <==> PirateUrl !in input.columns
    ensures res.Err? ==> res.error == MissingColumn(MissingPirateUrl)
  {
    RunKeyedStage(input, PirateUrl, MissingPirateUrl, ShopAttempt(fetch))
  }

  /** Each prepared URL either succeeds or leaves one failure row; every
      shop row has a shop type and every failure a prepared URL. */
  lemma RunShopsAccounting(input: Table, fetch: string -> Fetched<ShopPage>)
    requires PirateUrl in input.columns
    ensures var run := RunShops(input, fetch).value;
            var keys := PrepareKeys(ColumnValues(input, PirateUrl));
            && run.succeeded + |run.failures| == |keys|
            && (forall r :: r in run.rows ==> r.shopType != "")
            && (forall f :: f in run.failures ==> f.key in keys)
  {
    var keys := PrepareKeys(ColumnValues(input, PirateUrl));
    var attempt := ShopAttempt(fetch);
    var typed := (r: ShopRecord) => r.shopType != "";
    forall k | k in keys && attempt(k).Success?
      ensures forall r :: r in attempt(k).rows ==> typed(r)
    {
      ShopAttemptRows(fetch, k);
    }
    RunRecords(keys, attempt);
    RunRowsHold(keys, attempt, typed);
  }

  /** A successful attempt gives only records with a shop type. */
  lemma ShopAttemptRows(fetch: string -> Fetched<ShopPage>, url: string)
    ensures var o := ShopAttempt(fetch)(url);
            o.Success? ==> forall r :: r in o.rows ==> r.shopType != ""
  {
    var f := fetch(url);
    if f.Response? && f.status == 200 {
      var rs := ScrapeShops(f.page);
      assert ShopAttempt(fetch)(url) == Success(rs);
      forall r | r in rs
        ensures r.shopType != ""
      {
        var i :| 0 <= i < |rs| && rs[i] == r;
      }
    }
  }

  const ShopColumns: seq<Column> := [PirateName, CrewName, ShopType, ShopSize, ShopName, Location, OwnershipRole]

  /** A record as a row of `shoppes_df`. */
  function ShopRow(r: ShopRecord): Row {
    map[PirateName := r.pirateName, CrewName := r.crewName, ShopType := r.shopType,
        ShopSize := SizeText(r.size), ShopName := r.shopName, Location := r.location,
        OwnershipRole := OwnershipText(r.role)]
  }

  /** The size and role cells hold one of the two words the site uses. */
  lemma ShopRowWords(r: ShopRecord)
    ensures ShopRow(r)[ShopSize] == "Shoppe" || ShopRow(r)[ShopSize] == "Stall"
    ensures ShopRow(r)[OwnershipRole] == "Owns" || ShopRow(r)[OwnershipRole] == "Manages"
    ensures ShopRow(r)[ShopType] == r.shopType && ShopRow(r)[Location] == r.location
  {
  }

  /** `shoppes_df`: one full row per record. */
  function ShopsTable(records: seq<ShopRecord>): (t: Table)
    ensures t.columns == ShopColumns && |t.rows| == |records|
    ensures WellFormed(t)
  {
    Table(ShopColumns, seq(|records|, i requires 0 <= i < |records| => ShopRow(records[i])))
  }
}
