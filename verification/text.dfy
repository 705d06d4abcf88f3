/** String primitives the scraper relies on, restricted to ASCII: Python's
    `str.strip`, `str.lower`/`upper`/`title`, `str.split`, `str.join`,
    `str.replace`, substring tests, the `\s+` collapse of `_clean`, and the
    code-point ordering Python uses to compare strings. */
module Text {

  /** Python's `str.isspace()` and the regex class `\s` on ASCII: the controls
      0x09-0x0D, the separators 0x1C-0x1F, and space. */
  predicate IsSpace(c: char) {
    ('\t' <= c <= '\r') || ('\U{1C}' <= c <= ' ')
  }

  predicate IsUpper(c: char) { 'A' <= c <= 'Z' }

  predicate IsLower(c: char) { 'a' <= c <= 'z' }

  /** ASCII letters are the only cased characters of the model. */
  predicate IsLetter(c: char) { IsUpper(c) || IsLower(c) }

  /** The regex class `\w` on ASCII. */
  predicate IsWordChar(c: char) { IsLetter(c) || ('0' <= c <= '9') || c == '_' }

  function Lower(c: char): (d: char)
    ensures !IsUpper(d)
    ensures IsLetter(d) <==> IsLetter(c)
    ensures IsSpace(d) <==> IsSpace(c)
    ensures !IsUpper(c) ==> d == c
  {
    if IsUpper(c) then (c as int + 32) as char else c
  }

  function Upper(c: char): (d: char)
    ensures !IsLower(d)
    ensures IsLetter(d) <==> IsLetter(c)
    ensures IsSpace(d) <==> IsSpace(c)
    ensures !IsLower(c) ==> d == c
    ensures Lower(d) == Lower(c)
  {
    if IsLower(c) then (c as int - 32) as char else c
  }

  /** Python's `str.lower()` on ASCII. */
  function LowerStr(s: string): (r: string)
    ensures |r| == |s|
    ensures forall i :: 0 <= i < |s| ==> r[i] == Lower(s[i])
  {
    seq(|s|, i requires 0 <= i < |s| => Lower(s[i]))
  }

  /** Python's `str.upper()` on ASCII. */
  function UpperStr(s: string): (r: string)
    ensures |r| == |s|
    ensures forall i :: 0 <= i < |s| ==> r[i] == Upper(s[i])
  {
    seq(|s|, i requires 0 <= i < |s| => Upper(s[i]))
  }

  predicate AllSpace(s: string) {
    forall i :: 0 <= i < |s| ==> IsSpace(s[i])
  }

  predicate StartsWith(s: string, p: string) {
    |p| <= |s| && s[..|p|] == p
  }

  /** Python's `p in s`. */
  predicate Contains(s: string, p: string)
    decreases |s|
  {
    StartsWith(s, p) || (|s| > 0 && Contains(s[1..], p))
  }

  /** An occurrence at a known position is found by `Contains`. */
  lemma {:induction false} ContainsAt(s: string, i: nat, p: string)
    requires i + |p| <= |s| && s[i..i + |p|] == p
    ensures Contains(s, p)
    decreases i
  {
    if i > 0 {
      assert s[1..][i - 1..i - 1 + |p|] == p;
      ContainsAt(s[1..], i - 1, p);
    }
  }

  /** `s[i:]` starts with `p`, ignoring ASCII case (a literal under `re.I`). */
  predicate MatchesAtCI(s: string, i: nat, p: string) {
    i + |p| <= |s| && LowerStr(s[i..i + |p|]) == LowerStr(p)
  }

  /** The characters of `s` that are not whitespace, in order. */
  function NonSpace(s: string): string
    decreases |s|
  {
    if s == [] then [] else (if IsSpace(s[0]) then [] else [s[0]]) + NonSpace(s[1..])
  }

  lemma {:induction false} NonSpaceConcat(a: string, b: string)
    ensures NonSpace(a + b) == NonSpace(a) + NonSpace(b)
    decreases |a|
  {
    if a == [] {
      assert a + b == b;
    } else {
      assert (a + b)[1..] == a[1..] + b;
      NonSpaceConcat(a[1..], b);
    }
  }

  lemma NonSpaceOfSpaces(s: string)
    requires AllSpace(s)
    ensures NonSpace(s) == []
    decreases |s|
  {
    if s != [] {
      NonSpaceOfSpaces(s[1..]);
    }
  }

  lemma {:induction false} NonSpaceEmpty(s: string)
    ensures NonSpace(s) == [] <==> AllSpace(s)
    decreases |s|
  {
    if s != [] {
      NonSpaceEmpty(s[1..]);
      if AllSpace(s[1..]) && IsSpace(s[0]) {
        assert forall i :: 0 < i < |s| ==> s[i] == s[1..][i - 1];
      }
    }
  }

  /** The number of whitespace characters `s` opens with. */
  function LeadingSpaces(s: string): (k: nat)
    ensures k <= |s| && AllSpace(s[..k])
    ensures k < |s| ==> !IsSpace(s[k])
    decreases |s|
  {
    if s != [] && IsSpace(s[0]) then
      var k := 1 + LeadingSpaces(s[1..]);
      assert forall i :: 1 <= i < k ==> s[..k][i] == s[1..][..k - 1][i - 1];
      k
    else 0
  }

  /** Python's `str.strip()`: whitespace removed from both ends. The result
      neither opens nor closes with whitespace; `StripSlice` says which
      stretch of `s` it is. */
  function Strip(s: string): (r: string)
    ensures |r| <= |s|
    ensures r == [] || (!IsSpace(r[0]) && !IsSpace(r[|r| - 1]))
    decreases |s|
  {
    if |s| > 0 && IsSpace(s[0]) then Strip(s[1..])
    else if |s| > 0 && IsSpace(s[|s| - 1]) then Strip(s[..|s| - 1])
    else s
  }

  /** The stripped string is the stretch of `s` that starts after its
      leading whitespace and is followed by whitespace only. */
  lemma StripSlice(s: string)
    ensures LeadingSpaces(s) + |Strip(s)| <= |s|
    ensures Strip(s) == s[LeadingSpaces(s)..LeadingSpaces(s) + |Strip(s)|]
    ensures AllSpace(s[LeadingSpaces(s) + |Strip(s)|..])
  {
    StripStart(s);
    StripRest(s);
  }

  /** The stripped string starts right after the leading whitespace. */
  lemma {:induction false} StripStart(s: string)
    ensures LeadingSpaces(s) + |Strip(s)| <= |s|
    ensures Strip(s) == s[LeadingSpaces(s)..LeadingSpaces(s) + |Strip(s)|]
    decreases |s|
  {
    var r := Strip(s);
    if |s| > 0 && IsSpace(s[0]) {
      StripStart(s[1..]);
      var k := LeadingSpaces(s[1..]);
      assert LeadingSpaces(s) == 1 + k;
      assert s[1..][k..k + |r|] == s[k + 1..k + 1 + |r|];
    } else if |s| > 0 && IsSpace(s[|s| - 1]) {
      var p := s[..|s| - 1];
      StripStart(p);
      assert r == Strip(p);
      assert LeadingSpaces(p) == 0 && LeadingSpaces(s) == 0;
      assert s[..|r|] == p[..|r|];
    }
  }

  /** Only whitespace follows the stripped string. */
  lemma {:induction false} StripRest(s: string)
    requires LeadingSpaces(s) + |Strip(s)| <= |s|
    ensures AllSpace(s[LeadingSpaces(s) + |Strip(s)|..])
    decreases |s|
  {
    var r := Strip(s);
    if |s| > 0 && IsSpace(s[0]) {
      StripStart(s[1..]);
      StripRest(s[1..]);
      var k := LeadingSpaces(s[1..]);
      assert LeadingSpaces(s) == 1 + k;
      assert s[1..][k + |r|..] == s[k + 1 + |r|..];
    } else if |s| > 0 && IsSpace(s[|s| - 1]) {
      var p := s[..|s| - 1];
      StripStart(p);
      StripRest(p);
      assert r == Strip(p);
      assert LeadingSpaces(p) == 0 && LeadingSpaces(s) == 0;
      assert s[|r|..] == p[|r|..] + [s[|s| - 1]];
    }
  }

  /** Stripping removes whitespace only: every other character is kept, in order. */
  lemma {:induction false} StripNonSpace(s: string)
    ensures NonSpace(Strip(s)) == NonSpace(s)
    decreases |s|
  {
    if |s| > 0 && IsSpace(s[0]) {
      StripNonSpace(s[1..]);
    } else if |s| > 0 && IsSpace(s[|s| - 1]) {
      var init := s[..|s| - 1];
      StripNonSpace(init);
      assert s == init + [s[|s| - 1]];
      NonSpaceConcat(init, [s[|s| - 1]]);
    }
  }

  /** Stripping leaves nothing exactly when the string is all whitespace. */
  lemma StripEmpty(s: string)
    ensures Strip(s) == [] <==> AllSpace(s)
  {
    StripNonSpace(s);
    NonSpaceEmpty(s);
    NonSpaceEmpty(Strip(s));
  }

  /** Stripping only removes characters. */
  lemma {:induction false} StripKeeps(s: string)
    ensures forall c :: c in Strip(s) ==> c in s
    decreases |s|
  {
    if |s| > 0 && IsSpace(s[0]) {
      StripKeeps(s[1..]);
    } else if |s| > 0 && IsSpace(s[|s| - 1]) {
      StripKeeps(s[..|s| - 1]);
    }
  }

  /** A string with no whitespace at either end is its own strip. */
  lemma StripTrimmed(s: string)
    requires s == [] || (!IsSpace(s[0]) && !IsSpace(s[|s| - 1]))
    ensures Strip(s) == s
  {
  }

  /** Stripping is idempotent. */
  lemma StripIdempotent(s: string)
    ensures Strip(Strip(s)) == Strip(s)
  {
    StripTrimmed(Strip(s));
  }

  /** Lower-casing leaves whitespace where it was, so it commutes with stripping. */
  lemma {:induction false} StripLower(s: string)
    ensures Strip(LowerStr(s)) == LowerStr(Strip(s))
    decreases |s|
  {
    var l := LowerStr(s);
    if |s| > 0 && IsSpace(s[0]) {
      assert l[1..] == LowerStr(s[1..]);
      StripLower(s[1..]);
    } else if |s| > 0 && IsSpace(s[|s| - 1]) {
      assert l[..|s| - 1] == LowerStr(s[..|s| - 1]);
      StripLower(s[..|s| - 1]);
    }
  }

  /** One space added on either side of a trimmed string is stripped again. */
  lemma StripPadded(s: string)
    requires s == [] || (!IsSpace(s[0]) && !IsSpace(s[|s| - 1]))
    ensures Strip(s + " ") == s
    ensures Strip(" " + s) == s
  {
    StripTrimmed(s);
    var t := s + " ";
    assert t[..|t| - 1] == s;
    if s != [] {
      assert t[0] == s[0];
    }
    assert Strip(t) == Strip(s);
    var u := " " + s;
    assert u[1..] == s;
    assert Strip(u) == Strip(s);
  }

  /** No whitespace other than ' ', and never two whitespace characters in a
      row: the shape `re.sub(r"\s+", " ", ...)` leaves behind. */
  ghost predicate SingleSpaced(s: string) {
    && (forall i :: 0 <= i < |s| && IsSpace(s[i]) ==> s[i] == ' ')
    && (forall i, j :: 0 <= i && j == i + 1 && j < |s| ==> !(IsSpace(s[i]) && IsSpace(s[j])))
  }

  lemma SingleSpacedSlice(s: string, a: nat, b: nat)
    requires SingleSpaced(s) && a <= b <= |s|
    ensures SingleSpaced(s[a..b])
  {
    var t := s[a..b];
    forall i, j | 0 <= i && j == i + 1 && j < |t|
      ensures !(IsSpace(t[i]) && IsSpace(t[j]))
    {
      assert t[i] == s[a + i] && t[j] == s[a + j];
    }
  }

  /** A single-spaced string stays single-spaced when stripped. */
  lemma {:induction false} StripSingleSpaced(s: string)
    requires SingleSpaced(s)
    ensures SingleSpaced(Strip(s))
    decreases |s|
  {
    if |s| > 0 && IsSpace(s[0]) {
      SingleSpacedSlice(s, 1, |s|);
      StripSingleSpaced(s[1..]);
    } else if |s| > 0 && IsSpace(s[|s| - 1]) {
      SingleSpacedSlice(s, 0, |s| - 1);
      StripSingleSpaced(s[..|s| - 1]);
    }
  }

  /** `re.sub(r"\s+", " ", s)` scanning `s` after a whitespace character
      (`afterSpace`) or not: a whitespace run becomes one space. */
  function CollapseFrom(s: string, afterSpace: bool): (r: string)
    ensures |r| <= |s|
    decreases |s|
  {
    if s == [] then []
    else if IsSpace(s[0]) then
      if afterSpace then CollapseFrom(s[1..], true) else " " + CollapseFrom(s[1..], true)
    else [s[0]] + CollapseFrom(s[1..], false)
  }

  function Collapse(s: string): string {
    CollapseFrom(s, false)
  }

  /** The collapse is single-spaced, does not open with whitespace right after
      whitespace, and keeps every non-space character. */
  lemma {:induction false} CollapseShape(s: string, afterSpace: bool)
    ensures SingleSpaced(CollapseFrom(s, afterSpace))
    ensures afterSpace && CollapseFrom(s, afterSpace) != [] ==> !IsSpace(CollapseFrom(s, afterSpace)[0])
    ensures NonSpace(CollapseFrom(s, afterSpace)) == NonSpace(s)
    decreases |s|
  {
    if s != [] {
      var sp := IsSpace(s[0]);
      var rest := CollapseFrom(s[1..], sp);
      CollapseShape(s[1..], sp);
      var r := CollapseFrom(s, afterSpace);
      if !(sp && afterSpace) {
        var c := if sp then ' ' else s[0];
        assert r == [c] + rest;
        NonSpaceConcat([c], rest);
        forall i, j | 0 <= i && j == i + 1 && j < |r|
          ensures !(IsSpace(r[i]) && IsSpace(r[j]))
        {
          if i > 0 {
            assert r[i] == rest[i - 1] && r[j] == rest[j - 1];
          }
        }
        assert forall i :: 0 < i < |r| ==> r[i] == rest[i - 1];
      }
    }
  }

  /** A single-spaced string is left alone by the collapse. */
  lemma {:induction false} CollapseSingleSpaced(s: string, afterSpace: bool)
    requires SingleSpaced(s)
    requires afterSpace ==> s == [] || !IsSpace(s[0])
    ensures CollapseFrom(s, afterSpace) == s
    decreases |s|
  {
    if s != [] {
      SingleSpacedSlice(s, 1, |s|);
      CollapseSingleSpaced(s[1..], IsSpace(s[0]));
      assert s == [s[0]] + s[1..];
    }
  }

  /** `s` is one word: non-empty and without whitespace. */
  predicate IsWord(w: string) {
    w != [] && forall i :: 0 <= i < |w| ==> !IsSpace(w[i])
  }

  /** The length of the run of non-whitespace characters `s` opens with. */
  function WordEnd(s: string): (e: nat)
    ensures e <= |s|
    ensures forall i :: 0 <= i < e ==> !IsSpace(s[i])
    ensures e < |s| ==> IsSpace(s[e])
    ensures s != [] && !IsSpace(s[0]) ==> e >= 1
    decreases |s|
  {
    if s == [] || IsSpace(s[0]) then 0 else 1 + WordEnd(s[1..])
  }

  /** Python's `str.split()` with no argument: the maximal runs of
      non-whitespace characters, in order. */
  function Words(s: string): (ws: seq<string>)
    ensures forall k :: 0 <= k < |ws| ==> IsWord(ws[k])
    decreases |s|
  {
    if s == [] then []
    else if IsSpace(s[0]) then Words(s[1..])
    else
      var e := WordEnd(s);
      [s[..e]] + Words(s[e..])
  }

  /** Words joined by one space never open or close with whitespace, and
      they give the empty string only when there are no words. */
  lemma {:induction false} JoinWordsTrimmed(ws: seq<string>)
    requires forall k :: 0 <= k < |ws| ==> IsWord(ws[k])
    ensures Join(ws, " ") == [] <==> ws == []
    ensures var j := Join(ws, " "); j == [] || (!IsSpace(j[0]) && !IsSpace(j[|j| - 1]))
    decreases |ws|
  {
    if |ws| > 1 {
      JoinWordsTrimmed(ws[1..]);
      var t := Join(ws[1..], " ");
      var j := Join(ws, " ");
      assert j == ws[0] + " " + t;
      assert j[0] == ws[0][0];
      assert j[|j| - 1] == t[|t| - 1];
    } else if |ws| == 1 {
      assert Join(ws, " ") == ws[0];
    }
  }

  /** The collapse copies a leading word and goes on after it. */
  lemma CollapseWord(s: string, afterSpace: bool)
    requires s != [] && !IsSpace(s[0])
    ensures CollapseFrom(s, afterSpace) == s[..WordEnd(s)] + CollapseFrom(s[WordEnd(s)..], false)
  {
    CollapseWordPrefix(s, WordEnd(s), afterSpace);
  }

  /** The collapse copies any non-empty prefix of a leading word. */
  lemma {:induction false} CollapseWordPrefix(s: string, k: nat, afterSpace: bool)
    requires 0 < k <= WordEnd(s)
    ensures CollapseFrom(s, afterSpace) == s[..k] + CollapseFrom(s[k..], false)
    decreases k
  {
    if k == 1 {
      assert s[..1] == [s[0]];
    } else {
      CollapseWordPrefix(s, k - 1, afterSpace);
      var u := s[k - 1..];
      assert u[1..] == s[k..];
      assert CollapseFrom(u, false) == [s[k - 1]] + CollapseFrom(s[k..], false);
      assert s[..k - 1] + [s[k - 1]] == s[..k];
    }
  }

  /** Joining a word in front of other words puts one separator between. */
  lemma JoinCons(w: string, ws: seq<string>, sep: string)
    ensures Join([w] + ws, sep) == if ws == [] then w else w + sep + Join(ws, sep)
  {
    if ws != [] {
      assert ([w] + ws)[1..] == ws;
    }
  }

  /** The words of a string that opens with whitespace are those after it. */
  lemma WordsAfterSpace(s: string)
    requires s != [] && IsSpace(s[0])
    ensures Words(s) == Words(s[1..])
    ensures CollapseFrom(s, false) == " " + CollapseFrom(s[1..], true)
    ensures CollapseFrom(s, true) == CollapseFrom(s[1..], true)
  {
  }

  /** After whitespace, the collapse is the words joined by one space, with
      at most one more space when there are words. */
  lemma {:induction false} CollapseAfterSpace(s: string)
    ensures var c, j := CollapseFrom(s, true), Join(Words(s), " ");
      c == j || (j != [] && c == j + " ")
    decreases |s|
  {
    if s != [] {
      if IsSpace(s[0]) {
        WordsAfterSpace(s);
        CollapseAfterSpace(s[1..]);
      } else {
        CollapseAfterWord(s);
      }
    }
  }

  /** `CollapseAfterSpace` for a string that opens with a word. */
  lemma {:induction false} CollapseAfterWord(s: string)
    requires s != [] && !IsSpace(s[0])
    ensures var c, j := CollapseFrom(s, true), Join(Words(s), " ");
      c == j || (j != [] && c == j + " ")
    decreases |s|, 0
  {
    var e := WordEnd(s);
    var w, t := s[..e], s[e..];
    CollapseWord(s, true);
    assert Words(s) == [w] + Words(t);
    JoinCons(w, Words(t), " ");
    if t != [] {
      var u := t[1..];
      WordsAfterSpace(t);
      CollapseAfterSpace(u);
      JoinWordsTrimmed(Words(u));
    }
  }

  /** Collapsing then stripping is joining the words with one space. */
  lemma CollapseWords(s: string)
    ensures Strip(Collapse(s)) == Join(Words(s), " ")
  {
    if s != [] {
      var j := Join(Words(s), " ");
      if IsSpace(s[0]) {
        CollapseAfterSpace(s[1..]);
        assert Words(s) == Words(s[1..]);
        JoinWordsTrimmed(Words(s));
        StripPadded(j);
        var u := " " + (j + " ");
        assert u[1..] == j + " ";
      } else {
        CollapseWord(s, false);
        CollapseWord(s, true);
        CollapseAfterSpace(s);
        JoinWordsTrimmed(Words(s));
        StripPadded(j);
        StripTrimmed(j);
      }
    }
  }

  /** `_clean` in scraper/shoppes.py: collapse whitespace runs, then strip. */
  function Clean(s: string): (r: string)
    ensures r == [] || (!IsSpace(r[0]) && !IsSpace(r[|r| - 1]))
  {
    Strip(Collapse(s))
  }

  /** `_clean(s)` is `" ".join(s.split())`: the maximal non-whitespace runs
      of `s`, in order, joined by one space. */
  lemma CleanWords(s: string)
    ensures Clean(s) == Join(Words(s), " ")
  {
    CollapseWords(s);
  }

  /** The cleaned text is single-spaced, keeps every non-space character of
      the input in order, and is empty exactly when the input is all
      whitespace. */
  lemma CleanShape(s: string)
    ensures SingleSpaced(Clean(s))
    ensures NonSpace(Clean(s)) == NonSpace(s)
    ensures Clean(s) == [] <==> AllSpace(s)
  {
    CollapseShape(s, false);
    StripSingleSpaced(Collapse(s));
    StripNonSpace(Collapse(s));
    NonSpaceEmpty(s);
    NonSpaceEmpty(Clean(s));
  }

  /** A single-spaced string with no whitespace at either end is already clean. */
  lemma CleanFixed(s: string)
    requires SingleSpaced(s)
    requires s == [] || (!IsSpace(s[0]) && !IsSpace(s[|s| - 1]))
    ensures Clean(s) == s
  {
    CollapseSingleSpaced(s, false);
    StripTrimmed(s);
  }

  /** `_clean` is idempotent. */
  lemma CleanIdempotent(s: string)
    ensures Clean(Clean(s)) == Clean(s)
  {
    CleanShape(s);
    CleanFixed(Clean(s));
  }

  /** A non-whitespace character occurs in `s` exactly when it occurs in `NonSpace(s)`. */
  lemma {:induction false} NonSpaceMembers(s: string, c: char)
    requires !IsSpace(c)
    ensures c in NonSpace(s) <==> c in s
    decreases |s|
  {
    if s != [] {
      NonSpaceMembers(s[1..], c);
      assert s == [s[0]] + s[1..];
    }
  }

  /** Cleaning neither adds nor drops a non-whitespace character. */
  lemma CleanMembers(s: string, c: char)
    requires !IsSpace(c)
    ensures c in Clean(s) <==> c in s
  {
    CleanShape(s);
    NonSpaceMembers(s, c);
    NonSpaceMembers(Clean(s), c);
  }

  /** Python's `sep.join(parts)`. */
  function Join(parts: seq<string>, sep: string): string
    decreases |parts|
  {
    if |parts| == 0 then ""
    else if |parts| == 1 then parts[0]
    else parts[0] + sep + Join(parts[1..], sep)
  }

  /** Position of the first occurrence of `c` in `s`. */
  function IndexOf(s: string, c: char): (i: nat)
    requires c in s
    ensures i < |s| && s[i] == c && c !in s[..i]
  {
    if s[0] == c then 0
    else
      assert c in s[1..];
      var k := IndexOf(s[1..], c);
      assert s[..k + 1] == [s[0]] + s[1..][..k];
      k + 1
  }

  /** Python's `s.split(c)` for a one-character separator: at least one part,
      no part holds the separator, and joining the parts back gives `s`. */
  function Split(s: string, c: char): (parts: seq<string>)
    ensures |parts| >= 1
    ensures forall k :: 0 <= k < |parts| ==> c !in parts[k]
    ensures Join(parts, [c]) == s
    decreases |s|
  {
    if c !in s then [s]
    else
      var i := IndexOf(s, c);
      var rest := Split(s[i + 1..], c);
      var parts := [s[..i]] + rest;
      assert parts[1..] == rest;
      assert s == s[..i] + [c] + s[i + 1..];
      parts
  }

  /** The decomposition is unique: separator-free parts joined by `c` split back into themselves. */
  lemma {:induction false} SplitJoin(parts: seq<string>, c: char)
    requires |parts| >= 1
    requires forall k :: 0 <= k < |parts| ==> c !in parts[k]
    ensures Split(Join(parts, [c]), c) == parts
    decreases |parts|
  {
    var s := Join(parts, [c]);
    if |parts| == 1 {
      assert s == parts[0];
    } else {
      var p0 := parts[0];
      var tail := Join(parts[1..], [c]);
      assert s == p0 + [c] + tail;
      assert c in s by { assert s[|p0|] == c; }
      var i := IndexOf(s, c);
      assert s[..|p0|] == p0;
      assert i == |p0|;
      assert s[..i] == p0;
      assert s[i + 1..] == tail;
      SplitJoin(parts[1..], c);
      assert Split(s, c) == [p0] + parts[1..];
    }
  }

  /** Python's `s.replace(p, q)`: leftmost, non-overlapping occurrences. */
  function ReplaceAll(s: string, p: string, q: string): string
    requires |p| > 0
    decreases |s|
  {
    if |s| == 0 then s
    else if StartsWith(s, p) then q + ReplaceAll(s[|p|..], p, q)
    else [s[0]] + ReplaceAll(s[1..], p, q)
  }

  /** A character in neither `s` (or only as the whole pattern) nor the
      replacement is not in the result. */
  lemma {:induction false} ReplaceAllAvoids(s: string, p: string, q: string, c: char)
    requires |p| > 0 && c !in q
    requires c !in s || p == [c]
    ensures c !in ReplaceAll(s, p, q)
    decreases |s|
  {
    if |s| > 0 {
      if StartsWith(s, p) {
        assert forall k :: |p| <= k < |s| ==> s[|p|..][k - |p|] == s[k];
        ReplaceAllAvoids(s[|p|..], p, q, c);
      } else {
        assert forall k :: 1 <= k < |s| ==> s[1..][k - 1] == s[k];
        ReplaceAllAvoids(s[1..], p, q, c);
      }
    }
  }

  /** A string without the pattern's first character is left alone. */
  lemma {:induction false} ReplaceAllAbsent(s: string, p: string, q: string)
    requires |p| > 0 && p[0] !in s
    ensures ReplaceAll(s, p, q) == s
    decreases |s|
  {
    if |s| > 0 {
      ReplaceAllAbsent(s[1..], p, q);
      assert s == [s[0]] + s[1..];
    }
  }

  /** Python's `str.title()` on ASCII: a letter after a letter is lowered,
      any other letter is raised, everything else is kept. */
  function TitleFrom(s: string, afterLetter: bool): (r: string)
    ensures |r| == |s|
    ensures forall i :: 0 <= i < |s| ==> Lower(r[i]) == Lower(s[i])
    ensures forall i :: 0 <= i < |s| && IsLetter(s[i]) && (if i == 0 then !afterLetter else !IsLetter(s[i - 1])) ==> IsUpper(r[i])
    ensures forall i :: 0 <= i < |s| && IsLetter(s[i]) && (if i == 0 then afterLetter else IsLetter(s[i - 1])) ==> IsLower(r[i])
    ensures forall i :: 0 <= i < |s| && !IsLetter(s[i]) ==> r[i] == s[i]
    decreases |s|
  {
    if s == [] then []
    else
      var c := if afterLetter then Lower(s[0]) else Upper(s[0]);
      var rest := TitleFrom(s[1..], IsLetter(s[0]));
      var r := [c] + rest;
      assert forall i :: 0 < i < |s| ==> r[i] == rest[i - 1] && s[i] == s[1..][i - 1];
      r
  }

  function Title(s: string): string {
    TitleFrom(s, false)
  }

  /** Python's `str < str` by code point: `a` sorts no later than `b`. */
  predicate LexLe(a: string, b: string)
    decreases |a|
  {
    |a| == 0 || (|b| > 0 && (a[0] < b[0] || (a[0] == b[0] && LexLe(a[1..], b[1..]))))
  }

  lemma {:induction false} LexLeTotal(a: string, b: string)
    ensures LexLe(a, b) || LexLe(b, a)
    decreases |a|
  {
    if |a| > 0 && |b| > 0 && a[0] == b[0] {
      LexLeTotal(a[1..], b[1..]);
    }
  }

  lemma {:induction false} LexLeTransitive(a: string, b: string, c: string)
    requires LexLe(a, b) && LexLe(b, c)
    ensures LexLe(a, c)
    decreases |a|
  {
    if |a| > 0 && a[0] == b[0] && b[0] == c[0] {
      LexLeTransitive(a[1..], b[1..], c[1..]);
    }
  }

  lemma {:induction false} LexLeAntisymmetric(a: string, b: string)
    requires LexLe(a, b) && LexLe(b, a)
    ensures a == b
    decreases |a|
  {
    if |a| > 0 {
      LexLeAntisymmetric(a[1..], b[1..]);
      assert a == [a[0]] + a[1..] && b == [b[0]] + b[1..];
    }
  }

  /** Decimal digits of a natural number, as Python's `f"{n}"` prints an `int`. */
  function NatToString(n: nat): (r: string)
    ensures |r| >= 1
    ensures forall i :: 0 <= i < |r| ==> '0' <= r[i] <= '9'
    ensures DecimalValue(r) == n
    ensures r[0] == '0' <==> n == 0
    decreases n
  {
    var d := ['0' + (n % 10) as char];
    if n < 10 then d
    else
      var h := NatToString(n / 10);
      assert (h + d)[..|h|] == h && (h + d)[0] == h[0];
      h + d
  }

  /** The number a string of decimal digits denotes, most significant first. */
  function DecimalValue(r: string): nat
    decreases |r|
  {
    if r == [] then 0
    else
      var d := r[|r| - 1] as int - '0' as int;
      DecimalValue(r[..|r| - 1]) * 10 + (if 0 <= d then d else 0)
  }
}
