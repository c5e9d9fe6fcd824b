/**
 * StringFilter.js: filterable phrases (trimmed, upper-cased text whose words
 * are separated by single spaces), the sets and maps of all the phrases a
 * text holds, and the filter specs compiled into tests on those phrases.
 * Text is a sequence of UTF-16 code units, as JavaScript strings are.
 */
module StringFilter {
  import opened Wrappers

  type CodeUnit = u: int | 0 <= u < 0x10000
  type Text = seq<CodeUnit>

  const Space: CodeUnit := 0x20

  // ---------------------------------------------------------------------
  // White space

  /** `isCodePointSpace`, in the order StringFilter.js tests it. */
  function IsCodePointSpace(code: int): bool {
    if code == 0x0020 || (0x0009 <= code <= 0x000D) then true
    else if 0x2000 <= code <= 0x200A then true
    else code in {0x0085, 0x00A0, 0x1680, 0x2028, 0x2029, 0x202F, 0x205F, 0x3000}
  }

  /** The white space code points `isCodePointSpace` accepts, listed one by one. */
  const CodePointSpaces: set<int> := {
    0x0009, 0x000A, 0x000B, 0x000C, 0x000D, 0x0020, 0x0085, 0x00A0, 0x1680,
    0x2000, 0x2001, 0x2002, 0x2003, 0x2004, 0x2005, 0x2006, 0x2007, 0x2008, 0x2009, 0x200A,
    0x2028, 0x2029, 0x202F, 0x205F, 0x3000}

  /** `isCodePointSpace` is true exactly for the listed code points. */
  lemma CodePointSpaceSet(code: int)
    ensures IsCodePointSpace(code) <==> code in CodePointSpaces
  {
  }

  /**
   * The white space of JavaScript's `trim` and of `\s` in a regular
   * expression: the same as `isCodePointSpace` except that U+FEFF is white
   * space and U+0085 is not.
   */
  predicate IsJsSpace(u: int) {
    (0x0009 <= u <= 0x000D) || u == 0x0020 || u == 0x00A0 || u == 0x1680 || (0x2000 <= u <= 0x200A)
    || u == 0x2028 || u == 0x2029 || u == 0x202F || u == 0x205F || u == 0x3000 || u == 0xFEFF
  }

  /** The two notions of white space differ on U+0085 and U+FEFF only. */
  lemma SpaceNotionsDiffer(code: int)
    ensures IsJsSpace(code) != IsCodePointSpace(code) <==> code == 0x0085 || code == 0xFEFF
  {
  }

  // ---------------------------------------------------------------------
  // Case

  /** `toUpperCase` on one code unit, for the ASCII letters. */
  function Upper(u: CodeUnit): (r: CodeUnit)
    ensures IsJsSpace(r) == IsJsSpace(u) && IsCodePointSpace(r) == IsCodePointSpace(u)
    ensures !(0x61 <= r <= 0x7A)
  {
    if 0x61 <= u <= 0x7A then u - 0x20 else u
  }

  function ToUpper(s: Text): (r: Text)
    ensures |r| == |s| && forall i :: 0 <= i < |s| ==> r[i] == Upper(s[i])
  {
    seq(|s|, i requires 0 <= i < |s| => Upper(s[i]))
  }

  // ---------------------------------------------------------------------
  // Trimming, splitting and joining

  /** How many code units of white space `s` starts with. */
  function LeadingSpaces(s: Text): (n: nat)
    ensures n <= |s| && (n < |s| ==> !IsJsSpace(s[n]))
    ensures forall i :: 0 <= i < n ==> IsJsSpace(s[i])
  {
    if s == [] || !IsJsSpace(s[0]) then 0 else 1 + LeadingSpaces(s[1..])
  }

  /** How many code units of white space `s` ends with. */
  function TrailingSpaces(s: Text): (n: nat)
    ensures n <= |s| && (n < |s| ==> !IsJsSpace(s[|s| - 1 - n]))
    ensures forall i :: |s| - n <= i < |s| ==> IsJsSpace(s[i])
  {
    if s == [] || !IsJsSpace(s[|s| - 1]) then 0 else 1 + TrailingSpaces(s[..|s| - 1])
  }

  /** `trim`: the text without its leading and trailing white space. */
  function Trim(s: Text): (r: Text)
    ensures r != [] ==> !IsJsSpace(r[0]) && !IsJsSpace(r[|r| - 1])
  {
    var lead := LeadingSpaces(s);
    var rest := s[lead..];
    rest[..|rest| - TrailingSpaces(rest)]
  }

  /** How many code units that are not white space `s` starts with. */
  function WordLength(s: Text): (n: nat)
    ensures n <= |s| && (n < |s| ==> IsJsSpace(s[n]))
    ensures forall i :: 0 <= i < n ==> !IsJsSpace(s[i])
  {
    if s == [] || IsJsSpace(s[0]) then 0 else 1 + WordLength(s[1..])
  }

  /** A word: not empty, and no white space in it. */
  predicate IsWord(w: Text) {
    w != [] && forall i :: 0 <= i < |w| ==> !IsJsSpace(w[i])
  }

  /** The maximal runs of code units that are not white space, in order. */
  function Runs(s: Text): (r: seq<Text>)
    ensures forall k :: 0 <= k < |r| ==> IsWord(r[k])
    decreases |s|
  {
    if s == [] then []
    else if IsJsSpace(s[0]) then Runs(s[1..])
    else
      var n := WordLength(s);
      [s[..n]] + Runs(s[n..])
  }

  /**
   * `s.trim().toUpperCase().split(/\s+/)`: the words of the text; a text of
   * white space only splits into one empty word.
   */
  function Words(s: Text): seq<Text> {
    var t := ToUpper(Trim(s));
    if t == [] then [[]] else Runs(t)
  }

  /** `join(' ')`. */
  function Join(ws: seq<Text>): (r: Text)
    ensures |ws| == 1 ==> r == ws[0]
  {
    if |ws| == 0 then [] else if |ws| == 1 then ws[0] else ws[0] + [Space] + Join(ws[1..])
  }

  /** `stringToFilterablePhrase`: a missing or empty text comes back as it is. */
  function FilterablePhrase(s: Option<Text>): (r: Option<Text>)
    ensures r.None? <==> s.None?
  {
    if s.None? || s.value == [] then s else Some(Join(Words(s.value)))
  }

  /** No lower-case ASCII letter in the text. */
  predicate NoLower(s: Text) {
    forall i :: 0 <= i < |s| ==> !(0x61 <= s[i] <= 0x7A)
  }

  /**
   * White space in the text is a single U+0020 between two code units that
   * are not white space.
   */
  predicate SingleSpaced(s: Text) {
    forall i :: 0 <= i < |s| && IsJsSpace(s[i]) ==>
      s[i] == Space && 0 < i < |s| - 1 && !IsJsSpace(s[i - 1]) && !IsJsSpace(s[i + 1])
  }

  predicate AllWords(ws: seq<Text>) {
    forall k :: 0 <= k < |ws| ==> IsWord(ws[k])
  }

  /** A filterable phrase is single-spaced, upper-cased, and has the words of the upper-cased text. */
  lemma FilterablePhraseShape(s: Text)
    ensures var r := FilterablePhrase(Some(s)).value;
      SingleSpaced(r) && NoLower(r) && Runs(r) == Runs(ToUpper(s))
  {
    if s != [] {
      UpperTrimCommute(s);
      RunsOfTrim(ToUpper(s));
      if ToUpper(Trim(s)) == [] {
        assert Join(Words(s)) == [];
      } else {
        WordsShape(s);
      }
    }
  }

  /** The words of a text that is not blank, joined by single spaces. */
  lemma WordsShape(s: Text)
    requires ToUpper(Trim(s)) != []
    ensures var r := Join(Words(s));
      SingleSpaced(r) && NoLower(r) && Runs(r) == Runs(ToUpper(Trim(s)))
  {
    var t := ToUpper(Trim(s));
    var ws := Runs(t);
    assert Words(s) == ws;
    JoinShape(ws);
    RunsOfJoin(ws);
    RunsKeepNoLower(t);
    JoinKeepsNoLower(ws);
  }

  /** Upper-casing and trimming commute, since upper-casing keeps white space. */
  lemma UpperTrimCommute(s: Text)
    ensures ToUpper(Trim(s)) == Trim(ToUpper(s))
  {
    var rest := s[LeadingSpaces(s)..];
    UpperAfterLeading(s);
    UpperBeforeTrailing(rest);
  }

  /** Upper-casing keeps the leading white space and commutes with dropping it. */
  lemma UpperAfterLeading(s: Text)
    ensures LeadingSpaces(ToUpper(s)) == LeadingSpaces(s)
    ensures ToUpper(s)[LeadingSpaces(s)..] == ToUpper(s[LeadingSpaces(s)..])
  {
    var lead := LeadingSpaces(s);
    UpperKeepsLeading(s);
    UpperOfSlice(s, lead, |s|);
    assert s[lead..|s|] == s[lead..];
  }

  /** Upper-casing keeps the trailing white space and commutes with dropping it. */
  lemma UpperBeforeTrailing(s: Text)
    ensures var u := ToUpper(s);
      u[..|u| - TrailingSpaces(u)] == ToUpper(s[..|s| - TrailingSpaces(s)])
  {
    UpperKeepsTrailing(s);
    var keep := |s| - TrailingSpaces(s);
    UpperOfSlice(s, 0, keep);
    assert s[0..keep] == s[..keep];
  }

  lemma UpperKeepsLeading(s: Text)
    ensures LeadingSpaces(ToUpper(s)) == LeadingSpaces(s)
  {
    var u := ToUpper(s);
    var n := LeadingSpaces(s);
    assert forall i :: 0 <= i < n ==> IsJsSpace(u[i]) by {
      forall i | 0 <= i < n ensures IsJsSpace(u[i]) { assert u[i] == Upper(s[i]); }
    }
    assert n < |u| ==> !IsJsSpace(u[n]);
    LeadingSpacesAre(u, n);
  }

  lemma UpperKeepsTrailing(s: Text)
    ensures TrailingSpaces(ToUpper(s)) == TrailingSpaces(s)
  {
    var u := ToUpper(s);
    var n := TrailingSpaces(s);
    assert forall i :: |s| - n <= i < |s| ==> IsJsSpace(u[i]) by {
      forall i | |s| - n <= i < |s| ensures IsJsSpace(u[i]) { assert u[i] == Upper(s[i]); }
    }
    assert n < |u| ==> !IsJsSpace(u[|u| - 1 - n]);
    TrailingSpacesAre(u, n);
  }

  lemma UpperOfSlice(s: Text, a: nat, b: nat)
    requires a <= b <= |s|
    ensures ToUpper(s[a..b]) == ToUpper(s)[a..b]
  {
    var x, y := ToUpper(s[a..b]), ToUpper(s)[a..b];
    assert forall i :: 0 <= i < |x| ==> x[i] == Upper(s[a + i]) == y[i];
  }

  /** The leading white space is determined by where the first other code unit is. */
  lemma LeadingSpacesAre(s: Text, n: nat)
    requires n <= |s| && (n < |s| ==> !IsJsSpace(s[n]))
    requires forall i :: 0 <= i < n ==> IsJsSpace(s[i])
    ensures LeadingSpaces(s) == n
  {
  }

  lemma TrailingSpacesAre(s: Text, n: nat)
    requires n <= |s| && (n < |s| ==> !IsJsSpace(s[|s| - 1 - n]))
    requires forall i :: |s| - n <= i < |s| ==> IsJsSpace(s[i])
    ensures TrailingSpaces(s) == n
  {
  }

  lemma WordLengthIs(s: Text, n: nat)
    requires n <= |s| && (n < |s| ==> IsJsSpace(s[n]))
    requires forall i :: 0 <= i < n ==> !IsJsSpace(s[i])
    ensures WordLength(s) == n
  {
  }

  /** Trimming keeps the words. */
  lemma RunsOfTrim(s: Text)
    ensures Runs(Trim(s)) == Runs(s)
  {
    var lead := LeadingSpaces(s);
    RunsSkipSpaces(s, lead);
    var rest := s[lead..];
    RunsDropSpaces(rest, |rest| - TrailingSpaces(rest));
  }

  lemma {:induction false} RunsSkipSpaces(s: Text, k: nat)
    requires k <= |s| && forall i :: 0 <= i < k ==> IsJsSpace(s[i])
    ensures Runs(s[k..]) == Runs(s)
    decreases k
  {
    if k > 0 {
      assert s[1..][k - 1..] == s[k..];
      RunsSkipSpaces(s[1..], k - 1);
    }
  }

  lemma {:induction false} RunsDropSpaces(s: Text, m: nat)
    requires m <= |s| && forall i :: m <= i < |s| ==> IsJsSpace(s[i])
    ensures Runs(s[..m]) == Runs(s)
    decreases |s|
  {
    if m == |s| {
      assert s[..m] == s;
    } else if m == 0 {
      RunsSkipSpaces(s, |s|);
      assert s[|s|..] == [];
    } else if IsJsSpace(s[0]) {
      assert s[..m][1..] == s[1..][..m - 1];
      RunsDropSpaces(s[1..], m - 1);
    } else {
      var n := WordLength(s);
      assert IsJsSpace(s[m]);
      assert 0 < n <= m;
      WordLengthIs(s[..m], n);
      assert s[..m][..n] == s[..n];
      assert s[..m][n..] == s[n..][..m - n];
      RunsDropSpaces(s[n..], m - n);
    }
  }

  /** A word followed by white space or by nothing: the word is all of the first run. */
  lemma WordLengthOfWord(w: Text, rest: Text)
    requires IsWord(w) && (rest == [] || IsJsSpace(rest[0]))
    ensures WordLength(w + rest) == |w|
  {
    WordLengthIs(w + rest, |w|);
  }

  /** Joining words with single spaces gives a single-spaced text. */
  lemma {:induction false} JoinShape(ws: seq<Text>)
    requires AllWords(ws)
    ensures var r := Join(ws);
      (r == [] <==> ws == []) && SingleSpaced(r)
      && (r != [] ==> !IsJsSpace(r[0]) && !IsJsSpace(r[|r| - 1]))
  {
    if |ws| >= 2 {
      var w := ws[0];
      var rest := Join(ws[1..]);
      JoinShape(ws[1..]);
      assert IsWord(w);
      var r := w + [Space] + rest;
      assert Join(ws) == r;
      forall i | 0 <= i < |r| && IsJsSpace(r[i])
        ensures r[i] == Space && 0 < i < |r| - 1 && !IsJsSpace(r[i - 1]) && !IsJsSpace(r[i + 1])
      {
        if i > |w| {
          assert r[i] == rest[i - |w| - 1];
          if i > |w| + 1 { assert r[i - 1] == rest[i - |w| - 2]; }
          assert r[i + 1] == rest[i - |w|];
        } else {
          assert i == |w|;
          assert r[i + 1] == rest[0];
        }
      }
    }
  }

  /** The words of a joined phrase are the words joined. */
  lemma {:induction false} RunsOfJoin(ws: seq<Text>)
    requires AllWords(ws)
    ensures Runs(Join(ws)) == ws
  {
    if |ws| == 1 {
      WordLengthOfWord(ws[0], []);
      assert ws[0] + [] == ws[0];
      assert ws[0][|ws[0]|..] == [];
    } else if |ws| >= 2 {
      var w := ws[0];
      var tail := [Space] + Join(ws[1..]);
      var r := w + tail;
      assert Join(ws) == r;
      assert IsWord(w);
      WordLengthOfWord(w, tail);
      assert r[..|w|] == w && r[|w|..] == tail;
      assert tail[1..] == Join(ws[1..]);
      RunsOfJoin(ws[1..]);
      assert ws == [w] + ws[1..];
    }
  }

  lemma {:induction false} RunsKeepNoLower(s: Text)
    requires NoLower(s)
    ensures forall k :: 0 <= k < |Runs(s)| ==> NoLower(Runs(s)[k])
    decreases |s|
  {
    if s != [] {
      if IsJsSpace(s[0]) {
        RunsKeepNoLower(s[1..]);
      } else {
        RunsKeepNoLower(s[WordLength(s)..]);
      }
    }
  }

  lemma {:induction false} JoinKeepsNoLower(ws: seq<Text>)
    requires forall k :: 0 <= k < |ws| ==> NoLower(ws[k])
    ensures NoLower(Join(ws))
  {
    if |ws| >= 2 {
      JoinKeepsNoLower(ws[1..]);
      var r := ws[0] + [Space] + Join(ws[1..]);
      assert Join(ws) == r;
      forall i | 0 <= i < |r| ensures !(0x61 <= r[i] <= 0x7A) {
        if i > |ws[0]| { assert r[i] == Join(ws[1..])[i - |ws[0]| - 1]; }
      }
    }
  }

  // ---------------------------------------------------------------------
  // Phrase sets

  /** Every phrase made of one or more adjacent words, joined with single spaces. */
  function Phrases(ws: seq<Text>): set<Text> {
    set a, b | 0 <= a < b <= |ws| :: Join(ws[a..b])
  }

  /** The phrases that start at one of the first `i` words. */
  function PhrasesBefore(ws: seq<Text>, i: nat): set<Text>
    requires i <= |ws|
  {
    set a, b | 0 <= a < i && a < b <= |ws| :: Join(ws[a..b])
  }

  /** The phrases that start at word `i` and end after word `lo`. */
  function PhrasesAt(ws: seq<Text>, i: nat, lo: nat): set<Text>
    requires i <= lo <= |ws|
  {
    set b | lo < b <= |ws| :: Join(ws[i..b])
  }

  /**
   * `stringToFilterablePhraseSet`: each start word, from the longest phrase
   * starting there down to the word itself. A text that is not a string comes
   * back as it is, an empty text gives an empty set.
   */
  method FilterablePhraseSet(s: Option<Text>) returns (r: Option<set<Text>>)
    ensures r.None? <==> s.None?
    ensures s.Some? ==> r.value == if s.value == [] then {} else Phrases(Words(s.value))
  {
    if s.None? {
      return None;
    }
    var result: set<Text> := {};
    var words := Words(s.value);
    if s.value != [] {
      var i := 0;
      while i < |words|
        invariant 0 <= i <= |words|
        invariant result == PhrasesBefore(words, i)
      {
        result := AddPhrasesAt(words, i, result);
        PhrasesBeforeStep(words, i);
        i := i + 1;
      }
      assert PhrasesBefore(words, |words|) == Phrases(words);
    }
    return Some(result);
  }

  /** The inner loop: the phrases starting at word `i`, longest first. */
  method AddPhrasesAt(words: seq<Text>, i: nat, phrases: set<Text>) returns (result: set<Text>)
    requires i < |words|
    ensures result == phrases + PhrasesAt(words, i, i)
  {
    result := phrases;
    var subWords := words[i..];
    PhrasesAtAll(words, i);
    while |subWords| > 1
      invariant 1 <= |subWords| <= |words| - i
      invariant subWords == words[i..i + |subWords|]
      invariant result == phrases + PhrasesAt(words, i, i + |subWords|)
    {
      ghost var lo := i + |subWords|;
      PhrasesAtStep(words, i, lo);
      assert subWords == words[i..lo];
      result := result + {Join(subWords)};
      assert result == phrases + PhrasesAt(words, i, lo - 1);
      subWords := subWords[..|subWords| - 1];
    }
    PhrasesAtStep(words, i, i + 1);
    assert words[i] == Join(words[i..i + 1]);
    result := result + {words[i]};
  }

  lemma PhrasesAtAll(ws: seq<Text>, i: nat)
    requires i <= |ws|
    ensures PhrasesAt(ws, i, |ws|) == {}
  {
  }

  lemma PhrasesAtStep(ws: seq<Text>, i: nat, lo: nat)
    requires i < lo <= |ws|
    ensures PhrasesAt(ws, i, lo - 1) == PhrasesAt(ws, i, lo) + {Join(ws[i..lo])}
  {
    var x := Join(ws[i..lo]);
    assert x in PhrasesAt(ws, i, lo - 1);
  }

  lemma PhrasesBeforeStep(ws: seq<Text>, i: nat)
    requires i < |ws|
    ensures PhrasesBefore(ws, i + 1) == PhrasesBefore(ws, i) + PhrasesAt(ws, i, i)
  {
    forall x | x in PhrasesBefore(ws, i + 1) ensures x in PhrasesBefore(ws, i) + PhrasesAt(ws, i, i) {
      var a, b :| 0 <= a < i + 1 && a < b <= |ws| && x == Join(ws[a..b]);
      if a == i {
        assert x in PhrasesAt(ws, i, i);
      } else {
        assert x in PhrasesBefore(ws, i);
      }
    }
  }

  /**
   * The filterable phrase of a text is in its phrase set and is the longest
   * phrase there.
   */
  lemma PhraseSetHoldsPhrase(s: Text)
    requires s != []
    ensures var phrase := FilterablePhrase(Some(s)).value;
      phrase in Phrases(Words(s)) && forall p :: p in Phrases(Words(s)) ==> |p| <= |phrase|
  {
    var ws := Words(s);
    assert |ws| > 0;
    assert ws[0..|ws|] == ws;
    forall p | p in Phrases(ws) ensures |p| <= |Join(ws)| {
      var a, b :| 0 <= a < b <= |ws| && p == Join(ws[a..b]);
      JoinSliceShorter(ws, a, b);
    }
  }

  /** A text of white space only, unlike the empty text, gives the empty phrase. */
  lemma BlankTextPhraseSet(s: Text)
    requires s != [] && forall i :: 0 <= i < |s| ==> IsJsSpace(s[i])
    ensures Phrases(Words(s)) == {[]}
  {
    LeadingSpacesAre(s, |s|);
    assert Words(s) == [[]];
    var ws := Words(s);
    assert Join(ws[0..1]) == [];
  }

  /** Joining splits at any word boundary. */
  lemma {:induction false} JoinSplit(ws: seq<Text>, k: nat)
    requires 0 < k < |ws|
    ensures Join(ws) == Join(ws[..k]) + [Space] + Join(ws[k..])
    decreases k
  {
    if k > 1 {
      JoinSplit(ws[1..], k - 1);
      JoinSplitStep(ws, k);
    }
  }

  /** The step of `JoinSplit`: the split of the tail, with the first word put back. */
  lemma JoinSplitStep(ws: seq<Text>, k: nat)
    requires 1 < k < |ws|
    requires Join(ws[1..]) == Join(ws[1..][..k - 1]) + [Space] + Join(ws[1..][k - 1..])
    ensures Join(ws) == Join(ws[..k]) + [Space] + Join(ws[k..])
  {
    TailSlices(ws, k);
    SpacedAssoc(ws[0] + [Space], Join(ws[..k][1..]), Join(ws[k..]));
  }

  lemma TailSlices(ws: seq<Text>, k: nat)
    requires 1 < k < |ws|
    ensures ws[1..][..k - 1] == ws[..k][1..] && ws[1..][k - 1..] == ws[k..]
  {
  }

  lemma SpacedAssoc(x: Text, y: Text, z: Text)
    ensures x + (y + [Space] + z) == x + y + [Space] + z
  {
  }

  lemma JoinSliceShorter(ws: seq<Text>, a: nat, b: nat)
    requires a < b <= |ws|
    ensures |Join(ws[a..b])| <= |Join(ws)|
  {
    if a > 0 {
      JoinSplit(ws, a);
    }
    var rest := ws[a..];
    if b - a < |rest| {
      JoinSplit(rest, b - a);
      assert rest[..b - a] == ws[a..b];
    } else {
      assert rest == ws[a..b];
    }
  }

  // ---------------------------------------------------------------------
  // Code points

  predicate IsHighSurrogate(u: int) { 0xD800 <= u <= 0xDBFF }
  predicate IsLowSurrogate(u: int) { 0xDC00 <= u <= 0xDFFF }

  /** `codePointAt`: a surrogate pair is read as one code point, any other unit as itself. */
  function CodePointAt(s: Text, i: nat): (c: int)
    requires i < |s|
    ensures 0 <= c <= 0x10FFFF
    ensures c >= 0x10000 <==> i + 1 < |s| && IsHighSurrogate(s[i]) && IsLowSurrogate(s[i + 1])
    ensures c < 0x10000 ==> c == s[i]
  {
    if i + 1 < |s| && IsHighSurrogate(s[i]) && IsLowSurrogate(s[i + 1]) then
      0x10000 + (s[i] as int - 0xD800) * 0x400 + (s[i + 1] as int - 0xDC00)
    else
      s[i]
  }

  /** `String.fromCodePoint` of one code point. */
  function FromCodePoint(c: int): (r: Text)
    requires 0 <= c <= 0x10FFFF
    ensures 1 <= |r| <= 2 && (|r| == 2 <==> c >= 0x10000)
  {
    if c < 0x10000 then [c]
    else [0xD800 + (c - 0x10000) / 0x400, 0xDC00 + (c - 0x10000) % 0x400]
  }

  predicate CodePoints(cs: seq<int>) {
    forall k :: 0 <= k < |cs| ==> 0 <= cs[k] <= 0x10FFFF
  }

  /** `String.fromCodePoint(...codes)`. */
  function FromCodePoints(cs: seq<int>): Text
    requires CodePoints(cs)
  {
    if cs == [] then [] else FromCodePoints(cs[..|cs| - 1]) + FromCodePoint(cs[|cs| - 1])
  }

  /** How far the scan steps past a code point: two units for one read from a surrogate pair. */
  function Width(code: int): nat {
    if code > 0xFFFF then 2 else 1
  }

  /** The step as written, `code > 65536 ? 2 : 1`, which takes U+10000 for one unit. */
  function WidthAsWritten(code: int): nat {
    if code > 65536 then 2 else 1
  }

  /** Reading a code point and writing it back gives the units it was read from. */
  lemma CodePointRoundTrip(s: Text, i: nat)
    requires i < |s|
    ensures var c := CodePointAt(s, i);
      i + Width(c) <= |s| && FromCodePoint(c) == s[i..i + Width(c)]
  {
    var c := CodePointAt(s, i);
    if c >= 0x10000 {
      var q: int, r: int := s[i] as int - 0xD800, s[i + 1] as int - 0xDC00;
      assert c - 0x10000 == q * 0x400 + r && 0 <= r < 0x400;
      assert (c - 0x10000) / 0x400 == q && (c - 0x10000) % 0x400 == r;
    }
  }

  // ---------------------------------------------------------------------
  // The word scan of `stringToFilterablePhraseMap`

  /** The words found so far, where each starts, and the code points of the word in hand. */
  datatype ScanState = ScanState(words: seq<Text>, starts: seq<nat>, codes: seq<int>, start: nat)

  const NoWords := ScanState([], [], [], 0)

  /** End of a word: the word in hand, if any, joins the words found. */
  function Flush(st: ScanState): (r: ScanState)
    requires CodePoints(st.codes)
    ensures r.codes == []
  {
    if st.codes == [] then st
    else ScanState(st.words + [FromCodePoints(st.codes)], st.starts + [st.start], [], st.start)
  }

  /** The scan loop from unit `index` on, stepping by `Width`, or by `WidthAsWritten` if `asWritten`. */
  function ScanFrom(s: Text, index: nat, st: ScanState, asWritten: bool): (r: ScanState)
    requires CodePoints(st.codes)
    decreases |s| - index
  {
    if index >= |s| then Flush(st)
    else
      var code := CodePointAt(s, index);
      var next := index + if asWritten then WidthAsWritten(code) else Width(code);
      if IsCodePointSpace(code) then ScanFrom(s, next, Flush(st), asWritten)
      else
        var start := if st.codes == [] then index else st.start;
        ScanFrom(s, next, ScanState(st.words, st.starts, st.codes + [code], start), asWritten)
  }

  /** The words of the upper-cased text, split at `isCodePointSpace`, and where each starts. */
  function ScanWords(s: Text): ScanState {
    ScanFrom(ToUpper(s), 0, NoWords, false)
  }

  /** `w` is a word of `t` at unit `at`: there, not empty, and with no white space unit. */
  predicate WordAt(t: Text, at: nat, w: Text) {
    w != [] && at + |w| <= |t| && t[at..at + |w|] == w
    && forall i :: 0 <= i < |w| ==> !IsCodePointSpace(w[i])
  }

  /** The words found lie in `t`, in order, each after the previous one. */
  predicate WordsInOrder(t: Text, words: seq<Text>, starts: seq<nat>) {
    |words| == |starts|
    && (forall k :: 0 <= k < |words| ==> WordAt(t, starts[k], words[k]))
    && (forall k :: 0 < k < |words| ==> starts[k - 1] + |words[k - 1]| <= starts[k])
  }

  /** The last word found ends by `bound`. */
  predicate EndsBy(words: seq<Text>, starts: seq<nat>, bound: nat)
    requires |words| == |starts|
  {
    words != [] ==> starts[|starts| - 1] + |words[|words| - 1]| <= bound
  }

  /** What holds of the scan state at unit `index` of `t`. */
  predicate ScanOk(t: Text, index: nat, st: ScanState) {
    index <= |t| && CodePoints(st.codes) && WordsInOrder(t, st.words, st.starts)
    && if st.codes == [] then EndsBy(st.words, st.starts, index)
       else EndsBy(st.words, st.starts, st.start) && WordAt(t, st.start, FromCodePoints(st.codes))
            && st.start + |FromCodePoints(st.codes)| == index
  }

  /** The scan finds the words of the text, each at the index it records. */
  lemma {:induction false} ScanFinds(t: Text, index: nat, st: ScanState)
    requires ScanOk(t, index, st)
    ensures var r := ScanFrom(t, index, st, false);
      r.codes == [] && WordsInOrder(t, r.words, r.starts)
    decreases |t| - index
  {
    if index >= |t| {
      FlushKeeps(t, index, st);
    } else {
      var code := CodePointAt(t, index);
      var next := index + Width(code);
      CodePointRoundTrip(t, index);
      if IsCodePointSpace(code) {
        FlushKeeps(t, index, st);
        ScanFinds(t, next, Flush(st));
      } else {
        ScanExtends(t, index, st);
        var start := if st.codes == [] then index else st.start;
        ScanFinds(t, next, ScanState(st.words, st.starts, st.codes + [code], start));
      }
    }
  }

  lemma FlushKeeps(t: Text, index: nat, st: ScanState)
    requires ScanOk(t, index, st)
    ensures var r := Flush(st);
      ScanOk(t, index, r) && (index < |t| ==> ScanOk(t, index + Width(CodePointAt(t, index)), r))
  {
  }

  /** A code point that is not white space extends the word in hand. */
  lemma ScanExtends(t: Text, index: nat, st: ScanState)
    requires ScanOk(t, index, st) && index < |t| && !IsCodePointSpace(CodePointAt(t, index))
    ensures var code := CodePointAt(t, index);
      var start := if st.codes == [] then index else st.start;
      ScanOk(t, index + Width(code), ScanState(st.words, st.starts, st.codes + [code], start))
  {
    ExtendWord(t, index, st);
  }

  /** The word in hand, extended by the code point at `index`, is still a word of `t`. */
  lemma ExtendWord(t: Text, index: nat, st: ScanState)
    requires ScanOk(t, index, st) && index < |t| && !IsCodePointSpace(CodePointAt(t, index))
    ensures var code := CodePointAt(t, index);
      var start := if st.codes == [] then index else st.start;
      var cs := st.codes + [code];
      CodePoints(cs) && WordAt(t, start, FromCodePoints(cs)) && start + |FromCodePoints(cs)| == index + Width(code)
  {
    var code := CodePointAt(t, index);
    CodePointWord(t, index);
    FromCodePointsSnoc(st.codes, code);
    if st.codes != [] {
      WordAtExtend(t, st.start, FromCodePoints(st.codes), FromCodePoint(code));
    }
  }

  /** A code point that is not white space is a word of the units it is read from. */
  lemma CodePointWord(t: Text, index: nat)
    requires index < |t| && !IsCodePointSpace(CodePointAt(t, index))
    ensures var code := CodePointAt(t, index);
      WordAt(t, index, FromCodePoint(code)) && |FromCodePoint(code)| == Width(code)
  {
    CodePointRoundTrip(t, index);
    UnitsOfCodePoint(CodePointAt(t, index));
  }

  /** Writing one more code point appends its units. */
  lemma FromCodePointsSnoc(cs: seq<int>, code: int)
    requires CodePoints(cs) && 0 <= code <= 0x10FFFF
    ensures CodePoints(cs + [code])
    ensures FromCodePoints(cs + [code]) == FromCodePoints(cs) + FromCodePoint(code)
    ensures cs == [] ==> FromCodePoints(cs + [code]) == FromCodePoint(code)
  {
    var xs := cs + [code];
    assert xs[..|xs| - 1] == cs;
  }

  /** The units of a code point that is not white space are not white space. */
  lemma UnitsOfCodePoint(code: int)
    requires 0 <= code <= 0x10FFFF && !IsCodePointSpace(code)
    ensures forall i :: 0 <= i < |FromCodePoint(code)| ==> !IsCodePointSpace(FromCodePoint(code)[i])
  {
  }

  lemma WordAtExtend(t: Text, start: nat, w: Text, v: Text)
    requires w == [] || WordAt(t, start, w)
    requires WordAt(t, start + |w|, v)
    ensures WordAt(t, start, w + v)
  {
    var end := start + |w| + |v|;
    assert t[start..end] == t[start..start + |w|] + t[start + |w|..end];
  }

  /** The text U+10000, one surrogate pair. */
  const U10000: Text := [0xD800, 0xDC00]

  /**
   * As written, the scan steps one unit past U+10000, reads the low surrogate
   * on its own, and the word it records for the text U+10000 is three units
   * long.
   */
  lemma ScanAsWrittenSplitsU10000()
    ensures ScanFrom(U10000, 0, NoWords, true).words == [[0xD800, 0xDC00, 0xDC00]]
  {
    AsWrittenFirstStep();
    AsWrittenSecondStep();
    FromCodePointsOfU10000();
    AsWrittenEnd();
  }

  /** As written, the scan ends after unit 1 with the three units it read as one word. */
  lemma AsWrittenEnd()
    requires FromCodePoints([0x10000, 0xDC00]) == [0xD800, 0xDC00, 0xDC00]
    ensures ScanFrom(U10000, 2, ScanState([], [], [0x10000, 0xDC00], 0), true).words == [[0xD800, 0xDC00, 0xDC00]]
  {
  }

  /** As written, U+10000 is read at unit 0 and the scan steps to unit 1. */
  lemma AsWrittenFirstStep()
    ensures ScanFrom(U10000, 0, NoWords, true) == ScanFrom(U10000, 1, ScanState([], [], [0x10000], 0), true)
  {
    assert CodePointAt(U10000, 0) == 0x10000 && WidthAsWritten(0x10000) == 1;
    assert NoWords.codes + [0x10000] == [0x10000];
    ScanStep(U10000, 0, NoWords, true);
  }

  /** As written, the low surrogate at unit 1 is read as a code point of its own. */
  lemma AsWrittenSecondStep()
    ensures ScanFrom(U10000, 1, ScanState([], [], [0x10000], 0), true)
      == ScanFrom(U10000, 2, ScanState([], [], [0x10000, 0xDC00], 0), true)
  {
    var st1 := ScanState([], [], [0x10000], 0);
    assert CodePointAt(U10000, 1) == 0xDC00 && WidthAsWritten(0xDC00) == 1;
    assert st1.codes + [0xDC00] == [0x10000, 0xDC00];
    ScanStep(U10000, 1, st1, true);
  }

  /** With the step corrected, the word recorded for the text U+10000 is the text. */
  lemma ScanReadsU10000()
    ensures ScanFrom(U10000, 0, NoWords, false).words == [U10000]
  {
    var t := U10000;
    assert CodePointAt(t, 0) == 0x10000;
    ScanStep(t, 0, NoWords, false);
    FromCodePointsOfU10000();
  }

  lemma FromCodePointsOfU10000()
    ensures FromCodePoints([0x10000]) == U10000
    ensures FromCodePoints([0x10000, 0xDC00]) == [0xD800, 0xDC00, 0xDC00]
  {
    var one, two := [0x10000], [0x10000, 0xDC00];
    assert one[..0] == [];
    assert two[..1] == one;
  }

  /** One step of the scan over a code point that is not white space. */
  lemma ScanStep(s: Text, index: nat, st: ScanState, asWritten: bool)
    requires CodePoints(st.codes) && index < |s| && !IsCodePointSpace(CodePointAt(s, index))
    ensures var code := CodePointAt(s, index);
      var next := index + if asWritten then WidthAsWritten(code) else Width(code);
      var start := if st.codes == [] then index else st.start;
      ScanFrom(s, index, st, asWritten) == ScanFrom(s, next, ScanState(st.words, st.starts, st.codes + [code], start), asWritten)
  {
  }

  // ---------------------------------------------------------------------
  // Phrase maps

  type PhraseMap = map<Text, seq<nat>>

  /** The entry of a key, or an empty list for a key the map does not have. */
  function Get(m: PhraseMap, k: Text): seq<nat> {
    if k in m then m[k] else []
  }

  /** `_addFilterablePhraseMapEntry`: append `index` to the entry of `k`, making one if need be. */
  function AddEntry(m: PhraseMap, k: Text, index: nat): (r: PhraseMap)
    ensures r.Keys == m.Keys + {k}
  {
    m[k := Get(m, k) + [index]]
  }

  /** The starts, in order, of those of the first `n` words from which phrase `k` starts. */
  function StartsOf(ws: seq<Text>, starts: seq<nat>, k: Text, n: nat): seq<nat>
    requires |starts| == |ws| && n <= |ws|
  {
    if n == 0 then []
    else StartsOf(ws, starts, k, n - 1) + if k in PhrasesAt(ws, n - 1, n - 1) then [starts[n - 1]] else []
  }

  /** The entry of `k` once the phrases starting at word `i` and ending after word `lo` are added. */
  function Expected(ws: seq<Text>, starts: seq<nat>, k: Text, i: nat, lo: nat): seq<nat>
    requires |starts| == |ws| && i <= lo <= |ws| && i < |ws|
  {
    StartsOf(ws, starts, k, i) + if k in PhrasesAt(ws, i, lo) then [starts[i]] else []
  }

  /** Every entry of the map is the list `StartsOf` gives for its key, and no entry is empty. */
  ghost predicate MapHolds(m: PhraseMap, ws: seq<Text>, starts: seq<nat>, n: nat)
    requires |starts| == |ws| && n <= |ws|
  {
    (forall k :: Get(m, k) == StartsOf(ws, starts, k, n)) && forall k :: k in m ==> m[k] != []
  }

  /**
   * `stringToFilterablePhraseMap`: the words of the upper-cased text with
   * their start indices, then each phrase of adjacent words mapped to the
   * starts of the words it begins at. A text that is not a string comes back
   * as it is.
   */
  method FilterablePhraseMap(s: Option<Text>) returns (r: Option<PhraseMap>)
    ensures r.None? <==> s.None?
    ensures s.Some? ==> var sc := ScanWords(s.value);
      |sc.starts| == |sc.words| && MapHolds(r.value, sc.words, sc.starts, |sc.words|)
  {
    if s.None? {
      return None;
    }
    var words, wordIndices := ScanLoop(ToUpper(s.value));
    var result: PhraseMap := map[];
    var i := 0;
    while i < |words|
      invariant i <= |words|
      invariant MapHolds(result, words, wordIndices, i)
    {
      result := AddEntriesAt(words, wordIndices, i, result);
      i := i + 1;
    }
    return Some(result);
  }

  /** The scan loop of `stringToFilterablePhraseMap`, with the step corrected. */
  method ScanLoop(t: Text) returns (words: seq<Text>, wordIndices: seq<nat>)
    ensures words == ScanFrom(t, 0, NoWords, false).words
    ensures wordIndices == ScanFrom(t, 0, NoWords, false).starts
    ensures |wordIndices| == |words|
  {
    ScanFinds(t, 0, NoWords);
    words, wordIndices := [], [];
    var currentCodes: seq<int> := [];
    var startIndex: nat := 0;
    var index: nat := 0;
    while index < |t|
      invariant CodePoints(currentCodes)
      invariant ScanFrom(t, index, ScanState(words, wordIndices, currentCodes, startIndex), false)
        == ScanFrom(t, 0, NoWords, false)
      decreases |t| - index
    {
      var code := CodePointAt(t, index);
      var nextIndex := index + Width(code);
      if IsCodePointSpace(code) {
        if currentCodes != [] {
          words := words + [FromCodePoints(currentCodes)];
          wordIndices := wordIndices + [startIndex];
          currentCodes := [];
        }
        index := nextIndex;
        continue;
      }
      if currentCodes == [] {
        startIndex := index;
      }
      currentCodes := currentCodes + [code];
      index := nextIndex;
    }
    if currentCodes != [] {
      words := words + [FromCodePoints(currentCodes)];
      wordIndices := wordIndices + [startIndex];
    }
  }

  /** The inner loop: the entries for the phrases starting at word `i`, longest first. */
  method AddEntriesAt(words: seq<Text>, starts: seq<nat>, i: nat, m: PhraseMap) returns (result: PhraseMap)
    requires |starts| == |words| && i < |words|
    requires MapHolds(m, words, starts, i)
    ensures MapHolds(result, words, starts, i + 1)
  {
    result := m;
    // `subWords` is `words[i..lo]`; each round drops its last word.
    var lo := |words|;
    EntriesBefore(words, starts, i, m);
    while lo > i + 1
      invariant i < lo <= |words|
      invariant EntriesPending(result, words, starts, i, lo)
    {
      ghost var before := result;
      result := AddEntry(result, Join(words[i..lo]), starts[i]);
      EntryKeepsPending(words, starts, i, lo, before, result);
      lo := lo - 1;
    }
    ghost var before := result;
    assert words[i] == Join(words[i..i + 1]);
    result := AddEntry(result, words[i], starts[i]);
    LastEntry(words, starts, i, before, result);
  }

  /**
   * While the phrases of words `i` up to `lo` and beyond are added: every
   * entry is the one `Expected` gives, and no entry is empty.
   */
  ghost predicate EntriesPending(m: PhraseMap, ws: seq<Text>, starts: seq<nat>, i: nat, lo: nat)
    requires |starts| == |ws| && i < lo <= |ws|
  {
    (forall k :: Get(m, k) == Expected(ws, starts, k, i, lo)) && forall k :: k in m ==> m[k] != []
  }

  /** Before any phrase starting at word `i` is added, the entries are those of the first `i` words. */
  lemma EntriesBefore(ws: seq<Text>, starts: seq<nat>, i: nat, m: PhraseMap)
    requires |starts| == |ws| && i < |ws| && MapHolds(m, ws, starts, i)
    ensures EntriesPending(m, ws, starts, i, |ws|)
  {
    PhrasesAtAll(ws, i);
  }

  /** Adding the phrase of words `i` up to `lo` appends the start of word `i` to its entry alone. */
  lemma EntryStep(ws: seq<Text>, starts: seq<nat>, i: nat, lo: nat, m: PhraseMap, m': PhraseMap)
    requires |starts| == |ws| && i < lo <= |ws|
    requires EntriesPending(m, ws, starts, i, lo)
    requires m' == AddEntry(m, Join(ws[i..lo]), starts[i])
    ensures forall k :: Get(m', k) == Expected(ws, starts, k, i, lo - 1)
  {
    var key := Join(ws[i..lo]);
    NewPhrase(ws, i, lo);
    forall k ensures Get(m', k) == Expected(ws, starts, k, i, lo - 1) {
      if k == key {
        assert Get(m', k) == Get(m, k) + [starts[i]];
      } else {
        assert Get(m', k) == Get(m, k);
        assert k in PhrasesAt(ws, i, lo - 1) <==> k in PhrasesAt(ws, i, lo);
      }
    }
  }

  /** The step of the inner loop keeps its invariant. */
  lemma EntryKeepsPending(ws: seq<Text>, starts: seq<nat>, i: nat, lo: nat, m: PhraseMap, m': PhraseMap)
    requires |starts| == |ws| && i + 1 < lo <= |ws|
    requires EntriesPending(m, ws, starts, i, lo)
    requires m' == AddEntry(m, Join(ws[i..lo]), starts[i])
    ensures EntriesPending(m', ws, starts, i, lo - 1)
  {
    EntryStep(ws, starts, i, lo, m, m');
  }

  /** The phrase of words `i` up to `lo` is not one of the longer phrases from word `i`. */
  lemma NewPhrase(ws: seq<Text>, i: nat, lo: nat)
    requires i < lo <= |ws|
    ensures Join(ws[i..lo]) !in PhrasesAt(ws, i, lo)
    ensures PhrasesAt(ws, i, lo - 1) == PhrasesAt(ws, i, lo) + {Join(ws[i..lo])}
  {
    PhrasesAtStep(ws, i, lo);
    forall b | lo < b <= |ws| ensures Join(ws[i..b]) != Join(ws[i..lo]) {
      JoinLonger(ws, i, lo, b);
    }
  }

  /** Adding word `i` itself completes the entries of the first `i + 1` words. */
  lemma LastEntry(ws: seq<Text>, starts: seq<nat>, i: nat, m: PhraseMap, m': PhraseMap)
    requires |starts| == |ws| && i < |ws|
    requires EntriesPending(m, ws, starts, i, i + 1)
    requires m' == AddEntry(m, Join(ws[i..i + 1]), starts[i])
    ensures MapHolds(m', ws, starts, i + 1)
  {
    EntryStep(ws, starts, i, i + 1, m, m');
    EntriesAfterWord(ws, starts, i, m');
  }

  /** Once every phrase starting at word `i` is added, the entries are those of the first `i + 1` words. */
  lemma EntriesAfterWord(ws: seq<Text>, starts: seq<nat>, i: nat, m: PhraseMap)
    requires |starts| == |ws| && i < |ws|
    requires forall k :: Get(m, k) == Expected(ws, starts, k, i, i)
    ensures forall k :: Get(m, k) == StartsOf(ws, starts, k, i + 1)
  {
  }

  /** A phrase with more words is longer. */
  lemma JoinLonger(ws: seq<Text>, i: nat, b1: nat, b2: nat)
    requires i < b1 < b2 <= |ws|
    ensures |Join(ws[i..b1])| < |Join(ws[i..b2])|
  {
    var run := ws[i..b2];
    JoinSplit(run, b1 - i);
    assert run[..b1 - i] == ws[i..b1];
  }

  /** Each element is larger than the one before. */
  predicate Ascending(xs: seq<nat>) {
    forall k :: 0 < k < |xs| ==> xs[k - 1] < xs[k]
  }

  lemma {:induction false} AscendingOrders(xs: seq<nat>, a: nat, b: nat)
    requires Ascending(xs) && a < b < |xs|
    ensures xs[a] < xs[b]
    decreases b - a
  {
    if a + 1 < b {
      AscendingOrders(xs, a + 1, b);
    }
  }

  /**
   * The entry of phrase `k` lists, in ascending order, the start of every
   * word among the first `n` from which `k` starts, and nothing else.
   */
  lemma StartsOfShape(ws: seq<Text>, starts: seq<nat>, k: Text, n: nat)
    requires |starts| == |ws| && n <= |ws| && Ascending(starts)
    ensures Ascending(StartsOf(ws, starts, k, n))
    ensures forall x :: x in StartsOf(ws, starts, k, n) <==>
      exists a :: 0 <= a < n && starts[a] == x && k in PhrasesAt(ws, a, a)
  {
    StartsOfAscending(ws, starts, k, n);
    StartsOfMembers(ws, starts, k, n);
  }

  lemma {:induction false} StartsOfMembers(ws: seq<Text>, starts: seq<nat>, k: Text, n: nat)
    requires |starts| == |ws| && n <= |ws|
    ensures forall x :: x in StartsOf(ws, starts, k, n) <==>
      exists a :: 0 <= a < n && starts[a] == x && k in PhrasesAt(ws, a, a)
    decreases n
  {
    if n > 0 {
      StartsOfMembers(ws, starts, k, n - 1);
    }
  }

  lemma {:induction false} StartsOfAscending(ws: seq<Text>, starts: seq<nat>, k: Text, n: nat)
    requires |starts| == |ws| && n <= |ws| && Ascending(starts)
    ensures Ascending(StartsOf(ws, starts, k, n))
    decreases n
  {
    if n > 0 {
      StartsOfAscending(ws, starts, k, n - 1);
      StartsOfMembers(ws, starts, k, n - 1);
      var before := StartsOf(ws, starts, k, n - 1);
      forall x | x in before ensures x < starts[n - 1] {
        var a :| 0 <= a < n - 1 && starts[a] == x && k in PhrasesAt(ws, a, a);
        AscendingOrders(starts, a, n - 1);
      }
      if k in PhrasesAt(ws, n - 1, n - 1) {
        assert before != [] ==> before[|before| - 1] in before;
      }
    }
  }

  /** A phrase has an entry exactly when it is a phrase of the words. */
  lemma StartsOfEmpty(ws: seq<Text>, starts: seq<nat>, k: Text)
    requires |starts| == |ws|
    ensures StartsOf(ws, starts, k, |ws|) != [] <==> k in Phrases(ws)
  {
    StartsOfMembers(ws, starts, k, |ws|);
    var e := StartsOf(ws, starts, k, |ws|);
    if k in Phrases(ws) {
      var a, b :| 0 <= a < b <= |ws| && k == Join(ws[a..b]);
      assert k in PhrasesAt(ws, a, a);
      assert starts[a] in e;
    }
    if e != [] {
      assert e[0] in e;
      var a :| 0 <= a < |ws| && starts[a] == e[0] && k in PhrasesAt(ws, a, a);
    }
  }

  /** The words the scan records are in order, so their starts ascend. */
  lemma ScanStartsAscend(t: Text)
    ensures var sc := ScanFrom(t, 0, NoWords, false);
      WordsInOrder(t, sc.words, sc.starts) && Ascending(sc.starts)
  {
    ScanFinds(t, 0, NoWords);
  }

  /** Phrase `k` begins at a word starting at unit `x`. */
  predicate OccursAt(ws: seq<Text>, starts: seq<nat>, k: Text, x: nat)
    requires |starts| == |ws|
  {
    exists a, b :: 0 <= a < b <= |ws| && starts[a] == x && k == Join(ws[a..b])
  }

  /**
   * What the phrase map of a text holds: each word of the upper-cased text
   * at the index recorded for it; as keys, exactly the phrases of adjacent
   * words.
   */
  lemma PhraseMapKeys(s: Text, m: PhraseMap)
    requires var sc := ScanWords(s); |sc.starts| == |sc.words| && MapHolds(m, sc.words, sc.starts, |sc.words|)
    ensures var sc := ScanWords(s);
      WordsInOrder(ToUpper(s), sc.words, sc.starts) && m.Keys == Phrases(sc.words)
  {
    var sc := ScanWords(s);
    ScanStartsAscend(ToUpper(s));
    forall k ensures k in m <==> k in Phrases(sc.words) {
      StartsOfEmpty(sc.words, sc.starts, k);
      assert Get(m, k) == StartsOf(sc.words, sc.starts, k, |sc.words|);
    }
  }

  /**
   * The entry of a phrase in the phrase map of a text lists, in ascending
   * order, the start of every word the phrase begins at.
   */
  lemma PhraseMapEntry(s: Text, m: PhraseMap, k: Text)
    requires var sc := ScanWords(s); |sc.starts| == |sc.words| && MapHolds(m, sc.words, sc.starts, |sc.words|)
    requires k in m
    ensures var sc := ScanWords(s);
      Ascending(m[k]) && forall x :: x in m[k] <==> OccursAt(sc.words, sc.starts, k, x)
  {
    var sc := ScanWords(s);
    var ws, starts := sc.words, sc.starts;
    ScanStartsAscend(ToUpper(s));
    assert m[k] == Get(m, k) == StartsOf(ws, starts, k, |ws|);
    StartsOfShape(ws, starts, k, |ws|);
    forall x ensures x in m[k] <==> OccursAt(ws, starts, k, x) {
      if x in m[k] {
        var a :| 0 <= a < |ws| && starts[a] == x && k in PhrasesAt(ws, a, a);
        var b :| a < b <= |ws| && k == Join(ws[a..b]);
      }
      if OccursAt(ws, starts, k, x) {
        var a, b :| 0 <= a < b <= |ws| && starts[a] == x && k == Join(ws[a..b]);
        assert k in PhrasesAt(ws, a, a);
      }
    }
  }

  // ---------------------------------------------------------------------
  // Filter specs

  const OpenParen: CodeUnit := 0x28
  const CloseParen: CodeUnit := 0x29
  const DoubleQuote: CodeUnit := 0x22
  const Backslash: CodeUnit := 0x5C
  const Minus: CodeUnit := 0x2D

  /** The word OR. */
  const OrWord: Text := [0x4F, 0x52]

  /** The word is OR. */
  predicate IsOrWord(w: Text) {
    |w| == 2 && w[0] == 0x4F && w[1] == 0x52
  }

  /** A compiled filter: the test a filter spec stands for. */
  datatype Test =
    | Always                          // an empty spec, or an empty group
    | Has(word: Text)                 // the phrase is one of those of the text
    | Not(negated: Test)
    | All(tests: seq<Test>)           // every test passes
    | Any(first: Test, second: Test)  // one of the two passes

  /**
   * Whether a filterable phrase passes a test. The phrase is the set of
   * phrases of a text (the keys of a phrase map will do as well), or nothing.
   */
  function Eval(t: Test, phrase: Option<set<Text>>): bool {
    match t
    case Always => true
    case Has(word) => phrase.Some? && word in phrase.value
    case Not(u) => !Eval(u, phrase)
    case All(ts) => forall i | 0 <= i < |ts| :: Eval(ts[i], phrase)
    case Any(a, b) => Eval(a, phrase) || Eval(b, phrase)
  }

  /**
   * The state of one level of the parse: the tests so far, a pending NOT or
   * OR, the code points of the word in hand, and whether the next code point
   * is escaped or inside double quotes.
   */
  datatype Parser = Parser(tests: seq<Test>, isNot: bool, isOR: bool, chars: seq<int>, escape: bool, quoted: bool)

  const NewParser := Parser([], false, false, [], false, false)

  /**
   * `_addTest`: a pending NOT negates the test; a pending OR replaces every
   * test so far (ANDed) by that conjunction OR the new test. As written, the
   * OR takes the test from before the negation, dropping a pending NOT.
   */
  function AddTest(p: Parser, test: Test, asWritten: bool): (r: Parser)
    ensures !r.isNot && !r.isOR && r.chars == p.chars && r.escape == p.escape && r.quoted == p.quoted
    ensures |r.tests| >= 1
  {
    var t := if p.isNot then Not(test) else test;
    if p.isOR && |p.tests| > 0 then
      var previous := if |p.tests| > 1 then All(p.tests) else p.tests[0];
      p.(tests := [Any(previous, if asWritten then test else t)], isNot := false, isOR := false)
    else
      p.(tests := p.tests + [t], isNot := false, isOR := false)
  }

  /**
   * `_handleEndOfWord`: the word in hand, if any, becomes a test that the
   * phrase has it, except that the unquoted word OR sets a pending OR, and
   * only once there is a test before it.
   */
  function EndOfWord(p: Parser, quoted: bool, asWritten: bool): (r: Parser)
    requires CodePoints(p.chars)
    ensures r.chars == [] && r.escape == p.escape && r.quoted == p.quoted
  {
    if p.chars == [] then p
    else
      var word := ToUpper(FromCodePoints(p.chars));
      var q := p.(chars := []);
      if !quoted && IsOrWord(word) then (if |q.tests| > 0 then q.(isOR := true) else q)
      else AddTest(q, Has(word), asWritten)
  }

  /** The test of a level: its one test, all of its tests, or a test that always passes. */
  function Finish(tests: seq<Test>): (r: Test)
    ensures |tests| == 1 ==> r == tests[0]
    ensures tests == [] ==> r == Always
  {
    if |tests| == 1 then tests[0] else if |tests| > 1 then All(tests) else Always
  }

  /**
   * One code point of the loop of `_parseFilterSpec`, other than a closing
   * parenthesis that ends a group and an opening one that starts a group.
   */
  function Step(p: Parser, code: int, asWritten: bool): (r: Parser)
    requires CodePoints(p.chars) && 0 <= code <= 0x10FFFF
    ensures CodePoints(r.chars)
  {
    if p.escape then p.(chars := p.chars + [code], escape := false)
    else if p.quoted then
      if code == DoubleQuote then EndOfWord(p.(quoted := false), true, asWritten)
      else p.(chars := p.chars + [code])
    else if IsCodePointSpace(code) then EndOfWord(p, false, asWritten)
    else if code == Backslash then p.(escape := true)
    else if code == DoubleQuote then p.(quoted := true)
    else if code == Minus then p.(isNot := true)
    else p.(chars := p.chars + [code])
  }

  /** The code point starts a group: an opening parenthesis at the start of a word. */
  predicate OpensGroup(p: Parser, code: int) {
    !p.escape && !p.quoted && code == OpenParen && p.chars == []
  }

  /** The code point ends the group being parsed. */
  predicate ClosesGroup(p: Parser, code: int, nested: bool) {
    !p.escape && !p.quoted && nested && code == CloseParen
  }

  /**
   * `_parseFilterSpec` from unit `index` on: a group (`nested`) ends at its
   * closing parenthesis, the spec at its end. The result is the test and the
   * index the parse stopped at.
   */
  function ParseFrom(spec: Text, index: nat, nested: bool, p: Parser, asWritten: bool): (r: (Test, nat))
    requires CodePoints(p.chars)
    ensures r.1 >= index
    decreases |spec| - index, 1
  {
    ParseRound(spec, index, nested, p, asWritten)
  }

  /**
   * One round of the loop of `_parseFilterSpec`: the end of the spec, or the
   * code point at `index` and then the rest.
   */
  function ParseRound(spec: Text, index: nat, nested: bool, p: Parser, asWritten: bool): (r: (Test, nat))
    requires CodePoints(p.chars)
    ensures r.1 >= index
    decreases |spec| - index, 0
  {
    if index >= |spec| then (Finish(EndOfWord(p, false, asWritten).tests), index)
    else
      var code := CodePointAt(spec, index);
      var next := index + if asWritten then WidthAsWritten(code) else Width(code);
      if ClosesGroup(p, code, nested) then (Finish(EndOfWord(p, false, asWritten).tests), next)
      else if OpensGroup(p, code) then
        var (inner, after) := ParseFrom(spec, next, true, NewParser, asWritten);
        ParseFrom(spec, after, nested, AddTest(p, inner, asWritten), asWritten)
      else ParseFrom(spec, next, nested, Step(p, code, asWritten), asWritten)
  }

  /** The compiled test of a spec that is already trimmed and upper-cased. */
  function ParseText(spec: Text): Test {
    ParseFrom(spec, 0, false, NewParser, false).0
  }

  /** The same, as written. */
  function ParseTextAsWritten(spec: Text): Test {
    ParseFrom(spec, 0, false, NewParser, true).0
  }

  /**
   * `_parseFilterSpec`, with the step over a code point and the OR of a
   * negated test corrected. `p` holds the level's `state` together with its
   * word in hand and its escape and quote flags.
   */
  method ParseFilterSpec(spec: Text, start: nat, nested: bool) returns (test: Test, end: nat)
    ensures (test, end) == ParseFrom(spec, start, nested, NewParser, false)
    decreases |spec| - start
  {
    var p := NewParser;
    var index := start;
    while index < |spec|
      invariant start <= index && CodePoints(p.chars)
      invariant ParseFrom(spec, index, nested, p, false) == ParseFrom(spec, start, nested, NewParser, false)
      decreases |spec| - index
    {
      var code := CodePointAt(spec, index);
      var nextIndex := index + Width(code);
      if ClosesGroup(p, code, nested) {
        p := EndOfWord(p, false, false);
        return Finish(p.tests), nextIndex;
      } else if OpensGroup(p, code) {
        var inner, after := ParseFilterSpec(spec, nextIndex, true);
        p := AddTest(p, inner, false);
        nextIndex := after;
      } else {
        p := ApplyCode(p, code);
      }
      index := nextIndex;
    }
    p := EndOfWord(p, false, false);
    return Finish(p.tests), index;
  }

  /**
   * The body of the loop of `_parseFilterSpec` for a code point that neither
   * opens nor closes a group.
   */
  method ApplyCode(p: Parser, code: int) returns (q: Parser)
    requires CodePoints(p.chars) && 0 <= code <= 0x10FFFF
    ensures q == Step(p, code, false)
  {
    if p.escape {
      q := p.(chars := p.chars + [code], escape := false);
    } else if p.quoted {
      if code == DoubleQuote {
        q := EndOfWord(p.(quoted := false), true, false);
      } else {
        q := p.(chars := p.chars + [code]);
      }
    } else if IsCodePointSpace(code) {
      q := EndOfWord(p, false, false);
    } else if code == Backslash {
      q := p.(escape := true);
    } else if code == DoubleQuote {
      q := p.(quoted := true);
    } else if code == Minus {
      q := p.(isNot := true);
    } else {
      q := p.(chars := p.chars + [code]);
    }
  }

  /** `compileFilterSpec`: the spec is trimmed and upper-cased, then parsed. */
  method CompileFilterSpec(filterSpec: Text) returns (test: Test)
    ensures test == ParseText(ToUpper(Trim(filterSpec)))
  {
    var end;
    test, end := ParseFilterSpec(ToUpper(Trim(filterSpec)), 0, false);
  }

  // ---------------------------------------------------------------------
  // What a filter spec means

  /** `run` is in `text` at unit `at`. */
  predicate At(text: Text, at: nat, run: Text) {
    at + |run| <= |text| && forall k :: at <= k < at + |run| ==> text[k] == run[k - at]
  }

  /** Both parts of a text are in it. */
  lemma AtAppend(a: Text, b: Text)
    ensures At(a + b, 0, a) && At(a + b, |a|, b)
  {
  }

  /** A code unit that stands for itself in a spec, outside quotes, and is already upper-case. */
  predicate IsPlain(u: int) {
    0 <= u < 0x10000 && !IsCodePointSpace(u) && !IsHighSurrogate(u) && !(0x61 <= u <= 0x7A)
    && u != Backslash && u != DoubleQuote && u != OpenParen && u != CloseParen && u != Minus
  }

  /** A word of plain code units. */
  predicate PlainWord(w: Text) {
    w != [] && forall i :: 0 <= i < |w| ==> IsPlain(w[i])
  }

  predicate PlainWords(ws: seq<Text>) {
    forall k :: 0 <= k < |ws| ==> PlainWord(ws[k])
  }

  /** Plain words that are not the word OR: each stands for a test of its own. */
  predicate TestWords(ws: seq<Text>) {
    PlainWords(ws) && forall k :: 0 <= k < |ws| ==> !IsOrWord(ws[k])
  }

  /** The state after the words `ws`, each ended by white space, from `p` on. */
  function AddWords(p: Parser, ws: seq<Text>, asWritten: bool): (r: Parser)
    requires CodePoints(p.chars)
    ensures r.escape == p.escape && r.quoted == p.quoted && (ws != [] ==> r.chars == [])
    ensures CodePoints(r.chars)
  {
    if ws == [] then p
    else EndOfWord(AddWords(p, ws[..|ws| - 1], asWritten).(chars := ws[|ws| - 1]), false, asWritten)
  }

  /** A word without lower-case letters reads back as itself. */
  lemma PlainWordReads(w: Text)
    requires forall i :: 0 <= i < |w| ==> !(0x61 <= w[i] <= 0x7A)
    ensures ToUpper(FromCodePoints(w)) == w
  {
    BmpCodePoints(w);
    assert forall i :: 0 <= i < |w| ==> Upper(w[i]) == w[i];
  }

  /** Code points below U+10000 are written as one unit each. */
  lemma {:induction false} BmpCodePoints(w: Text)
    ensures FromCodePoints(w) == w
  {
    if w != [] {
      var init := w[..|w| - 1];
      BmpCodePoints(init);
      assert w == init + [w[|w| - 1]];
    }
  }

  /** A plain code unit outside quotes is pushed onto the word in hand. */
  lemma ParsePlain(spec: Text, index: nat, nested: bool, p: Parser, asWritten: bool)
    requires index < |spec| && IsPlain(spec[index])
    requires CodePoints(p.chars) && !p.escape && !p.quoted
    ensures ParseFrom(spec, index, nested, p, asWritten)
      == ParseFrom(spec, index + 1, nested, p.(chars := p.chars + [spec[index]]), asWritten)
  {
    assert CodePointAt(spec, index) == spec[index];
    assert ParseFrom(spec, index, nested, p, asWritten) == ParseRound(spec, index, nested, p, asWritten);
  }

  /** White space outside quotes ends the word in hand. */
  lemma ParseSpace(spec: Text, index: nat, nested: bool, p: Parser, asWritten: bool)
    requires index < |spec| && spec[index] == Space
    requires CodePoints(p.chars) && !p.escape && !p.quoted
    ensures ParseFrom(spec, index, nested, p, asWritten)
      == ParseFrom(spec, index + 1, nested, EndOfWord(p, false, asWritten), asWritten)
  {
    assert CodePointAt(spec, index) == Space;
    assert ParseFrom(spec, index, nested, p, asWritten) == ParseRound(spec, index, nested, p, asWritten);
  }

  /** At the end of the spec the word in hand is ended and the level's test made. */
  lemma ParseEnd(spec: Text, index: nat, nested: bool, p: Parser, asWritten: bool)
    requires index >= |spec| && CodePoints(p.chars)
    ensures ParseFrom(spec, index, nested, p, asWritten) == (Finish(EndOfWord(p, false, asWritten).tests), index)
  {
    assert ParseFrom(spec, index, nested, p, asWritten) == ParseRound(spec, index, nested, p, asWritten);
  }

  /** A closing parenthesis in a group ends the word in hand and the group. */
  lemma ParseClose(spec: Text, index: nat, p: Parser, asWritten: bool)
    requires index < |spec| && spec[index] == CloseParen
    requires CodePoints(p.chars) && !p.escape && !p.quoted
    ensures ParseFrom(spec, index, true, p, asWritten) == (Finish(EndOfWord(p, false, asWritten).tests), index + 1)
  {
    assert CodePointAt(spec, index) == CloseParen;
    assert ParseFrom(spec, index, true, p, asWritten) == ParseRound(spec, index, true, p, asWritten);
  }

  /** A minus sign outside quotes sets a pending NOT. */
  lemma ParseMinus(spec: Text, index: nat, nested: bool, p: Parser, asWritten: bool)
    requires index < |spec| && spec[index] == Minus
    requires CodePoints(p.chars) && !p.escape && !p.quoted
    ensures ParseFrom(spec, index, nested, p, asWritten)
      == ParseFrom(spec, index + 1, nested, p.(isNot := true), asWritten)
  {
    assert CodePointAt(spec, index) == Minus;
    assert ParseFrom(spec, index, nested, p, asWritten) == ParseRound(spec, index, nested, p, asWritten);
  }

  /** A double quote outside quotes opens a quoted word. */
  lemma ParseOpenQuote(spec: Text, index: nat, nested: bool, p: Parser, asWritten: bool)
    requires index < |spec| && spec[index] == DoubleQuote
    requires CodePoints(p.chars) && !p.escape && !p.quoted
    ensures ParseFrom(spec, index, nested, p, asWritten)
      == ParseFrom(spec, index + 1, nested, p.(quoted := true), asWritten)
  {
    assert CodePointAt(spec, index) == DoubleQuote;
    assert ParseFrom(spec, index, nested, p, asWritten) == ParseRound(spec, index, nested, p, asWritten);
  }

  /** A double quote inside quotes ends the quoted word, which is never the operator OR. */
  lemma ParseCloseQuote(spec: Text, index: nat, nested: bool, p: Parser, asWritten: bool)
    requires index < |spec| && spec[index] == DoubleQuote
    requires CodePoints(p.chars) && !p.escape && p.quoted
    ensures ParseFrom(spec, index, nested, p, asWritten)
      == ParseFrom(spec, index + 1, nested, EndOfWord(p.(quoted := false), true, asWritten), asWritten)
  {
    assert CodePointAt(spec, index) == DoubleQuote;
    assert ParseFrom(spec, index, nested, p, asWritten) == ParseRound(spec, index, nested, p, asWritten);
  }

  /** A code unit that stands for itself inside quotes, already upper-case. */
  predicate IsQuotable(u: int) {
    0 <= u < 0x10000 && !IsHighSurrogate(u) && u != DoubleQuote && !(0x61 <= u <= 0x7A)
  }

  /** Inside quotes every code unit but a double quote is pushed onto the word in hand. */
  lemma {:induction false} ParseQuoted(spec: Text, index: nat, t: Text, nested: bool, p: Parser, asWritten: bool)
    requires At(spec, index, t) && forall i :: 0 <= i < |t| ==> IsQuotable(t[i])
    requires CodePoints(p.chars) && !p.escape && p.quoted
    ensures ParseFrom(spec, index, nested, p, asWritten)
      == ParseFrom(spec, index + |t|, nested, p.(chars := p.chars + t), asWritten)
    decreases |t|
  {
    if t == [] {
      assert p.chars + t == p.chars;
    } else {
      var q := p.(chars := p.chars + [t[0]]);
      assert At(spec, index + 1, t[1..]);
      ParseQuotedUnit(spec, index, nested, p, asWritten);
      ParseQuoted(spec, index + 1, t[1..], nested, q, asWritten);
      assert q.chars + t[1..] == p.chars + t;
    }
  }

  lemma ParseQuotedUnit(spec: Text, index: nat, nested: bool, p: Parser, asWritten: bool)
    requires index < |spec| && IsQuotable(spec[index])
    requires CodePoints(p.chars) && !p.escape && p.quoted
    ensures ParseFrom(spec, index, nested, p, asWritten)
      == ParseFrom(spec, index + 1, nested, p.(chars := p.chars + [spec[index]]), asWritten)
  {
    assert CodePointAt(spec, index) == spec[index];
    assert ParseFrom(spec, index, nested, p, asWritten) == ParseRound(spec, index, nested, p, asWritten);
  }

  /**
   * An opening parenthesis at the start of a word parses a group up to its
   * closing parenthesis; the group's test is added to the level.
   */
  lemma ParseGroup(spec: Text, index: nat, nested: bool, p: Parser, asWritten: bool)
    requires index < |spec| && spec[index] == OpenParen
    requires CodePoints(p.chars) && !p.escape && !p.quoted && p.chars == []
    ensures var (inner, after) := ParseFrom(spec, index + 1, true, NewParser, asWritten);
      ParseFrom(spec, index, nested, p, asWritten) == ParseFrom(spec, after, nested, AddTest(p, inner, asWritten), asWritten)
  {
    assert CodePointAt(spec, index) == OpenParen;
    assert ParseFrom(spec, index, nested, p, asWritten) == ParseRound(spec, index, nested, p, asWritten);
  }

  /** A code unit of plain words separated by spaces. */
  predicate PlainOrSpace(u: int) {
    IsPlain(u) || u == Space
  }

  /**
   * The state after the code units `t`, plain ones and spaces, outside
   * quotes: a space ends the word in hand, a plain unit is pushed onto it.
   */
  function ReadPlain(p: Parser, t: Text, asWritten: bool): (r: Parser)
    requires CodePoints(p.chars)
    ensures r.escape == p.escape && r.quoted == p.quoted && CodePoints(r.chars)
  {
    if t == [] then p
    else
      var r := ReadPlain(p, t[..|t| - 1], asWritten);
      var u := t[|t| - 1];
      if u == Space then EndOfWord(r, false, asWritten) else r.(chars := r.chars + [u])
  }

  /** Plain code units and spaces are parsed as `ReadPlain` says. */
  lemma {:induction false} ParseUnits(spec: Text, index: nat, t: Text, nested: bool, p: Parser, asWritten: bool)
    requires At(spec, index, t) && forall i :: 0 <= i < |t| ==> PlainOrSpace(t[i])
    requires CodePoints(p.chars) && !p.escape && !p.quoted
    ensures ParseFrom(spec, index, nested, p, asWritten)
      == ParseFrom(spec, index + |t|, nested, ReadPlain(p, t, asWritten), asWritten)
    decreases |t|
  {
    if t != [] {
      var init := t[..|t| - 1];
      assert At(spec, index, init);
      ParseUnits(spec, index, init, nested, p, asWritten);
      ParseLastUnit(spec, index, t, nested, p, asWritten);
    }
  }

  /** The last of the code units `t` moves the parse one unit on. */
  lemma ParseLastUnit(spec: Text, index: nat, t: Text, nested: bool, p: Parser, asWritten: bool)
    requires t != [] && At(spec, index, t) && PlainOrSpace(t[|t| - 1])
    requires CodePoints(p.chars) && !p.escape && !p.quoted
    ensures ParseFrom(spec, index + |t| - 1, nested, ReadPlain(p, t[..|t| - 1], asWritten), asWritten)
      == ParseFrom(spec, index + |t|, nested, ReadPlain(p, t, asWritten), asWritten)
  {
    var r := ReadPlain(p, t[..|t| - 1], asWritten);
    var at := index + |t| - 1;
    assert spec[at] == t[|t| - 1];
    if t[|t| - 1] == Space {
      ParseSpace(spec, at, nested, r, asWritten);
    } else {
      ParsePlain(spec, at, nested, r, asWritten);
    }
  }

  /** Reading two runs one after the other. */
  lemma {:induction false} ReadAppend(p: Parser, a: Text, b: Text, asWritten: bool)
    requires CodePoints(p.chars)
    ensures ReadPlain(p, a + b, asWritten) == ReadPlain(ReadPlain(p, a, asWritten), b, asWritten)
    decreases |b|
  {
    if b == [] {
      assert a + b == a;
    } else {
      var init := b[..|b| - 1];
      assert (a + b)[..|a + b| - 1] == a + init;
      assert (a + b)[|a + b| - 1] == b[|b| - 1];
      ReadAppend(p, a, init, asWritten);
    }
  }

  /** A plain word is pushed onto the word in hand. */
  lemma {:induction false} ReadWord(p: Parser, w: Text, asWritten: bool)
    requires CodePoints(p.chars) && forall i :: 0 <= i < |w| ==> IsPlain(w[i])
    ensures ReadPlain(p, w, asWritten) == p.(chars := p.chars + w)
    decreases |w|
  {
    if w == [] {
      assert p.chars + w == p.chars;
    } else {
      var init := w[..|w| - 1];
      ReadWord(p, init, asWritten);
      assert p.chars + init + [w[|w| - 1]] == p.chars + w;
    }
  }

  /** The units of plain words joined by single spaces. */
  lemma {:induction false} JoinUnits(ws: seq<Text>)
    requires PlainWords(ws)
    ensures forall i :: 0 <= i < |Join(ws)| ==> PlainOrSpace(Join(ws)[i])
    decreases |ws|
  {
    if |ws| > 1 {
      JoinUnits(ws[1..]);
      assert PlainWord(ws[0]);
    } else if |ws| == 1 {
      assert PlainWord(ws[0]);
    }
  }

  /**
   * Words joined by single spaces: all but the last one are added, and the
   * last one is left in hand.
   */
  lemma {:induction false} ReadJoin(p: Parser, ws: seq<Text>, asWritten: bool)
    requires ws != [] && PlainWords(ws) && p.chars == []
    ensures ReadPlain(p, Join(ws), asWritten) == AddWords(p, ws[..|ws| - 1], asWritten).(chars := ws[|ws| - 1])
    decreases |ws|
  {
    if |ws| == 1 {
      ReadOneWord(p, ws, asWritten);
    } else {
      ReadJoin(p, ws[..|ws| - 1], asWritten);
      ReadNextWord(p, ws, asWritten);
    }
  }

  lemma ReadOneWord(p: Parser, ws: seq<Text>, asWritten: bool)
    requires |ws| == 1 && PlainWords(ws) && p.chars == []
    ensures ReadPlain(p, Join(ws), asWritten) == AddWords(p, ws[..|ws| - 1], asWritten).(chars := ws[|ws| - 1])
  {
    assert PlainWord(ws[0]);
    ReadWord(p, ws[0], asWritten);
    assert ws[..0] == [];
    assert p.chars + ws[0] == ws[0];
  }

  /** With all words but the last read, a space and the last word follow. */
  lemma ReadNextWord(p: Parser, ws: seq<Text>, asWritten: bool)
    requires |ws| >= 2 && PlainWords(ws) && CodePoints(p.chars)
    requires var init := ws[..|ws| - 1];
      ReadPlain(p, Join(init), asWritten) == AddWords(p, init[..|init| - 1], asWritten).(chars := init[|init| - 1])
    ensures ReadPlain(p, Join(ws), asWritten) == AddWords(p, ws[..|ws| - 1], asWritten).(chars := ws[|ws| - 1])
  {
    var n := |ws|;
    var init := ws[..n - 1];
    var last := ws[n - 1];
    assert PlainWord(last);
    JoinSplit(ws, n - 1);
    assert Join(ws[n - 1..]) == last;
    ReadAppend(p, Join(init) + [Space], last, asWritten);
    ReadSpace(p, Join(init), asWritten);
    var r := AddWords(p, init, asWritten);
    ReadWord(r, last, asWritten);
    assert r.chars + last == last;
  }

  /** A space ends the word in hand. */
  lemma ReadSpace(p: Parser, t: Text, asWritten: bool)
    requires CodePoints(p.chars)
    ensures ReadPlain(p, t + [Space], asWritten) == EndOfWord(ReadPlain(p, t, asWritten), false, asWritten)
  {
    assert (t + [Space])[..|t|] == t;
  }

  /** Words joined by single spaces are read one by one; the last one is left in hand. */
  lemma ParseWords(spec: Text, index: nat, ws: seq<Text>, nested: bool, p: Parser, asWritten: bool)
    requires ws != [] && PlainWords(ws) && At(spec, index, Join(ws))
    requires p.chars == [] && !p.escape && !p.quoted
    ensures ParseFrom(spec, index, nested, p, asWritten)
      == ParseFrom(spec, index + |Join(ws)|, nested, AddWords(p, ws[..|ws| - 1], asWritten).(chars := ws[|ws| - 1]), asWritten)
  {
    ParseJoin(spec, index, ws, nested, p, asWritten);
    ReadJoin(p, ws, asWritten);
  }

  /** Words joined by single spaces are parsed as `ReadPlain` reads them. */
  lemma ParseJoin(spec: Text, index: nat, ws: seq<Text>, nested: bool, p: Parser, asWritten: bool)
    requires PlainWords(ws) && At(spec, index, Join(ws))
    requires p.chars == [] && !p.escape && !p.quoted
    ensures ParseFrom(spec, index, nested, p, asWritten)
      == ParseFrom(spec, index + |Join(ws)|, nested, ReadPlain(p, Join(ws), asWritten), asWritten)
  {
    JoinUnits(ws);
    ParseUnits(spec, index, Join(ws), nested, p, asWritten);
  }

  /** A spec of words only: the test of the level is made from all of them. */
  lemma ParseWordsToEnd(ws: seq<Text>, nested: bool, p: Parser, asWritten: bool)
    requires ws != [] && PlainWords(ws)
    requires p.chars == [] && !p.escape && !p.quoted
    ensures ParseFrom(Join(ws), 0, nested, p, asWritten) == (Finish(AddWords(p, ws, asWritten).tests), |Join(ws)|)
  {
    var spec := Join(ws);
    assert At(spec, 0, spec);
    ParseWords(spec, 0, ws, nested, p, asWritten);
    WordsEnd(spec, |spec|, ws, nested, p, asWritten);
  }

  /** At the end of the spec, the last word in hand is added after the others. */
  lemma WordsEnd(spec: Text, index: nat, ws: seq<Text>, nested: bool, p: Parser, asWritten: bool)
    requires index >= |spec| && ws != [] && CodePoints(p.chars)
    ensures ParseFrom(spec, index, nested, AddWords(p, ws[..|ws| - 1], asWritten).(chars := ws[|ws| - 1]), asWritten)
      == (Finish(AddWords(p, ws, asWritten).tests), index)
  {
    ParseEnd(spec, index, nested, AddWords(p, ws[..|ws| - 1], asWritten).(chars := ws[|ws| - 1]), asWritten);
  }

  /** Words that end a group: the group's test is made from all of them. */
  lemma ParseWordsToClose(spec: Text, index: nat, ws: seq<Text>, p: Parser, asWritten: bool)
    requires ws != [] && PlainWords(ws) && At(spec, index, Join(ws))
    requires index + |Join(ws)| < |spec| && spec[index + |Join(ws)|] == CloseParen
    requires p.chars == [] && !p.escape && !p.quoted
    ensures ParseFrom(spec, index, true, p, asWritten) == (Finish(AddWords(p, ws, asWritten).tests), index + |Join(ws)| + 1)
  {
    var q := AddWords(p, ws[..|ws| - 1], asWritten).(chars := ws[|ws| - 1]);
    ParseWords(spec, index, ws, true, p, asWritten);
    ParseClose(spec, index + |Join(ws)|, q, asWritten);
  }

  /** One test per word, in order, each that the phrase has the word. */
  function HasEach(ws: seq<Text>): (r: seq<Test>)
    ensures |r| == |ws| && forall k :: 0 <= k < |ws| ==> r[k] == Has(ws[k])
  {
    if ws == [] then [] else HasEach(ws[..|ws| - 1]) + [Has(ws[|ws| - 1])]
  }

  /** Words other than OR, with nothing pending, add one test each. */
  lemma {:induction false} AddTestWords(p: Parser, ws: seq<Text>, asWritten: bool)
    requires TestWords(ws) && CodePoints(p.chars) && !p.isNot && !p.isOR
    ensures var r := AddWords(p, ws, asWritten);
      r.tests == p.tests + HasEach(ws) && !r.isNot && !r.isOR
  {
    if ws != [] {
      var init := ws[..|ws| - 1];
      var w := ws[|ws| - 1];
      AddTestWords(p, init, asWritten);
      var q := AddWords(p, init, asWritten);
      EndOfPlainWord(q, w, asWritten);
      assert p.tests + HasEach(init) + [Has(w)] == p.tests + HasEach(ws);
    }
  }

  /** The word is OR exactly when it is the two units O and R. */
  lemma OrWordIs(w: Text)
    ensures IsOrWord(w) <==> w == OrWord
  {
    if IsOrWord(w) {
      assert w == [w[0], w[1]];
    }
  }

  /** A plain word other than OR, with nothing pending, adds the test that the phrase has it. */
  lemma EndOfPlainWord(q: Parser, w: Text, asWritten: bool)
    requires PlainWord(w) && !IsOrWord(w) && CodePoints(q.chars) && !q.isNot && !q.isOR
    ensures var r := EndOfWord(q.(chars := w), false, asWritten);
      r.tests == q.tests + [Has(w)] && !r.isNot && !r.isOR
  {
    PlainWordReads(w);
  }

  lemma FinishEval(ts: seq<Test>, phrase: Option<set<Text>>)
    ensures Eval(Finish(ts), phrase) <==> forall i :: 0 <= i < |ts| ==> Eval(ts[i], phrase)
  {
  }

  /** The phrase has every one of the words. */
  predicate HasAll(ws: seq<Text>, phrase: Option<set<Text>>) {
    forall k :: 0 <= k < |ws| ==> phrase.Some? && ws[k] in phrase.value
  }

  /** The test made of one test per word passes when the phrase has every word. */
  lemma FinishHasEach(ws: seq<Text>, phrase: Option<set<Text>>)
    ensures Eval(Finish(HasEach(ws)), phrase) <==> HasAll(ws, phrase)
  {
    var ts := HasEach(ws);
    FinishEval(ts, phrase);
    assert (forall i :: 0 <= i < |ts| ==> Eval(ts[i], phrase)) <==> HasAll(ws, phrase);
  }

  /** Words in a spec must all be in the phrase. */
  lemma WordsAreAnded(ws: seq<Text>, phrase: Option<set<Text>>)
    requires ws != [] && TestWords(ws)
    ensures Eval(ParseText(Join(ws)), phrase) <==> HasAll(ws, phrase)
  {
    ParseWordsToEnd(ws, false, NewParser, false);
    AddTestWords(NewParser, ws, false);
    assert NewParser.tests + HasEach(ws) == HasEach(ws);
    FinishHasEach(ws, phrase);
  }

  /**
   * A spec that is empty or white space only trims to nothing and sets no
   * test, so every phrase passes it, even a missing one.
   */
  lemma BlankSpecPasses(filterSpec: Text, phrase: Option<set<Text>>)
    requires forall i :: 0 <= i < |filterSpec| ==> IsJsSpace(filterSpec[i])
    ensures ParseText(ToUpper(Trim(filterSpec))) == Always
    ensures Eval(ParseText(ToUpper(Trim(filterSpec))), phrase)
  {
    LeadingSpacesAre(filterSpec, |filterSpec|);
    assert Trim(filterSpec) == [];
    assert ToUpper([]) == [];
    ParseEnd([], 0, false, NewParser, false);
  }

  /** OR followed by a space, with no test before it, leaves the parser as it was. */
  lemma LeadingOrReads()
    ensures ReadPlain(NewParser, OrWord + [Space], false) == NewParser
  {
    var lead := OrWord + [Space];
    assert lead[..2] == OrWord && OrWord[..1] == [0x4F] && [0x4F][..0] == [];
    assert ReadPlain(NewParser, OrWord, false) == NewParser.(chars := OrWord);
    PlainWordReads(OrWord);
  }

  /** A spec that starts with OR: the OR has no test to join and is dropped. */
  lemma LeadingOrIgnored(ws: seq<Text>)
    requires ws != [] && TestWords(ws)
    ensures ParseText(OrWord + [Space] + Join(ws)) == ParseText(Join(ws))
  {
    var lead := OrWord + [Space];
    var spec := lead + Join(ws);
    AtAppend(lead, Join(ws));
    ParseUnits(spec, 0, lead, false, NewParser, false);
    LeadingOrReads();
    ParseWords(spec, |lead|, ws, false, NewParser, false);
    WordsEnd(spec, |spec|, ws, false, NewParser, false);
    ParseWordsToEnd(ws, false, NewParser, false);
  }

  /** A plain word that ends the spec is the last word of the level. */
  lemma ParseWordToEnd(spec: Text, index: nat, w: Text, p: Parser, asWritten: bool)
    requires At(spec, index, w) && index + |w| == |spec| && PlainWord(w)
    requires p.chars == [] && !p.escape && !p.quoted
    ensures ParseFrom(spec, index, false, p, asWritten) == (Finish(EndOfWord(p.(chars := w), false, asWritten).tests), |spec|)
  {
    ParseUnits(spec, index, w, false, p, asWritten);
    ReadFirstWord(p, w, asWritten);
    ParseEnd(spec, |spec|, false, ReadPlain(p, w, asWritten), asWritten);
  }

  /** A plain word read with no word in hand becomes the word in hand. */
  lemma ReadFirstWord(p: Parser, w: Text, asWritten: bool)
    requires p.chars == [] && PlainWord(w)
    ensures ReadPlain(p, w, asWritten) == p.(chars := w)
  {
    ReadWord(p, w, asWritten);
    assert p.chars + w == w;
  }

  /** A minus sign before a word: the phrase must not have the word. */
  lemma NotWord(w: Text)
    requires PlainWord(w) && !IsOrWord(w)
    ensures ParseText([Minus] + w) == Not(Has(w))
  {
    var spec := [Minus] + w;
    var p := NewParser.(isNot := true);
    PrefixedAt(Minus, w);
    ParseMinus(spec, 0, false, NewParser, false);
    ParseWordToEnd(spec, 1, w, p, false);
    NegatedWordTest(p, w);
  }

  /** A run after one code unit is at index 1 and ends the spec. */
  lemma PrefixedAt(u: CodeUnit, w: Text)
    ensures var spec := [u] + w; spec[0] == u && At(spec, 1, w) && 1 + |w| == |spec|
  {
  }

  /** The state after a pending NOT and a word. */
  lemma NegatedWordTest(p: Parser, w: Text)
    requires p == NewParser.(isNot := true) && PlainWord(w) && !IsOrWord(w)
    ensures Finish(EndOfWord(p.(chars := w), false, false).tests) == Not(Has(w))
  {
    PlainWordReads(w);
  }

  /** A word in double quotes is looked for as it is, spaces and the word OR included. */
  lemma QuotedPhrase(w: Text)
    requires forall i :: 0 <= i < |w| ==> IsQuotable(w[i])
    ensures ParseText([DoubleQuote] + w + [DoubleQuote]) == if w == [] then Always else Has(w)
  {
    var spec := [DoubleQuote] + w + [DoubleQuote];
    QuotedAt(w);
    ParseQuotedWord(spec, 0, w, false, NewParser, false);
    var r := EndOfWord(NewParser.(chars := w), true, false);
    ParseEnd(spec, |spec|, false, r, false);
    QuotedWordTest(w);
  }

  /** Where the parts of a quoted spec are. */
  lemma QuotedAt(w: Text)
    ensures var spec := [DoubleQuote] + w + [DoubleQuote];
      spec[0] == DoubleQuote && At(spec, 1, w) && |spec| == |w| + 2 && spec[|w| + 1] == DoubleQuote
  {
  }

  /** A quoted word: it is ended, as a quoted word, by its closing double quote. */
  lemma ParseQuotedWord(spec: Text, index: nat, w: Text, nested: bool, p: Parser, asWritten: bool)
    requires index < |spec| && spec[index] == DoubleQuote && At(spec, index + 1, w)
    requires index + |w| + 1 < |spec| && spec[index + |w| + 1] == DoubleQuote
    requires forall i :: 0 <= i < |w| ==> IsQuotable(w[i])
    requires p.chars == [] && !p.escape && !p.quoted
    ensures ParseFrom(spec, index, nested, p, asWritten)
      == ParseFrom(spec, index + |w| + 2, nested, EndOfWord(p.(chars := w), true, asWritten), asWritten)
  {
    var q := p.(quoted := true);
    var r := q.(chars := q.chars + w);
    ParseOpenQuote(spec, index, nested, p, asWritten);
    ParseQuoted(spec, index + 1, w, nested, q, asWritten);
    ParseCloseQuote(spec, index + 1 + |w|, nested, r, asWritten);
    QuotedWordRead(p, w);
  }

  /** Opening a quote, reading a word and closing the quote leaves the word in hand. */
  lemma QuotedWordRead(p: Parser, w: Text)
    requires p.chars == [] && !p.quoted
    ensures var q := p.(quoted := true); q.(chars := q.chars + w).(quoted := false) == p.(chars := w)
  {
    assert p.chars + w == w;
  }

  /** The test of a level holding only a quoted word. */
  lemma QuotedWordTest(w: Text)
    requires forall i :: 0 <= i < |w| ==> IsQuotable(w[i])
    ensures var r := EndOfWord(NewParser.(chars := w), true, false);
      Finish(EndOfWord(r, false, false).tests) == if w == [] then Always else Has(w)
  {
    PlainWordReads(w);
  }

  /**
   * A double quote that is never closed: the rest of the spec is one word,
   * read as the operator OR if it is OR.
   */
  lemma UnclosedQuote(w: Text)
    requires forall i :: 0 <= i < |w| ==> IsQuotable(w[i])
    ensures ParseText([DoubleQuote] + w) == if w == [] || IsOrWord(w) then Always else Has(w)
  {
    var spec := [DoubleQuote] + w;
    var p := NewParser.(quoted := true);
    ParseOpenQuote(spec, 0, false, NewParser, false);
    assert At(spec, 1, w);
    ParseQuoted(spec, 1, w, false, p, false);
    ParseEnd(spec, 1 + |w|, false, p.(chars := p.chars + w), false);
    UnclosedWordTest(p, w);
  }

  lemma UnclosedWordTest(p: Parser, w: Text)
    requires p == NewParser.(quoted := true)
    requires forall i :: 0 <= i < |w| ==> IsQuotable(w[i])
    ensures Finish(EndOfWord(p.(chars := p.chars + w), false, false).tests) == if w == [] || IsOrWord(w) then Always else Has(w)
  {
    var q := p.(chars := p.chars + w);
    assert q.chars == w;
    if w != [] {
      PlainWordReads(w);
      assert ToUpper(FromCodePoints(q.chars)) == w;
    }
  }

  /** A minus sign before a group of words: the phrase must not pass the group's test. */
  lemma NotGroup(ws: seq<Text>)
    requires ws != [] && TestWords(ws)
    ensures ParseText([Minus, OpenParen] + Join(ws) + [CloseParen]) == Not(Finish(HasEach(ws)))
  {
    var spec := [Minus, OpenParen] + Join(ws) + [CloseParen];
    var p := NewParser.(isNot := true);
    ParseMinus(spec, 0, false, NewParser, false);
    ParseGroup(spec, 1, false, p, false);
    assert At(spec, 2, Join(ws));
    ParseWordsToClose(spec, 2, ws, NewParser, false);
    AddTestWords(NewParser, ws, false);
    assert NewParser.tests + HasEach(ws) == HasEach(ws);
    var inner := Finish(HasEach(ws));
    ParseEnd(spec, |spec|, false, AddTest(p, inner, false), false);
  }

  /** The state after words and a space: one test per word, nothing pending. */
  lemma ReadWordsThenSpace(ws: seq<Text>, asWritten: bool)
    requires ws != [] && TestWords(ws)
    ensures ReadPlain(NewParser, Join(ws) + [Space], asWritten) == Parser(HasEach(ws), false, false, [], false, false)
  {
    ReadJoin(NewParser, ws, asWritten);
    ReadSpace(NewParser, Join(ws), asWritten);
    AddTestWords(NewParser, ws, asWritten);
    assert NewParser.tests + HasEach(ws) == HasEach(ws);
  }

  /** The state after words, the word OR and a space: an OR is pending. */
  lemma ReadWordsThenOr(ws: seq<Text>, asWritten: bool)
    requires ws != [] && TestWords(ws)
    ensures ReadPlain(NewParser, Join(ws) + [Space] + OrWord + [Space], asWritten) == Parser(HasEach(ws), false, true, [], false, false)
  {
    var t := Join(ws) + [Space];
    var a := Parser(HasEach(ws), false, false, [], false, false);
    ReadWordsThenSpace(ws, asWritten);
    ReadAppend(NewParser, t, OrWord, asWritten);
    OrWordIsPlain();
    ReadWord(a, OrWord, asWritten);
    ReadSpace(NewParser, t + OrWord, asWritten);
    EndOfOrWord(a, asWritten);
  }

  lemma OrWordIsPlain()
    ensures PlainWord(OrWord) && IsOrWord(OrWord)
  {
  }

  /** The word OR after a test sets a pending OR. */
  lemma EndOfOrWord(a: Parser, asWritten: bool)
    requires a.chars == [] && |a.tests| > 0
    ensures EndOfWord(a.(chars := a.chars + OrWord), false, asWritten) == a.(isOR := true)
  {
    assert a.chars + OrWord == OrWord;
    PlainWordReads(OrWord);
  }

  /** A pending OR, perhaps a pending NOT, and a word in hand, at the end of the spec. */
  lemma OrTest(ws: seq<Text>, w: Text, isNot: bool, asWritten: bool)
    requires ws != [] && PlainWord(w) && !IsOrWord(w)
    ensures var tail := if isNot && !asWritten then Not(Has(w)) else Has(w);
      Finish(EndOfWord(Parser(HasEach(ws), isNot, true, w, false, false), false, asWritten).tests)
        == Any(Finish(HasEach(ws)), tail)
  {
    PlainWordReads(w);
  }

  /** A spec that starts with words, the word OR and a space: the state after them. */
  lemma ParseUpToOr(spec: Text, ws: seq<Text>, asWritten: bool)
    requires ws != [] && TestWords(ws) && At(spec, 0, Join(ws) + [Space] + OrWord + [Space])
    ensures ParseFrom(spec, 0, false, NewParser, asWritten)
      == ParseFrom(spec, |Join(ws)| + 4, false, Parser(HasEach(ws), false, true, [], false, false), asWritten)
  {
    var prefix := Join(ws) + [Space] + OrWord + [Space];
    OrPrefixUnits(ws, prefix);
    ParseUnits(spec, 0, prefix, false, NewParser, asWritten);
    ReadWordsThenOr(ws, asWritten);
  }

  /** The code units of words, the word OR and a space are plain ones and spaces. */
  lemma OrPrefixUnits(ws: seq<Text>, prefix: Text)
    requires PlainWords(ws) && prefix == Join(ws) + [Space] + OrWord + [Space]
    ensures forall i :: 0 <= i < |prefix| ==> PlainOrSpace(prefix[i])
  {
    JoinUnits(ws);
  }

  /**
   * Words, the word OR, and a word: the phrase must have all the words
   * before OR, or the word after it.
   */
  lemma OrWords(ws: seq<Text>, w: Text, asWritten: bool)
    requires ws != [] && TestWords(ws) && PlainWord(w) && !IsOrWord(w)
    ensures var spec := Join(ws) + [Space] + OrWord + [Space] + w;
      ParseFrom(spec, 0, false, NewParser, asWritten).0 == Any(Finish(HasEach(ws)), Has(w))
  {
    var prefix := Join(ws) + [Space] + OrWord + [Space];
    var spec := prefix + w;
    var s := Parser(HasEach(ws), false, true, [], false, false);
    AtAppend(prefix, w);
    ParseUpToOr(spec, ws, asWritten);
    assert ParseFrom(spec, 0, false, NewParser, asWritten) == ParseFrom(spec, |prefix|, false, s, asWritten);
    ParseWordToEnd(spec, |prefix|, w, s, asWritten);
    OrTest(ws, w, false, asWritten);
    assert s.(chars := w) == Parser(HasEach(ws), false, true, w, false, false);
  }

  /** What the OR of words means for a phrase. */
  lemma OrWordsEval(ws: seq<Text>, w: Text, phrase: Option<set<Text>>)
    requires ws != [] && TestWords(ws) && PlainWord(w) && !IsOrWord(w)
    ensures Eval(ParseText(Join(ws) + [Space] + OrWord + [Space] + w), phrase)
      <==> HasAll(ws, phrase) || (phrase.Some? && w in phrase.value)
  {
    OrWords(ws, w, false);
    FinishHasEach(ws, phrase);
  }

  /**
   * Words, the word OR, and a negated word. As written the OR takes the
   * word's test from before its negation, so the minus sign is lost.
   */
  lemma OrNegated(ws: seq<Text>, w: Text, asWritten: bool)
    requires ws != [] && TestWords(ws) && PlainWord(w) && !IsOrWord(w)
    ensures var spec := Join(ws) + [Space] + OrWord + [Space] + [Minus] + w;
      ParseFrom(spec, 0, false, NewParser, asWritten).0
        == Any(Finish(HasEach(ws)), if asWritten then Has(w) else Not(Has(w)))
  {
    var prefix := Join(ws) + [Space] + OrWord + [Space];
    var spec := prefix + [Minus] + w;
    NegatedTailAt(prefix, w);
    ParseUpToOr(spec, ws, asWritten);
    ParseNegatedAfterOr(spec, |prefix|, ws, w, asWritten);
  }

  /** After a pending OR, a negated word that ends the spec. */
  lemma ParseNegatedAfterOr(spec: Text, index: nat, ws: seq<Text>, w: Text, asWritten: bool)
    requires ws != [] && PlainWord(w) && !IsOrWord(w)
    requires index < |spec| && spec[index] == Minus && At(spec, index + 1, w) && index + 1 + |w| == |spec|
    ensures ParseFrom(spec, index, false, Parser(HasEach(ws), false, true, [], false, false), asWritten).0
      == Any(Finish(HasEach(ws)), if asWritten then Has(w) else Not(Has(w)))
  {
    var s := Parser(HasEach(ws), false, true, [], false, false);
    ParseMinus(spec, index, false, s, asWritten);
    ParseWordToEnd(spec, index + 1, w, s.(isNot := true), asWritten);
    OrTest(ws, w, true, asWritten);
  }

  /** Where the parts of a spec ending in a negated word are. */
  lemma NegatedTailAt(prefix: Text, w: Text)
    ensures var spec := prefix + [Minus] + w;
      At(spec, 0, prefix) && spec[|prefix|] == Minus && At(spec, |prefix| + 1, w) && |prefix| + 1 + |w| == |spec|
  {
  }

  /**
   * "A OR -B" on a phrase that has B and not A: as written it passes, as
   * intended it fails.
   */
  lemma OrNegatedPasses(a: Text, b: Text)
    requires PlainWord(a) && !IsOrWord(a) && PlainWord(b) && !IsOrWord(b) && a != b
    ensures var spec := Join([a]) + [Space] + OrWord + [Space] + [Minus] + b;
      Eval(ParseTextAsWritten(spec), Some({b})) && !Eval(ParseText(spec), Some({b}))
  {
    assert TestWords([a]);
    OrNegated([a], b, true);
    OrNegated([a], b, false);
    assert HasEach([a])[0] == Has(a);
    assert Finish(HasEach([a])) == Has(a);
    assert Eval(Has(b), Some({b})) && !Eval(Has(a), Some({b}));
    assert !Eval(Not(Has(b)), Some({b}));
  }
}
