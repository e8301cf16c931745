/** The prompt tokenizer: a fixed chain of character rewrites followed by a
    split on commas. Each regular-expression substitution of the source is an
    explicit left-to-right scanner over the string. */
module Prompt {
  import opened Text

  // ---------------------------------------------------------------------
  // The rewrites, in the order the tokenizer applies them
  // ---------------------------------------------------------------------

  /** The number of consecutive decimal digits starting at index `i`. */
  function DigitsFrom(s: string, i: nat): (n: nat)
    requires i <= |s|
    ensures i + n <= |s|
    decreases |s| - i
  {
    if i < |s| && IsDigit(s[i]) then 1 + DigitsFrom(s, i + 1) else 0
  }

  /** DigitsFrom measures the longest run of digits at `i`: every character of
      the run is a digit and the one after it is not. */
  lemma {:induction false} DigitsRun(s: string, i: nat)
    requires i <= |s|
    ensures forall k :: i <= k < i + DigitsFrom(s, i) ==> IsDigit(s[k])
    ensures i + DigitsFrom(s, i) < |s| ==> !IsDigit(s[i + DigitsFrom(s, i)])
    decreases |s| - i
  {
    if i < |s| && IsDigit(s[i]) {
      DigitsRun(s, i + 1);
    }
  }

  /** The length of the match of the regular expression \d+\.\d+ at index `i`,
      or 0 when it does not match there. Both digit runs are greedy, and
      backtracking cannot help: a shorter first run is followed by a digit, not a point. */
  function WeightAt(s: string, i: nat): (n: nat)
    requires i <= |s|
    ensures i + n <= |s|
    ensures n > 0 ==> n >= 3
  {
    var d := DigitsFrom(s, i);
    if d > 0 && i + d < |s| && s[i + d] == '.' then
      var e := DigitsFrom(s, i + d + 1);
      if e > 0 then d + 1 + e else 0
    else 0
  }

  /** Deletes every match of \d+\.\d+, scanning from index `i`. */
  function RemoveWeightsFrom(s: string, i: nat): string
    requires i <= |s|
    decreases |s| - i
  {
    if i == |s| then ""
    else
      var w := WeightAt(s, i);
      if w > 0 then RemoveWeightsFrom(s, i + w) else [s[i]] + RemoveWeightsFrom(s, i + 1)
  }

  function RemoveWeights(s: string): string {
    RemoveWeightsFrom(s, 0)
  }

  /** Turns every parenthesis into a comma, scanning from index `i` (the class [()]). */
  function ParensToCommasFrom(s: string, i: nat): (r: string)
    requires i <= |s|
    ensures |r| == |s| - i
    ensures forall k :: 0 <= k < |r| ==> r[k] == if s[i + k] in {'(', ')'} then ',' else s[i + k]
    decreases |s| - i
  {
    if i == |s| then ""
    else [if s[i] in {'(', ')'} then ',' else s[i]] + ParensToCommasFrom(s, i + 1)
  }

  function ParensToCommas(s: string): string {
    ParensToCommasFrom(s, 0)
  }

  /** The lookahead (?![^<]*>) fails at index `j`, that is, a '>' occurs at or
      after `j` with no '<' before it. */
  predicate ClosesAngleFrom(s: string, j: nat)
    decreases |s| - j
  {
    j < |s| && (s[j] == '>' || (s[j] != '<' && ClosesAngleFrom(s, j + 1)))
  }

  /** Deletes every ':' that is not inside an unfinished '<...>', scanning from index `i`. */
  function DropColonsFrom(s: string, i: nat): string
    requires i <= |s|
    decreases |s| - i
  {
    if i == |s| then ""
    else if s[i] == ':' && !ClosesAngleFrom(s, i + 1) then DropColonsFrom(s, i + 1)
    else [s[i]] + DropColonsFrom(s, i + 1)
  }

  function DropColons(s: string): string {
    DropColonsFrom(s, 0)
  }

  /** Replaces every maximal run of two or more characters of [,\s] by one
      comma, scanning from index `i`; a run of one is kept. */
  function CollapseSepsFrom(s: string, i: nat): string
    requires i <= |s|
    decreases |s| - i
  {
    if i == |s| then ""
    else
      var j := SkipFrom(s, SepChars, i);
      if j - i >= 2 then "," + CollapseSepsFrom(s, j) else [s[i]] + CollapseSepsFrom(s, i + 1)
  }

  function CollapseSeps(s: string): string {
    CollapseSepsFrom(s, 0)
  }

  /** The prompt after every rewrite, before the strips (scripts/gallery_utils.py:269-279). */
  function Rewritten(prompt: string): string {
    var p1 := RemoveWeights(prompt);
    var p2 := ParensToCommas(p1);
    var p3 := Replace(p2, "<", ",<");
    var p4 := Replace(p3, ">", ">,");
    var p5 := DropColons(p4);
    var p6 := Replace(p5, "\n", ",");
    CollapseSeps(p6)
  }

  /** The prompt after every rewrite and both strips (scripts/gallery_utils.py:269-283). */
  function Clean(prompt: string): string {
    Strip(Strip(Rewritten(prompt), Whitespace), {','})
  }

  /** What the tokenizer returns: the cleaned prompt split on commas. */
  function Tokenize(prompt: string): (tags: seq<string>)
    ensures |tags| >= 1
  {
    Split(Clean(prompt), ",")
  }

  /** The tokenizer as the source writes it: a local string rebound by each rewrite in turn. */
  method ParsePrompt(prompt: string) returns (tags: seq<string>)
    ensures tags == Tokenize(prompt)
    ensures Join(tags, ",") == Clean(prompt)
    ensures tags == [""] <==> Clean(prompt) == []
    ensures tags == [""] || forall t :: t in tags ==> WellFormedTag(t)
  {
    var p := RemoveWeights(prompt);
    p := ParensToCommas(p);
    p := Replace(p, "<", ",<");
    p := Replace(p, ">", ">,");
    p := DropColons(p);
    p := Replace(p, "\n", ",");
    p := CollapseSeps(p);
    assert p == Rewritten(prompt);
    p := Strip(p, Whitespace);
    p := Strip(p, {','});
    tags := Split(p, ",");
    TokenizeShape(prompt);
  }

  // ---------------------------------------------------------------------
  // What every tag looks like
  // ---------------------------------------------------------------------

  /** A tag the tokenizer can produce from a non-empty cleaned prompt: not empty,
      free of commas, parentheses and newlines, a '<' only in front and a '>' only
      at the end, and no whitespace at either end. */
  predicate WellFormedTag(t: string) {
    && t != []
    && ',' !in t && '(' !in t && ')' !in t && '\n' !in t
    && (forall k :: 0 < k < |t| ==> t[k] != '<')
    && (forall k :: 0 <= k < |t| - 1 ==> t[k] != '>')
    && t[0] !in Whitespace && t[|t| - 1] !in Whitespace
  }

  /** Every '<' after the first position comes right after a comma. */
  predicate OpensAfterComma(s: string) {
    forall k :: 0 < k < |s| && s[k] == '<' ==> s[k - 1] == ','
  }

  /** Every '>' before the last position comes right before a comma. */
  predicate ClosesBeforeComma(s: string) {
    forall k :: 0 <= k < |s| - 1 && s[k] == '>' ==> s[k + 1] == ','
  }

  /** No two characters of [,\s] are adjacent. */
  predicate NoSepPair(s: string) {
    forall k :: 0 <= k < |s| - 1 ==> !(s[k] in SepChars && s[k + 1] in SepChars)
  }

  lemma OpensConcat(x: string, y: string)
    requires OpensAfterComma(x) && OpensAfterComma(y)
    requires x != [] && y != [] && y[0] == '<' ==> x[|x| - 1] == ','
    ensures OpensAfterComma(x + y)
  {
    var s := x + y;
    forall k | 0 < k < |s| && s[k] == '<'
      ensures s[k - 1] == ','
    {
      if k > |x| {
        assert s[k] == y[k - |x|] && s[k - 1] == y[k - |x| - 1];
      }
    }
  }

  lemma ClosesConcat(x: string, y: string)
    requires ClosesBeforeComma(x) && ClosesBeforeComma(y)
    requires x != [] && y != [] && x[|x| - 1] == '>' ==> y[0] == ','
    ensures ClosesBeforeComma(x + y)
  {
    var s := x + y;
    forall k | 0 <= k < |s| - 1 && s[k] == '>'
      ensures s[k + 1] == ','
    {
      if k >= |x| {
        assert s[k] == y[k - |x|] && s[k + 1] == y[k - |x| + 1];
      }
    }
  }

  lemma NoSepPairConcat(x: string, y: string)
    requires NoSepPair(x) && NoSepPair(y)
    requires x != [] && y != [] ==> !(x[|x| - 1] in SepChars && y[0] in SepChars)
    ensures NoSepPair(x + y)
  {
    var s := x + y;
    forall k | 0 <= k < |s| - 1
      ensures !(s[k] in SepChars && s[k + 1] in SepChars)
    {
      if k >= |x| {
        assert s[k] == y[k - |x|] && s[k + 1] == y[k - |x| + 1];
      }
    }
  }

  /** A slice keeps each of the local properties. */
  lemma SliceKeeps(s: string, a: nat, b: nat)
    requires a <= b <= |s|
    ensures OpensAfterComma(s) ==> OpensAfterComma(s[a..b])
    ensures ClosesBeforeComma(s) ==> ClosesBeforeComma(s[a..b])
    ensures NoSepPair(s) ==> NoSepPair(s[a..b])
    ensures forall c :: c !in s ==> c !in s[a..b]
  {
    var t := s[a..b];
    if OpensAfterComma(s) {
      forall k | 0 < k < |t| && t[k] == '<'
        ensures t[k - 1] == ','
      {
        assert t[k] == s[a + k] && t[k - 1] == s[a + k - 1];
      }
    }
    if ClosesBeforeComma(s) {
      forall k | 0 <= k < |t| - 1 && t[k] == '>'
        ensures t[k + 1] == ','
      {
        assert t[k] == s[a + k] && t[k + 1] == s[a + k + 1];
      }
    }
    if NoSepPair(s) {
      forall k | 0 <= k < |t| - 1
        ensures !(t[k] in SepChars && t[k + 1] in SepChars)
      {
        assert t[k] == s[a + k] && t[k + 1] == s[a + k + 1];
      }
    }
  }

  // Stage by stage

  lemma ParensGone(s: string)
    ensures '(' !in ParensToCommas(s) && ')' !in ParensToCommas(s)
  {
    var r := ParensToCommas(s);
    forall k | 0 <= k < |r|
      ensures r[k] != '(' && r[k] != ')'
    {
      assert r[k] == if s[k] in {'(', ')'} then ',' else s[k];
    }
  }

  /** After putting a comma before every '<', each later '<' follows a comma. */
  lemma {:induction false} CommaBeforeOpen(s: string, i: nat)
    requires i <= |s|
    ensures OpensAfterComma(ReplaceFrom(s, "<", ",<", i))
    decreases |s| - i
  {
    if i < |s| {
      MatchesAtChar(s, i, '<');
      var x := if s[i] == '<' then ",<" else [s[i]];
      var j := i + 1;
      var y := ReplaceFrom(s, "<", ",<", j);
      CommaBeforeOpen(s, j);
      assert ReplaceFrom(s, "<", ",<", i) == x + y;
      if j < |s| {
        ReplaceHead(s, "<", ",<", j);
        MatchesAtChar(s, j, '<');
      }
      OpensConcat(x, y);
    }
  }

  /** Putting a comma after every '>' makes each earlier '>' precede a comma,
      and keeps every '<' after a comma. */
  lemma {:induction false} CommaAfterClose(s: string, i: nat)
    requires i <= |s| && OpensAfterComma(s)
    ensures ClosesBeforeComma(ReplaceFrom(s, ">", ">,", i))
    ensures OpensAfterComma(ReplaceFrom(s, ">", ">,", i))
    decreases |s| - i
  {
    if i < |s| {
      MatchesAtChar(s, i, '>');
      var x := if s[i] == '>' then ">," else [s[i]];
      var y := ReplaceFrom(s, ">", ">,", i + 1);
      CommaAfterClose(s, i + 1);
      assert ReplaceFrom(s, ">", ">,", i) == x + y;
      if i + 1 < |s| {
        ReplaceHead(s, ">", ">,", i + 1);
        MatchesAtChar(s, i + 1, '>');
      }
      OpensConcat(x, y);
      ClosesConcat(x, y);
    }
  }

  /** The first character DropColons keeps from index `j` on. */
  lemma {:induction false} DropColonsHead(s: string, j: nat)
    requires j <= |s| && OpensAfterComma(s)
    ensures j < |s| && s[j] != ':' ==> DropColonsFrom(s, j) != [] && DropColonsFrom(s, j)[0] == s[j]
    ensures DropColonsFrom(s, j) != [] && DropColonsFrom(s, j)[0] == '<' ==> s[j] == '<'
    decreases |s| - j
  {
    if j < |s| {
      DropColonsHead(s, j + 1);
    }
  }

  lemma {:induction false} DropColonsKeeps(s: string, i: nat)
    requires i <= |s| && OpensAfterComma(s) && ClosesBeforeComma(s)
    ensures OpensAfterComma(DropColonsFrom(s, i))
    ensures ClosesBeforeComma(DropColonsFrom(s, i))
    ensures forall c :: c !in s[i..] ==> c !in DropColonsFrom(s, i)
    decreases |s| - i
  {
    if i < |s| {
      DropColonsKeeps(s, i + 1);
      assert s[i..] == [s[i]] + s[i + 1..];
      if !(s[i] == ':' && !ClosesAngleFrom(s, i + 1)) {
        var y := DropColonsFrom(s, i + 1);
        DropColonsHead(s, i + 1);
        OpensConcat([s[i]], y);
        ClosesConcat([s[i]], y);
      }
    }
  }

  lemma NewlinesToCommasKeeps(s: string)
    requires OpensAfterComma(s) && ClosesBeforeComma(s)
    ensures OpensAfterComma(Replace(s, "\n", ","))
    ensures ClosesBeforeComma(Replace(s, "\n", ","))
    ensures '\n' !in Replace(s, "\n", ",")
    ensures forall c :: c != ',' && c !in s ==> c !in Replace(s, "\n", ",")
  {
    ReplaceCharMap(s, '\n', ',', 0);
    ReplaceRemovesChar(s, '\n', ",", 0);
    var r := Replace(s, "\n", ",");
    forall c | c != ',' && c !in s
      ensures c !in r
    {
      forall k | 0 <= k < |r|
        ensures r[k] != c
      {
        assert s[k] in s;
      }
    }
  }

  /** A run of two or more separators at `i` becomes one comma. */
  lemma CollapseRun(s: string, i: nat, j: nat)
    requires i < |s| && j == SkipFrom(s, SepChars, i) && j - i >= 2
    ensures CollapseSepsFrom(s, i) == "," + CollapseSepsFrom(s, j)
  {
  }

  /** Any other character at `i` is kept. */
  lemma CollapseKeep(s: string, i: nat)
    requires i < |s| && SkipFrom(s, SepChars, i) - i < 2
    ensures CollapseSepsFrom(s, i) == [s[i]] + CollapseSepsFrom(s, i + 1)
  {
  }

  /** The first character CollapseSeps produces from index `i` on. */
  lemma CollapseHead(s: string, i: nat)
    requires i < |s|
    ensures CollapseSepsFrom(s, i) != []
    ensures CollapseSepsFrom(s, i)[0] == if SkipFrom(s, SepChars, i) - i >= 2 then ',' else s[i]
  {
  }

  /** What the collapse keeps from `i` on. */
  predicate CollapseKept(s: string, i: nat)
    requires i <= |s|
  {
    var r := CollapseSepsFrom(s, i);
    && NoSepPair(r) && OpensAfterComma(r) && ClosesBeforeComma(r)
    && forall c :: c != ',' && c !in s[i..] ==> c !in r
  }

  lemma {:induction false} CollapseKeeps(s: string, i: nat)
    requires i <= |s| && OpensAfterComma(s) && ClosesBeforeComma(s)
    ensures CollapseKept(s, i)
    decreases |s| - i
  {
    if i < |s| {
      var j := SkipFrom(s, SepChars, i);
      if j - i >= 2 {
        CollapseKeeps(s, j);
        RunKept(s, i, j);
      } else {
        CollapseKeeps(s, i + 1);
        CharKept(s, i);
      }
    }
  }

  lemma RunKept(s: string, i: nat, j: nat)
    requires i < |s| && j == SkipFrom(s, SepChars, i) && j - i >= 2
    requires OpensAfterComma(s) && ClosesBeforeComma(s)
    requires CollapseKept(s, j)
    ensures CollapseKept(s, i)
  {
    var y := CollapseSepsFrom(s, j);
    CollapseRun(s, i, j);
    if j < |s| {
      CollapseHead(s, j);
      assert SkipFrom(s, SepChars, j) == j;
    }
    NoSepPairConcat(",", y);
    OpensConcat(",", y);
    ClosesConcat(",", y);
    forall c | c != ',' && c !in s[i..]
      ensures c !in CollapseSepsFrom(s, i)
    {
      assert s[j..] == s[i..][j - i..];
    }
  }

  lemma CharKept(s: string, i: nat)
    requires i < |s| && SkipFrom(s, SepChars, i) - i < 2
    requires OpensAfterComma(s) && ClosesBeforeComma(s)
    requires CollapseKept(s, i + 1)
    ensures CollapseKept(s, i)
  {
    var j := SkipFrom(s, SepChars, i);
    var y := CollapseSepsFrom(s, i + 1);
    CollapseKeep(s, i);
    if i + 1 < |s| {
      CollapseHead(s, i + 1);
      if s[i] in SepChars {
        assert j == i + 1;
        assert SkipFrom(s, SepChars, i + 1) == i + 1;
      }
    }
    NoSepPairConcat([s[i]], y);
    OpensConcat([s[i]], y);
    ClosesConcat([s[i]], y);
    assert s[i..] == [s[i]] + s[i + 1..];
  }

  /** The properties the string has just before it is split. */
  predicate ReadyToSplit(v: string) {
    && '(' !in v && ')' !in v && '\n' !in v
    && OpensAfterComma(v) && ClosesBeforeComma(v) && NoSepPair(v)
    && (v == [] || (v[0] !in SepChars && v[|v| - 1] !in SepChars))
  }

  lemma {:induction false} RewrittenReady(prompt: string)
    ensures Tidy(Rewritten(prompt))
  {
    var p1 := RemoveWeights(prompt);
    var p2 := ParensToCommas(p1);
    var p3 := Replace(p2, "<", ",<");
    var p4 := Replace(p3, ">", ">,");
    var p5 := DropColons(p4);
    var p6 := Replace(p5, "\n", ",");
    ParensGone(p1);
    CommaBeforeOpen(p2, 0);
    ReplaceChars(p2, "<", ",<", 0);
    assert p2[0..] == p2;
    CommaAfterClose(p3, 0);
    ReplaceChars(p3, ">", ">,", 0);
    assert p3[0..] == p3;
    DropColonsKeeps(p4, 0);
    assert p4[0..] == p4;
    NewlinesToCommasKeeps(p5);
    CollapseKeeps(p6, 0);
    assert p6[0..] == p6;
  }

  /** The properties the rewrites leave behind, before the strips. */
  predicate Tidy(u: string) {
    && '(' !in u && ')' !in u && '\n' !in u
    && OpensAfterComma(u) && ClosesBeforeComma(u) && NoSepPair(u)
  }

  /** Stripping keeps a tidy string tidy; everything cut off is in `cs`. */
  lemma StripTidy(u: string, cs: set<char>) returns (a: nat, b: nat)
    requires Tidy(u)
    ensures a <= b <= |u| && Strip(u, cs) == u[a..b] && Tidy(u[a..b])
    ensures a > 0 ==> u[a - 1] in cs
    ensures b < |u| ==> u[b] in cs
    ensures a < b ==> u[a] !in cs && u[b - 1] !in cs
  {
    a, b := StripSlice(u, cs);
    SliceKeeps(u, a, b);
    var r := u[a..b];
    if a < b {
      assert r[0] == u[a] && r[|r| - 1] == u[b - 1];
    }
  }

  /** Stripping whitespace and then commas leaves both ends outside [,\s]. */
  lemma StripsReady(u: string)
    requires Tidy(u)
    ensures ReadyToSplit(Strip(Strip(u, Whitespace), {','}))
  {
    var a, b := StripTidy(u, Whitespace);
    CommaStripReady(Strip(u, Whitespace));
  }

  /** The comma strip of a tidy string whose ends are not whitespace is ready to be split. */
  lemma CommaStripReady(t: string)
    requires Tidy(t) && (t != [] ==> t[0] !in Whitespace && t[|t| - 1] !in Whitespace)
    ensures ReadyToSplit(Strip(t, {','}))
  {
    var c, d := StripTidy(t, {','});
    CommaEnds(t, c, d);
  }

  /** After the comma strip of a string already stripped of whitespace, the
      first and last characters are outside [,\s]: either they were the ends
      of the string, or they sit next to a stripped comma. */
  lemma CommaEnds(t: string, c: nat, d: nat)
    requires c <= d <= |t| && NoSepPair(t) && Tidy(t[c..d])
    requires t != [] ==> t[0] !in Whitespace && t[|t| - 1] !in Whitespace
    requires c < d ==> t[c] != ',' && t[d - 1] != ','
    requires c > 0 ==> t[c - 1] == ','
    requires d < |t| ==> t[d] == ','
    ensures ReadyToSplit(t[c..d])
  {
    if c < d {
      if c > 0 {
        assert t[c - 1] in SepChars;
      }
      if d < |t| {
        assert t[d] in SepChars;
      }
      assert t[c..d][0] == t[c] && t[c..d][d - c - 1] == t[d - 1];
    }
  }

  lemma CleanReady(prompt: string)
    ensures ReadyToSplit(Clean(prompt))
  {
    RewrittenReady(prompt);
    StripsReady(Rewritten(prompt));
  }

  /** Every piece of a string ready to be split is a well-formed tag. */
  lemma StartsWellFormed(v: string)
    requires ReadyToSplit(v) && v != []
    ensures forall b: nat {:trigger PieceStart(v, ",", b)} :: PieceStart(v, ",", b) ==>
      WellFormedTag(v[b..FindFrom(v, ",", b)])
  {
    forall b: nat | PieceStart(v, ",", b)
      ensures WellFormedTag(v[b..FindFrom(v, ",", b)])
    {
      if b > 0 {
        MatchesAtChar(v, b - 1, ',');
      }
      PieceWellFormed(v, b);
    }
  }

  /** The piece that starts at a boundary `i` runs up to the next comma and is a well-formed tag. */
  lemma PieceWellFormed(v: string, i: nat)
    requires ReadyToSplit(v) && v != [] && i <= |v|
    requires i == 0 || v[i - 1] == ','
    ensures i < FindFrom(v, ",", i) && WellFormedTag(v[i..FindFrom(v, ",", i)])
  {
    var j := FindFrom(v, ",", i);
    assert i < |v| by {
      if i > 0 { assert v[i - 1] == ',' && v[|v| - 1] != ','; }
    }
    var p := v[i..j];
    forall k | i <= k < j
      ensures v[k] != ','
    {
      MatchesAtChar(v, k, ',');
    }
    if j < |v| {
      MatchesAtChar(v, j, ',');
    }
    assert v[i] != ',' by {
      if i > 0 { assert v[i - 1] in SepChars; }
    }
    assert p != [] && p[0] == v[i];
    PieceEnds(v, i, j);
    assert forall c :: c !in v ==> c !in p;
    assert ',' !in p by {
      forall k | 0 <= k < |p| ensures p[k] != ',' { assert p[k] == v[i + k]; }
    }
    forall k | 0 < k < |p|
      ensures p[k] != '<'
    {
      assert p[k] == v[i + k] && p[k - 1] == v[i + k - 1];
    }
    forall k | 0 <= k < |p| - 1
      ensures p[k] != '>'
    {
      assert p[k] == v[i + k] && p[k + 1] == v[i + k + 1];
    }
  }

  /** A piece between boundaries neither starts nor ends with whitespace. */
  lemma PieceEnds(v: string, i: nat, j: nat)
    requires ReadyToSplit(v) && i < j <= |v|
    requires i == 0 || v[i - 1] == ','
    requires j == |v| || v[j] == ','
    ensures v[i] !in Whitespace && v[j - 1] !in Whitespace
  {
    assert v[i] !in Whitespace;
    if j < |v| { assert v[j] in SepChars; }
  }

  /** The output of the tokenizer: exactly [""] when nothing is left of the
      prompt, and otherwise a list of well-formed tags that joined with commas
      give back the cleaned prompt. */
  lemma TokenizeShape(prompt: string)
    ensures Join(Tokenize(prompt), ",") == Clean(prompt)
    ensures Tokenize(prompt) == [""] <==> Clean(prompt) == []
    ensures Tokenize(prompt) == [""] || forall t :: t in Tokenize(prompt) ==> WellFormedTag(t)
  {
    var v := Clean(prompt);
    JoinSplit(v, ",");
    CleanReady(prompt);
    if v != [] {
      StartsWellFormed(v);
      SplitPieces(v, ",", 0, WellFormedTag);
      assert Split(v, ",") == SplitFrom(v, ",", 0);
    }
  }
}
