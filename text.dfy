/** String operations with the meaning the gallery code gives them: Python's
    str.split, str.strip, the `in` test on strings, and re.sub with a literal
    pattern. Every scanner is written over an index `i` into a fixed string, so
    that the verifier can compute it on short literals. */
module Text {

  /** The characters for which Python's str.isspace() holds. The regex class \s
      and str.strip() without arguments use the same notion. */
  predicate IsSpace(c: char) {
    || '\t' <= c <= '\r' || '\U{1C}' <= c <= ' ' || c == '\U{85}' || c == '\U{A0}' || c == '\U{1680}'
    || '\U{2000}' <= c <= '\U{200A}' || c == '\U{2028}' || c == '\U{2029}' || c == '\U{202F}'
    || c == '\U{205F}' || c == '\U{3000}'
  }

  const Whitespace: set<char> := set c: char | '\t' <= c <= '\U{3000}' && IsSpace(c)

  /** The regex character class [,\s]. */
  const SepChars: set<char> := set c: char | '\t' <= c <= '\U{3000}' && (IsSpace(c) || c == ',')

  predicate IsDigit(c: char) {
    '0' <= c <= '9'
  }

  /** `pat` occurs in `s` at index `i`. */
  predicate MatchesAt(s: string, i: nat, pat: string) {
    i + |pat| <= |s| && s[i..i + |pat|] == pat
  }

  /** The first index at or after `i` where `pat` occurs, or |s| when there is none. */
  function FindFrom(s: string, pat: string, i: nat): (j: nat)
    requires i <= |s|
    ensures i <= j <= |s|
    ensures forall k :: i <= k < j ==> !MatchesAt(s, k, pat)
    ensures j < |s| ==> MatchesAt(s, j, pat)
    decreases |s| - i
  {
    if i == |s| || MatchesAt(s, i, pat) then i else FindFrom(s, pat, i + 1)
  }

  function Find(s: string, pat: string): (j: nat)
    ensures j <= |s|
  {
    FindFrom(s, pat, 0)
  }

  /** Python's `pat in s`, for a non-empty `pat`. */
  predicate Contains(s: string, pat: string) {
    Find(s, pat) < |s|
  }

  lemma ContainsIff(s: string, pat: string)
    requires |pat| > 0
    ensures Contains(s, pat) <==> exists k :: 0 <= k < |s| && MatchesAt(s, k, pat)
  {
    if Contains(s, pat) {
      assert MatchesAt(s, Find(s, pat), pat);
    }
  }

  lemma ContainsWitness(s: string, pat: string, k: nat)
    requires |pat| > 0 && MatchesAt(s, k, pat)
    ensures Contains(s, pat)
  {
  }

  lemma NotContains(s: string, pat: string, k: nat)
    requires |pat| > 0 && !Contains(s, pat)
    ensures !MatchesAt(s, k, pat)
  {
  }

  /** A one-character pattern occurs exactly where that character is. */
  lemma MatchesAtChar(s: string, i: nat, c: char)
    ensures MatchesAt(s, i, [c]) <==> i < |s| && s[i] == c
  {
    if i < |s| && s[i] == c {
      assert s[i..i + 1] == [c];
    }
  }

  lemma ContainsChar(s: string, c: char)
    ensures Contains(s, [c]) <==> c in s
  {
    if c in s {
      var k :| 0 <= k < |s| && s[k] == c;
      MatchesAtChar(s, k, c);
      ContainsWitness(s, [c], k);
    }
    if Contains(s, [c]) {
      MatchesAtChar(s, Find(s, [c]), c);
    }
  }

  /** Python's str.split(sep) for a non-empty separator: the pieces between
      non-overlapping occurrences of `sep`, scanned from the left. */
  function SplitFrom(s: string, sep: string, i: nat): (parts: seq<string>)
    requires |sep| > 0 && i <= |s|
    ensures |parts| >= 1
    decreases |s| - i
  {
    var j := FindFrom(s, sep, i);
    if j == |s| then [s[i..]] else [s[i..j]] + SplitFrom(s, sep, j + |sep|)
  }

  function Split(s: string, sep: string): (parts: seq<string>)
    requires |sep| > 0
    ensures |parts| >= 1
  {
    SplitFrom(s, sep, 0)
  }

  /** Python's sep.join(parts). */
  function Join(parts: seq<string>, sep: string): string {
    if |parts| == 0 then ""
    else if |parts| == 1 then parts[0]
    else parts[0] + sep + Join(parts[1..], sep)
  }

  lemma {:induction false} JoinSplitFrom(s: string, sep: string, i: nat)
    requires |sep| > 0 && i <= |s|
    ensures Join(SplitFrom(s, sep, i), sep) == s[i..]
    decreases |s| - i
  {
    var j := FindFrom(s, sep, i);
    if j < |s| {
      var k := j + |sep|;
      SplitStepAt(s, sep, i, j, k);
      JoinSplitFrom(s, sep, k);
      JoinCons(s[i..j], SplitFrom(s, sep, k), sep);
      SliceThree(s, i, j, k);
    } else {
      SplitLastAt(s, sep, i);
    }
  }

  lemma JoinCons(x: string, rest: seq<string>, sep: string)
    requires rest != []
    ensures Join([x] + rest, sep) == x + sep + Join(rest, sep)
  {
    assert ([x] + rest)[1..] == rest;
  }

  lemma SliceThree(s: string, i: nat, j: nat, k: nat)
    requires i <= j <= k <= |s|
    ensures s[i..] == s[i..j] + s[j..k] + s[k..]
  {
  }

  /** Joining the pieces of a split gives back the string. */
  lemma JoinSplit(s: string, sep: string)
    requires |sep| > 0
    ensures Join(Split(s, sep), sep) == s
  {
    JoinSplitFrom(s, sep, 0);
  }

  lemma {:induction false} NoMatchInSlice(s: string, pat: string, i: nat, j: nat)
    requires |pat| > 0 && i <= j <= |s|
    requires forall k :: i <= k < j ==> !MatchesAt(s, k, pat)
    ensures !Contains(s[i..j], pat)
  {
    var t := s[i..j];
    if Contains(t, pat) {
      var k := FindFrom(t, pat, 0);
      assert k == Find(t, pat) && MatchesAt(t, k, pat);
      SliceOfSlice(s, i, j, k, k + |pat|);
      assert MatchesAt(s, i + k, pat);
    }
  }

  lemma SliceOfSlice(s: string, i: nat, j: nat, a: nat, b: nat)
    requires i <= j <= |s| && a <= b <= j - i
    ensures s[i..j][a..b] == s[i + a..i + b]
  {
    forall q | 0 <= q < b - a
      ensures s[i..j][a..b][q] == s[i + a..i + b][q]
    {
    }
  }

  lemma {:induction false} SplitFromPiecesFree(s: string, sep: string, i: nat)
    requires |sep| > 0 && i <= |s|
    ensures forall p :: p in SplitFrom(s, sep, i) ==> !Contains(p, sep)
    decreases |s| - i
  {
    var j := FindFrom(s, sep, i);
    NoMatchInSlice(s, sep, i, j);
    if j < |s| {
      SplitFromPiecesFree(s, sep, j + |sep|);
      assert SplitFrom(s, sep, i) == [s[i..j]] + SplitFrom(s, sep, j + |sep|);
    } else {
      assert s[i..] == s[i..|s|];
    }
  }

  /** No piece of a split contains the separator. */
  lemma SplitPiecesFree(s: string, sep: string)
    requires |sep| > 0
    ensures forall p :: p in Split(s, sep) ==> !Contains(p, sep)
  {
    SplitFromPiecesFree(s, sep, 0);
  }

  /** The first piece of a split is the text before the first occurrence. */
  lemma SplitFirst(s: string, sep: string)
    requires |sep| > 0
    ensures Split(s, sep)[0] == s[..Find(s, sep)]
  {
    assert s[0..] == s[..|s|];
  }

  /** A string without the separator splits into itself alone. */
  lemma SplitAbsent(s: string, sep: string)
    requires |sep| > 0 && !Contains(s, sep)
    ensures Split(s, sep) == [s]
  {
  }

  /** `pat` occurs in `s`, and not again after its first occurrence. */
  predicate OccursOnce(s: string, pat: string) {
    Contains(s, pat) && Find(s, pat) + |pat| <= |s| && !Contains(s[Find(s, pat) + |pat|..], pat)
  }

  /** The text from `n` on holds `pat` exactly when the search from `n` finds it. */
  lemma ContainsAfter(s: string, pat: string, n: nat)
    requires n <= |s|
    ensures Contains(s[n..], pat) <==> FindFrom(s, pat, n) < |s|
  {
    FindFromShift(s[..n], s[n..], pat, 0);
    assert s[..n] + s[n..] == s;
  }

  /** A split has exactly two pieces when the separator occurs exactly once. */
  lemma SplitTwo(s: string, sep: string)
    requires |sep| > 0
    ensures |Split(s, sep)| == 2 <==> OccursOnce(s, sep)
  {
    var j := Find(s, sep);
    if j < |s| {
      var n := j + |sep|;
      SplitStepAt(s, sep, 0, j, n);
      SplitFromSingle(s, sep, n);
      ContainsAfter(s, sep, n);
      SplitTwoAt(s, sep, j, n, SplitFrom(s, sep, n));
    } else {
      SplitLastAt(s, sep, 0);
    }
  }

  lemma SplitTwoAt(s: string, sep: string, j: nat, n: nat, rest: seq<string>)
    requires |sep| > 0 && j == Find(s, sep) && j < |s| && n == j + |sep| <= |s|
    requires Split(s, sep) == [s[..j]] + rest
    requires |rest| >= 1 && (|rest| == 1 <==> FindFrom(s, sep, n) == |s|)
    requires Contains(s[n..], sep) <==> FindFrom(s, sep, n) < |s|
    ensures |Split(s, sep)| == 2 <==> OccursOnce(s, sep)
  {
  }

  /** The split from `i` is a single piece exactly when no separator follows `i`. */
  lemma SplitFromSingle(s: string, sep: string, i: nat)
    requires |sep| > 0 && i <= |s|
    ensures |SplitFrom(s, sep, i)| == 1 <==> FindFrom(s, sep, i) == |s|
  {
    var j := FindFrom(s, sep, i);
    if j < |s| {
      SplitStepAt(s, sep, i, j, j + |sep|);
    }
  }

  /** The second piece of a split is the text between the first occurrence and the next. */
  lemma SplitSecond(s: string, sep: string)
    requires |sep| > 0 && Contains(s, sep)
    ensures var n := Find(s, sep) + |sep|;
      n <= |s| && |Split(s, sep)| >= 2 && Split(s, sep)[1] == s[n..FindFrom(s, sep, n)]
  {
    var j := Find(s, sep);
    var n := j + |sep|;
    SplitStepAt(s, sep, 0, j, n);
    SplitFromHead(s, sep, n);
    SecondOf(s[..j], SplitFrom(s, sep, n));
  }

  lemma SecondOf(x: string, rest: seq<string>)
    requires rest != []
    ensures ([x] + rest)[1] == rest[0]
  {
  }

  /** The first piece split off from `i` runs up to the next occurrence. */
  lemma SplitFromHead(s: string, sep: string, i: nat)
    requires |sep| > 0 && i <= |s|
    ensures SplitFrom(s, sep, i)[0] == s[i..FindFrom(s, sep, i)]
  {
    var j := FindFrom(s, sep, i);
    if j == |s| {
      assert s[i..] == s[i..|s|];
    }
  }

  /** The two pieces of a single occurrence join back around it. */
  lemma SplitOnce(s: string, sep: string)
    requires |sep| > 0 && OccursOnce(s, sep)
    ensures var ps := Split(s, sep); |ps| == 2 && s == ps[0] + sep + ps[1]
  {
    SplitTwo(s, sep);
    JoinSplit(s, sep);
    var ps := Split(s, sep);
    assert ps == [ps[0]] + [ps[1]];
    JoinCons(ps[0], [ps[1]], sep);
  }

  lemma {:induction false} FindFromShift(x: string, y: string, pat: string, k: nat)
    requires k <= |y|
    ensures FindFrom(x + y, pat, |x| + k) == |x| + FindFrom(y, pat, k)
    decreases |y| - k
  {
    MatchesAtShift(x, y, pat, k);
    if k < |y| && !MatchesAt(y, k, pat) {
      FindFromShift(x, y, pat, k + 1);
    }
  }

  lemma MatchesAtShift(x: string, y: string, pat: string, k: nat)
    ensures MatchesAt(x + y, |x| + k, pat) <==> MatchesAt(y, k, pat)
  {
    if k + |pat| <= |y| {
      assert (x + y)[|x| + k..|x| + k + |pat|] == y[k..k + |pat|];
    }
  }

  lemma MatchesAtPrefix(x: string, y: string, pat: string, k: nat)
    requires k + |pat| <= |x|
    ensures MatchesAt(x + y, k, pat) <==> MatchesAt(x, k, pat)
  {
    assert (x + y)[k..k + |pat|] == x[k..k + |pat|];
  }

  /** Splitting a one-character-separated list whose pieces avoid the
      separator gives the list back. */
  lemma SplitJoinChar(parts: seq<string>, c: char)
    requires |parts| >= 1
    requires forall p :: p in parts ==> c !in p
    ensures Split(Join(parts, [c]), [c]) == parts
  {
    var s := Join(parts, [c]);
    assert s[0..] == s;
    assert forall k :: 0 <= k < |parts| ==> parts[k] in parts;
    SplitJoinCharFrom(s, c, 0, parts);
  }

  lemma {:induction false} SplitJoinCharFrom(s: string, c: char, i: nat, parts: seq<string>)
    requires i <= |s| && |parts| >= 1
    requires forall k :: 0 <= k < |parts| ==> c !in parts[k]
    requires s[i..] == Join(parts, [c])
    ensures SplitFrom(s, [c], i) == parts
    decreases |parts|
  {
    if |parts| == 1 {
      SplitOnePiece(s, c, i, parts[0]);
      assert parts == [parts[0]];
    } else {
      var p0, tail := parts[0], parts[1..];
      assert parts == [p0] + tail;
      PieceAfter(s, i, p0, c, Join(tail, [c]));
      assert forall k :: 0 <= k < |tail| ==> tail[k] == parts[k + 1];
      SplitJoinCharFrom(s, c, i + |p0| + 1, tail);
      SplitHeadPiece(s, c, i, p0, tail);
    }
  }

  /** A text ending in one piece without the separator splits into that piece. */
  lemma SplitOnePiece(s: string, c: char, i: nat, p: string)
    requires i <= |s| && s[i..] == p && c !in p
    ensures SplitFrom(s, [c], i) == [p]
  {
    assert s[i..|s|] == p;
    FirstPiece(s, c, i, |s|);
    SplitLastAt(s, [c], i);
  }

  /** A text that starts at `i` with `p`, the separator `c` and then `r`: its slices. */
  lemma PieceAfter(s: string, i: nat, p: string, c: char, r: string)
    requires i <= |s| && s[i..] == p + [c] + r
    ensures i + |p| < |s| && s[i..i + |p|] == p && s[i + |p|] == c && s[i + |p| + 1..] == r
  {
    PieceThen(s, i, p, [c] + r);
    assert s[i + |p|..][1..] == s[i + |p| + 1..];
  }

  /** A piece without `c` followed by `c` is split off before the rest. */
  lemma SplitHeadPiece(s: string, c: char, i: nat, p: string, tail: seq<string>)
    requires i + |p| < |s| && s[i..i + |p|] == p && s[i + |p|] == c && c !in p
    requires SplitFrom(s, [c], i + |p| + 1) == tail
    ensures SplitFrom(s, [c], i) == [p] + tail
  {
    FirstPiece(s, c, i, i + |p|);
    SplitStepAt(s, [c], i, i + |p|, i + |p| + 1);
  }

  /** A split step at a separator found at `j`, resuming at `n`. */
  lemma SplitStepAt(s: string, sep: string, i: nat, j: nat, n: nat)
    requires |sep| > 0 && i <= |s|
    requires j == FindFrom(s, sep, i) && j < |s| && n == j + |sep|
    ensures n <= |s| && SplitFrom(s, sep, i) == [s[i..j]] + SplitFrom(s, sep, n)
  {
  }

  /** The last piece of a split, when no separator follows `i`. */
  lemma SplitLastAt(s: string, sep: string, i: nat)
    requires |sep| > 0 && i <= |s| && FindFrom(s, sep, i) == |s|
    ensures SplitFrom(s, sep, i) == [s[i..]]
  {
  }

  /** `b` starts a piece of a split of `s` on `sep`: it is 0 or just after a separator. */
  predicate PieceStart(s: string, sep: string, b: nat) {
    b <= |s| && (b == 0 || (|sep| <= b && MatchesAt(s, b - |sep|, sep)))
  }

  /** When every piece of `s` that starts at a piece start has property `P`, every
      piece split off from piece start `i` on has it. */
  lemma {:induction false} SplitPieces(s: string, sep: string, i: nat, P: string -> bool)
    requires |sep| > 0 && PieceStart(s, sep, i)
    requires forall b: nat {:trigger PieceStart(s, sep, b)} :: PieceStart(s, sep, b) ==> P(s[b..FindFrom(s, sep, b)])
    ensures forall t :: t in SplitFrom(s, sep, i) ==> P(t)
    decreases |s| - i
  {
    var j := FindFrom(s, sep, i);
    if j < |s| {
      var n := j + |sep|;
      SplitStepAt(s, sep, i, j, n);
      assert n - |sep| == j;
      assert PieceStart(s, sep, n);
      SplitPieces(s, sep, n, P);
      assert P(s[i..j]);
    } else {
      SplitLastAt(s, sep, i);
      assert s[i..j] == s[i..];
      assert P(s[i..j]);
    }
  }

  /** A text that starts at `i` with `p`: its slices. */
  lemma PieceThen(s: string, i: nat, p: string, r: string)
    requires i <= |s| && s[i..] == p + r
    ensures i + |p| <= |s| && s[i..i + |p|] == p && s[i + |p|..] == r
  {
    assert s[i..i + |p|] == s[i..][..|p|];
    assert s[i + |p|..] == s[i..][|p|..];
  }

  /** The first occurrence of the character `c` at or after `i` is at `e`, or
      there is none and `e` is the end. */
  lemma FirstPiece(s: string, c: char, i: nat, e: nat)
    requires i <= e <= |s| && c !in s[i..e] && (e < |s| ==> s[e] == c)
    ensures FindFrom(s, [c], i) == e
  {
    forall k | i <= k < e
      ensures !MatchesAt(s, k, [c])
    {
      assert s[k] == s[i..e][k - i];
      MatchesAtChar(s, k, c);
    }
    if e < |s| {
      MatchesAtChar(s, e, c);
      FindFirstAt(s, [c], i, e);
    } else {
      FindAbsentFrom(s, [c], i);
    }
  }

  lemma {:induction false} FindAbsentFrom(s: string, pat: string, i: nat)
    requires i <= |s|
    requires forall k :: i <= k < |s| ==> !MatchesAt(s, k, pat)
    ensures FindFrom(s, pat, i) == |s|
    decreases |s| - i
  {
    if i < |s| {
      FindAbsentFrom(s, pat, i + 1);
    }
  }

  lemma {:induction false} FindFirstAt(s: string, pat: string, i: nat, j: nat)
    requires i <= j < |s|
    requires forall k :: i <= k < j ==> !MatchesAt(s, k, pat)
    requires MatchesAt(s, j, pat)
    ensures FindFrom(s, pat, i) == j
    decreases j - i
  {
    if i < j {
      FindFirstAt(s, pat, i + 1, j);
    }
  }

  /** The first index at or after `i` whose character is not in `cs`. */
  function SkipFrom(s: string, cs: set<char>, i: nat): (j: nat)
    requires i <= |s|
    ensures i <= j <= |s|
    ensures j < |s| ==> s[j] !in cs
    decreases |s| - i
  {
    if i < |s| && s[i] in cs then SkipFrom(s, cs, i + 1) else i
  }

  /** Everything SkipFrom skips is in `cs`. */
  lemma {:induction false} SkipRun(s: string, cs: set<char>, i: nat)
    requires i <= |s|
    ensures forall k :: i <= k < SkipFrom(s, cs, i) ==> s[k] in cs
    decreases |s| - i
  {
    if i < |s| && s[i] in cs {
      SkipRun(s, cs, i + 1);
    }
  }

  /** The least index `k` with lo <= k <= j such that every character of
      s[k..j] is in `cs`. */
  function BackFrom(s: string, cs: set<char>, lo: nat, j: nat): (k: nat)
    requires lo <= j <= |s|
    ensures lo <= k <= j
    ensures k > lo ==> s[k - 1] !in cs
    decreases j
  {
    if j > lo && s[j - 1] in cs then BackFrom(s, cs, lo, j - 1) else j
  }

  /** Everything BackFrom steps back over is in `cs`. */
  lemma {:induction false} BackRun(s: string, cs: set<char>, lo: nat, j: nat)
    requires lo <= j <= |s|
    ensures forall m :: BackFrom(s, cs, lo, j) <= m < j ==> s[m] in cs
    decreases j
  {
    if j > lo && s[j - 1] in cs {
      BackRun(s, cs, lo, j - 1);
    }
  }

  /** Python's s.rstrip(chars), written with the characters as a set. */
  function StripEnd(s: string, cs: set<char>): (r: string)
    ensures r == s[..BackFrom(s, cs, 0, |s|)]
    ensures r == [] || r[|r| - 1] !in cs
    ensures forall m :: |r| <= m < |s| ==> s[m] in cs
  {
    BackRun(s, cs, 0, |s|);
    s[..BackFrom(s, cs, 0, |s|)]
  }

  /** Python's s.strip(chars): the slice s[a..b] left after dropping the
      longest prefix and suffix made of characters in `cs`. */
  function Strip(s: string, cs: set<char>): (r: string)
    ensures r == [] || (r[0] !in cs && r[|r| - 1] !in cs)
  {
    var a := SkipFrom(s, cs, 0);
    s[a..BackFrom(s, cs, a, |s|)]
  }

  /** The bounds of the slice Strip keeps, and that everything outside it is stripped. */
  lemma StripSlice(s: string, cs: set<char>) returns (a: nat, b: nat)
    ensures a <= b <= |s| && Strip(s, cs) == s[a..b]
    ensures forall m :: 0 <= m < a ==> s[m] in cs
    ensures forall m :: b <= m < |s| ==> s[m] in cs
  {
    a := SkipFrom(s, cs, 0);
    b := BackFrom(s, cs, a, |s|);
    SkipRun(s, cs, 0);
    BackRun(s, cs, a, |s|);
  }

  /** A string whose ends are not strippable is left unchanged. */
  lemma StripNoop(s: string, cs: set<char>)
    requires s == [] || (s[0] !in cs && s[|s| - 1] !in cs)
    ensures Strip(s, cs) == s
  {
  }

  lemma StripEndNoop(s: string, cs: set<char>)
    requires s != [] && s[|s| - 1] !in cs
    ensures StripEnd(s, cs) == s
  {
    assert s[..|s|] == s;
  }

  /** Python re.sub(pat, rep, s) for a pattern without regex metacharacters:
      occurrences are replaced left to right, without overlapping. */
  function ReplaceFrom(s: string, pat: string, rep: string, i: nat): string
    requires |pat| > 0 && i <= |s|
    decreases |s| - i
  {
    if i == |s| then ""
    else if MatchesAt(s, i, pat) then rep + ReplaceFrom(s, pat, rep, i + |pat|)
    else [s[i]] + ReplaceFrom(s, pat, rep, i + 1)
  }

  function Replace(s: string, pat: string, rep: string): string
    requires |pat| > 0
  {
    ReplaceFrom(s, pat, rep, 0)
  }

  /** Without an occurrence of the pattern nothing is replaced. */
  lemma {:induction false} ReplaceAbsent(s: string, pat: string, rep: string, i: nat)
    requires |pat| > 0 && i <= |s|
    requires forall k :: i <= k < |s| ==> !MatchesAt(s, k, pat)
    ensures ReplaceFrom(s, pat, rep, i) == s[i..]
    decreases |s| - i
  {
    if i < |s| {
      ReplaceAbsent(s, pat, rep, i + 1);
      assert s[i..] == [s[i]] + s[i + 1..];
    }
  }

  /** Replace by a one-character pattern leaves a string without that character unchanged. */
  lemma ReplaceCharAbsent(s: string, c: char, rep: string)
    requires c !in s
    ensures Replace(s, [c], rep) == s
  {
    forall k | 0 <= k < |s|
      ensures !MatchesAt(s, k, [c])
    {
      MatchesAtChar(s, k, c);
    }
    ReplaceAbsent(s, [c], rep, 0);
  }

  /** `a` does not end with a non-empty proper prefix of `pat`, so no
      occurrence can straddle the end of `a`. */
  predicate NoStraddle(a: string, pat: string) {
    forall m :: 0 < m < |pat| && m <= |a| ==> a[|a| - m..] != pat[..m]
  }

  lemma {:induction false} ReplaceFromShift(x: string, y: string, pat: string, rep: string, k: nat)
    requires |pat| > 0 && k <= |y|
    ensures ReplaceFrom(x + y, pat, rep, |x| + k) == ReplaceFrom(y, pat, rep, k)
    decreases |y| - k
  {
    var s := x + y;
    if k < |y| {
      MatchesAtShift(x, y, pat, k);
      assert s[|x| + k] == y[k];
      if MatchesAt(y, k, pat) {
        ReplaceFromShift(x, y, pat, rep, k + |pat|);
        assert ReplaceFrom(s, pat, rep, |x| + k) == rep + ReplaceFrom(s, pat, rep, |x| + (k + |pat|));
      } else {
        ReplaceFromShift(x, y, pat, rep, k + 1);
        assert ReplaceFrom(s, pat, rep, |x| + k) == [y[k]] + ReplaceFrom(s, pat, rep, |x| + (k + 1));
      }
    }
  }

  /** Literal replacement is local: it works on the two halves separately
      when no occurrence straddles the cut. */
  lemma {:induction false} ReplaceConcatFrom(a: string, b: string, pat: string, rep: string, i: nat)
    requires |pat| > 0 && i <= |a| && NoStraddle(a, pat)
    ensures ReplaceFrom(a + b, pat, rep, i) == ReplaceFrom(a, pat, rep, i) + Replace(b, pat, rep)
    decreases |a| - i
  {
    if i == |a| {
      ReplaceFromShift(a, b, pat, rep, 0);
    } else {
      if i + |pat| <= |a| {
        MatchesAtPrefix(a, b, pat, i);
      } else {
        NoMatchAtCut(a, b, pat, i);
      }
      var n := if MatchesAt(a, i, pat) then i + |pat| else i + 1;
      ReplaceConcatFrom(a, b, pat, rep, n);
      ReplaceConcatStep(a, b, pat, rep, i, n);
    }
  }

  /** One step of ReplaceConcatFrom: the same head is emitted for `a` and for
      a + b, and the rest follows from the claim at the next index `n`. */
  lemma ReplaceConcatStep(a: string, b: string, pat: string, rep: string, i: nat, n: nat)
    requires |pat| > 0 && i < |a| && MatchesAt(a, i, pat) == MatchesAt(a + b, i, pat)
    requires n == if MatchesAt(a, i, pat) then i + |pat| else i + 1
    requires n <= |a|
    requires ReplaceFrom(a + b, pat, rep, n) == ReplaceFrom(a, pat, rep, n) + Replace(b, pat, rep)
    ensures ReplaceFrom(a + b, pat, rep, i) == ReplaceFrom(a, pat, rep, i) + Replace(b, pat, rep)
  {
    var s := a + b;
    var head := if MatchesAt(a, i, pat) then rep else [a[i]];
    if MatchesAt(a, i, pat) {
      ReplaceMatchStep(s, pat, rep, i);
      ReplaceMatchStep(a, pat, rep, i);
    } else {
      assert s[i] == a[i];
      ReplaceKeepStep(s, pat, rep, i);
      ReplaceKeepStep(a, pat, rep, i);
    }
    Regroup(head, ReplaceFrom(a, pat, rep, n), Replace(b, pat, rep));
  }

  /** Near the end of `a`, no occurrence starts, in `a` or, given NoStraddle, in a + b. */
  lemma NoMatchAtCut(a: string, b: string, pat: string, i: nat)
    requires |pat| > 0 && i < |a| < i + |pat| && NoStraddle(a, pat)
    ensures !MatchesAt(a, i, pat) && !MatchesAt(a + b, i, pat)
  {
    var m := |a| - i;
    assert a[|a| - m..] != pat[..m];
    if i + |pat| <= |a + b| {
      assert (a + b)[i..i + |pat|][..m] == a[i..];
    }
  }

  lemma ReplaceMatchStep(s: string, pat: string, rep: string, i: nat)
    requires |pat| > 0 && i < |s| && MatchesAt(s, i, pat)
    ensures ReplaceFrom(s, pat, rep, i) == rep + ReplaceFrom(s, pat, rep, i + |pat|)
  {
  }

  lemma ReplaceKeepStep(s: string, pat: string, rep: string, i: nat)
    requires |pat| > 0 && i < |s| && !MatchesAt(s, i, pat)
    ensures ReplaceFrom(s, pat, rep, i) == [s[i]] + ReplaceFrom(s, pat, rep, i + 1)
  {
  }

  lemma Regroup(x: string, y: string, z: string)
    ensures x + (y + z) == (x + y) + z
  {
  }

  lemma ReplaceConcat(a: string, b: string, pat: string, rep: string)
    requires |pat| > 0 && NoStraddle(a, pat)
    ensures Replace(a + b, pat, rep) == Replace(a, pat, rep) + Replace(b, pat, rep)
  {
    ReplaceConcatFrom(a, b, pat, rep, 0);
  }

  /** An occurrence fixes the characters it covers. */
  lemma MatchChar(s: string, k: nat, pat: string, j: nat)
    requires j < |pat|
    ensures MatchesAt(s, k, pat) ==> s[k + j] == pat[j]
  {
    if MatchesAt(s, k, pat) {
      assert s[k..k + |pat|][j] == s[k + j];
    }
  }

  /** An occurrence at the front is replaced, and the scan resumes after it. */
  lemma ReplaceLead(pat: string, y: string, rep: string)
    requires |pat| > 0
    ensures Replace(pat + y, pat, rep) == rep + Replace(y, pat, rep)
  {
    assert (pat + y)[..|pat|] == pat;
    ReplaceFromShift(pat, y, pat, rep, 0);
  }

  /** A first character that starts no occurrence is kept. */
  lemma ReplaceMissHead(c: char, y: string, pat: string, rep: string)
    requires |pat| > 0 && !MatchesAt([c] + y, 0, pat)
    ensures Replace([c] + y, pat, rep) == [c] + Replace(y, pat, rep)
  {
    ReplaceFromShift([c], y, pat, rep, 0);
  }

  /** A prefix without the first character of the pattern is kept as it is. */
  lemma ReplaceNoHead(x: string, y: string, pat: string, rep: string)
    requires |pat| > 0 && pat[0] !in x
    ensures Replace(x + y, pat, rep) == x + Replace(y, pat, rep)
  {
    forall m | 0 < m < |pat| && m <= |x|
      ensures x[|x| - m..] != pat[..m]
    {
      assert x[|x| - m..][0] == x[|x| - m];
    }
    ReplaceConcat(x, y, pat, rep);
    forall k | 0 <= k < |x|
      ensures !MatchesAt(x, k, pat)
    {
      MatchChar(x, k, pat, 0);
    }
    ReplaceAbsent(x, pat, rep, 0);
  }

  /** A string in which two adjacent characters of the pattern never occur side by side
      contains no occurrence, so nothing is replaced. */
  lemma ReplaceNoPair(s: string, pat: string, rep: string, j: nat)
    requires j + 1 < |pat|
    requires forall k :: 0 <= k < |s| - 1 ==> !(s[k] == pat[j] && s[k + 1] == pat[j + 1])
    ensures Replace(s, pat, rep) == s
  {
    forall k | 0 <= k < |s|
      ensures !MatchesAt(s, k, pat)
    {
      MatchChar(s, k, pat, j);
      MatchChar(s, k, pat, j + 1);
    }
    ReplaceAbsent(s, pat, rep, 0);
  }

  /** A string missing some character of the pattern contains no occurrence. */
  lemma ReplaceNoChar(s: string, pat: string, rep: string, j: nat)
    requires j < |pat| && pat[j] !in s
    ensures Replace(s, pat, rep) == s
  {
    forall k | 0 <= k < |s|
      ensures !MatchesAt(s, k, pat)
    {
      MatchChar(s, k, pat, j);
    }
    ReplaceAbsent(s, pat, rep, 0);
  }

  /** Replacing in `a` followed by anything yields `b` followed by the replacement
      of the rest: no occurrence starts in `a` and reaches past it. */
  ghost predicate Passes(a: string, b: string, pat: string, rep: string)
    requires |pat| > 0
  {
    forall x: string {:trigger Replace(a + x, pat, rep)} :: Replace(a + x, pat, rep) == b + Replace(x, pat, rep)
  }

  lemma PassesWhole(a: string, b: string, pat: string, rep: string)
    requires |pat| > 0 && Passes(a, b, pat, rep)
    ensures Replace(a, pat, rep) == b
  {
    assert a + "" == a;
    assert Replace(a + "", pat, rep) == b + Replace("", pat, rep);
  }

  lemma PassesCat(a1: string, b1: string, a2: string, b2: string, pat: string, rep: string)
    requires |pat| > 0 && Passes(a1, b1, pat, rep) && Passes(a2, b2, pat, rep)
    ensures Passes(a1 + a2, b1 + b2, pat, rep)
  {
    forall x: string
      ensures Replace(a1 + a2 + x, pat, rep) == b1 + b2 + Replace(x, pat, rep)
    {
      assert a1 + a2 + x == a1 + (a2 + x);
      assert Replace(a1 + (a2 + x), pat, rep) == b1 + Replace(a2 + x, pat, rep);
      assert b1 + (b2 + Replace(x, pat, rep)) == b1 + b2 + Replace(x, pat, rep);
    }
  }

  /** A string without the first character of the pattern passes unchanged. */
  lemma PassesClean(a: string, pat: string, rep: string)
    requires |pat| > 0 && pat[0] !in a
    ensures Passes(a, a, pat, rep)
  {
    forall x: string
      ensures Replace(a + x, pat, rep) == a + Replace(x, pat, rep)
    {
      ReplaceNoHead(a, x, pat, rep);
    }
  }

  /** The pattern itself passes as the replacement. */
  lemma PassesPat(pat: string, rep: string)
    requires |pat| > 0
    ensures Passes(pat, rep, pat, rep)
  {
    forall x: string
      ensures Replace(pat + x, pat, rep) == rep + Replace(x, pat, rep)
    {
      ReplaceLead(pat, x, rep);
    }
  }

  /** A character followed by a string that differs from the pattern at position
      `j` starts no occurrence. */
  lemma PassesMiss(c: char, y: string, b: string, pat: string, rep: string, j: nat)
    requires 0 < j < |pat| && j - 1 < |y| && y[j - 1] != pat[j]
    requires Passes(y, b, pat, rep)
    ensures Passes([c] + y, [c] + b, pat, rep)
  {
    forall x: string
      ensures Replace([c] + y + x, pat, rep) == [c] + b + Replace(x, pat, rep)
    {
      var s := [c] + (y + x);
      assert [c] + y + x == s;
      MatchChar(s, 0, pat, j);
      assert s[j] == y[j - 1];
      ReplaceMissHead(c, y + x, pat, rep);
      assert [c] + (b + Replace(x, pat, rep)) == [c] + b + Replace(x, pat, rep);
    }
  }

  /** A string lacking some character of the pattern does not contain it. */
  lemma AbsentChar(s: string, pat: string, j: nat)
    requires j < |pat| && pat[j] !in s
    ensures !Contains(s, pat)
  {
    MatchChar(s, Find(s, pat), pat, j);
  }

  /** A match in a concatenation lies in one half when a character at the cut is
      not a character of the pattern. */
  lemma ContainsConcat(a: string, b: string, pat: string)
    requires |pat| > 0 && !Contains(a, pat) && !Contains(b, pat)
    requires (a != [] && a[|a| - 1] !in pat) || (b != [] && b[0] !in pat)
    ensures !Contains(a + b, pat)
  {
    ContainsIff(a + b, pat);
    forall k | 0 <= k < |a + b|
      ensures !MatchesAt(a + b, k, pat)
    {
      if k + |pat| <= |a| {
        MatchesAtPrefix(a, b, pat, k);
        NotContains(a, pat, k);
      } else if k >= |a| {
        MatchesAtShift(a, b, pat, k - |a|);
        NotContains(b, pat, k - |a|);
      } else if a != [] && a[|a| - 1] !in pat {
        MatchChar(a + b, k, pat, |a| - 1 - k);
      } else {
        MatchChar(a + b, k, pat, |a| - k);
      }
    }
  }

  /** Every character of the result comes from the input or from the replacement. */
  lemma {:induction false} ReplaceChars(s: string, pat: string, rep: string, i: nat)
    requires |pat| > 0 && i <= |s|
    ensures forall c :: c in ReplaceFrom(s, pat, rep, i) ==> c in s[i..] || c in rep
    decreases |s| - i
  {
    if i < |s| {
      var next := if MatchesAt(s, i, pat) then i + |pat| else i + 1;
      ReplaceChars(s, pat, rep, next);
      assert forall c :: c in s[next..] ==> c in s[i..] by {
        assert s[i..] == s[i..next] + s[next..];
      }
      assert s[i] in s[i..] by { assert s[i..][0] == s[i]; }
    }
  }

  /** Replacing a one-character pattern by text without it removes that character. */
  lemma {:induction false} ReplaceRemovesChar(s: string, c: char, rep: string, i: nat)
    requires i <= |s| && c !in rep
    ensures c !in ReplaceFrom(s, [c], rep, i)
    decreases |s| - i
  {
    if i < |s| {
      MatchesAtChar(s, i, c);
      if MatchesAt(s, i, [c]) {
        ReplaceRemovesChar(s, c, rep, i + 1);
      } else {
        ReplaceRemovesChar(s, c, rep, i + 1);
      }
    }
  }

  /** Replacing one character by one character maps the string position by position. */
  lemma {:induction false} ReplaceCharMap(s: string, c: char, d: char, i: nat)
    requires i <= |s|
    ensures |ReplaceFrom(s, [c], [d], i)| == |s| - i
    ensures forall k :: 0 <= k < |s| - i ==>
      ReplaceFrom(s, [c], [d], i)[k] == (if s[i + k] == c then d else s[i + k])
    decreases |s| - i
  {
    if i < |s| {
      ReplaceCharMap(s, c, d, i + 1);
      MatchesAtChar(s, i, c);
      var r := ReplaceFrom(s, [c], [d], i + 1);
      var x := if s[i] == c then d else s[i];
      assert ReplaceFrom(s, [c], [d], i) == [x] + r;
      forall k | 0 < k < |s| - i
        ensures ([x] + r)[k] == (if s[i + k] == c then d else s[i + k])
      {
        assert ([x] + r)[k] == r[k - 1];
        assert i + 1 + (k - 1) == i + k;
      }
    }
  }

  /** The first character of a replacement result, when the replacement text is not empty. */
  lemma ReplaceHead(s: string, pat: string, rep: string, i: nat)
    requires |pat| > 0 && i < |s| && |rep| > 0
    ensures ReplaceFrom(s, pat, rep, i) != []
    ensures ReplaceFrom(s, pat, rep, i)[0] == if MatchesAt(s, i, pat) then rep[0] else s[i]
  {
  }

  /** The decimal digits of `n`, as Python's f"{n}" writes a non-negative integer. */
  function Decimal(n: nat): (r: string)
    ensures |r| >= 1
    ensures forall k :: 0 <= k < |r| ==> IsDigit(r[k])
  {
    var d := ['0' + (n % 10) as char];
    if n < 10 then d else Decimal(n / 10) + d
  }
}
