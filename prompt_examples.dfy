/** The tokenizer on concrete prompts: the example of its docstring, and an
    input that shows that tokenizing the joined tags again can change them. */
module PromptExamples {
  import opened Text
  import opened Prompt

  // ---------------------------------------------------------------------
  // How each rewrite treats a prefix it has nothing to do in
  // ---------------------------------------------------------------------

  lemma {:induction false} RemoveWeightsPlainFrom(a: string, b: string, i: nat)
    requires i <= |a|
    requires forall c :: c in a ==> !IsDigit(c)
    ensures RemoveWeightsFrom(a + b, i) == a[i..] + RemoveWeightsFrom(a + b, |a|)
    decreases |a| - i
  {
    if i < |a| {
      var s := a + b;
      assert s[i] == a[i] && a[i] in a;
      assert DigitsFrom(s, i) == 0;
      assert WeightAt(s, i) == 0;
      assert RemoveWeightsFrom(s, i) == [s[i]] + RemoveWeightsFrom(s, i + 1);
      RemoveWeightsPlainFrom(a, b, i + 1);
      assert a[i..] == [a[i]] + a[i + 1..];
    }
  }

  lemma {:induction false} DigitsShift(x: string, y: string, k: nat)
    requires k <= |y|
    ensures DigitsFrom(x + y, |x| + k) == DigitsFrom(y, k)
    decreases |y| - k
  {
    if k < |y| {
      assert (x + y)[|x| + k] == y[k];
      DigitsShift(x, y, k + 1);
    }
  }

  lemma WeightShift(x: string, y: string, k: nat)
    requires k <= |y|
    ensures WeightAt(x + y, |x| + k) == WeightAt(y, k)
  {
    var s := x + y;
    DigitsShift(x, y, k);
    var d := DigitsFrom(y, k);
    if d > 0 && k + d < |y| && y[k + d] == '.' {
      assert s[|x| + k + d] == y[k + d];
      DigitsShift(x, y, k + d + 1);
    }
  }

  lemma {:induction false} RemoveWeightsShift(x: string, y: string, s: string, k: nat, m: nat)
    requires s == x + y && k <= |y| && m == |x| + k
    ensures RemoveWeightsFrom(s, m) == RemoveWeightsFrom(y, k)
    decreases |y| - k
  {
    if k < |y| {
      WeightShift(x, y, k);
      var w := WeightAt(y, k);
      var n := if w > 0 then w else 1;
      RemoveWeightsShift(x, y, s, k + n, m + n);
      assert s[m] == y[k];
      RemoveSame(s, y, m, k, w, n);
    }
  }

  /** Two scans at the same character and the same weight, with equal results
      after it, have equal results. */
  lemma RemoveSame(s: string, y: string, i: nat, k: nat, w: nat, n: nat)
    requires i < |s| && k < |y| && s[i] == y[k]
    requires w == WeightAt(s, i) && w == WeightAt(y, k) && n == if w > 0 then w else 1
    requires i + n <= |s| && k + n <= |y|
    requires RemoveWeightsFrom(s, i + n) == RemoveWeightsFrom(y, k + n)
    ensures RemoveWeightsFrom(s, i) == RemoveWeightsFrom(y, k)
  {
    RemoveStep(s, i, w, n);
    RemoveStep(y, k, w, n);
  }

  /** One step of the weight removal: a weight is dropped, any other character kept. */
  lemma RemoveStep(s: string, i: nat, w: nat, n: nat)
    requires i < |s| && w == WeightAt(s, i) && n == if w > 0 then w else 1
    ensures i + n <= |s|
    ensures RemoveWeightsFrom(s, i) == (if w > 0 then [] else [s[i]]) + RemoveWeightsFrom(s, i + n)
  {
  }

  /** A prefix without digits passes through the weight removal unchanged. */
  lemma RemoveWeightsPlain(a: string, b: string)
    requires forall c :: c in a ==> !IsDigit(c)
    ensures RemoveWeights(a + b) == a + RemoveWeights(b)
  {
    RemoveWeightsPlainFrom(a, b, 0);
    RemoveWeightsShift(a, b, a + b, 0, |a|);
    assert a[0..] == a;
  }

  lemma {:induction false} ParensToCommasConcatFrom(a: string, b: string, i: nat)
    requires i <= |a|
    ensures ParensToCommasFrom(a + b, i) == ParensToCommasFrom(a, i) + ParensToCommas(b)
    decreases |a| - i
  {
    var s := a + b;
    var l := ParensToCommasFrom(s, i);
    var r := ParensToCommasFrom(a, i) + ParensToCommas(b);
    assert |l| == |r|;
    forall k | 0 <= k < |l|
      ensures l[k] == r[k]
    {
      if i + k < |a| {
        assert s[i + k] == a[i + k];
      } else {
        assert s[i + k] == b[i + k - |a|];
      }
    }
  }

  lemma ParensToCommasConcat(a: string, b: string)
    ensures ParensToCommas(a + b) == ParensToCommas(a) + ParensToCommas(b)
  {
    ParensToCommasConcatFrom(a, b, 0);
  }

  lemma ParensToCommasPlain(a: string)
    requires '(' !in a && ')' !in a
    ensures ParensToCommas(a) == a
  {
    var r := ParensToCommas(a);
    forall k | 0 <= k < |a|
      ensures r[k] == a[k]
    {
      assert a[k] in a;
    }
  }

  lemma {:induction false} ClosesAngleShift(x: string, y: string, k: nat)
    requires k <= |y|
    ensures ClosesAngleFrom(x + y, |x| + k) == ClosesAngleFrom(y, k)
    decreases |y| - k
  {
    if k < |y| {
      assert (x + y)[|x| + k] == y[k];
      ClosesAngleShift(x, y, k + 1);
    }
  }

  lemma {:induction false} DropColonsShift(x: string, y: string, k: nat)
    requires k <= |y|
    ensures DropColonsFrom(x + y, |x| + k) == DropColonsFrom(y, k)
    decreases |y| - k
  {
    if k < |y| {
      assert (x + y)[|x| + k] == y[k];
      ClosesAngleShift(x, y, k + 1);
      DropColonsShift(x, y, k + 1);
    }
  }

  lemma {:induction false} DropColonsPlainFrom(a: string, b: string, i: nat)
    requires i <= |a| && ':' !in a
    ensures DropColonsFrom(a + b, i) == a[i..] + DropColonsFrom(a + b, |a|)
    decreases |a| - i
  {
    if i < |a| {
      assert (a + b)[i] == a[i] && a[i] in a;
      DropColonsPlainFrom(a, b, i + 1);
      assert a[i..] == [a[i]] + a[i + 1..];
    }
  }

  /** A prefix without colons passes through the colon removal unchanged. */
  lemma DropColonsPlain(a: string, b: string)
    requires ':' !in a
    ensures DropColons(a + b) == a + DropColons(b)
  {
    DropColonsPlainFrom(a, b, 0);
    DropColonsShift(a, b, 0);
    assert a[0..] == a;
  }

  /** The end of `a` and the start of `b` are not both in [,\s], so no run of
      separators crosses the junction. */
  predicate SepJunction(a: string, b: string) {
    a == [] || b == [] || a[|a| - 1] !in SepChars || b[0] !in SepChars
  }

  lemma {:induction false} SkipPrefix(a: string, b: string, i: nat)
    requires i < |a| && SepJunction(a, b)
    ensures SkipFrom(a + b, SepChars, i) == SkipFrom(a, SepChars, i)
    decreases |a| - i
  {
    assert (a + b)[i] == a[i];
    if a[i] in SepChars {
      if i + 1 < |a| {
        SkipPrefix(a, b, i + 1);
      } else if b != [] {
        assert (a + b)[i + 1] == b[0];
      }
    }
  }

  lemma {:induction false} SkipShift(x: string, y: string, k: nat)
    requires k <= |y|
    ensures SkipFrom(x + y, SepChars, |x| + k) == |x| + SkipFrom(y, SepChars, k)
    decreases |y| - k
  {
    if k < |y| {
      assert (x + y)[|x| + k] == y[k];
      SkipShift(x, y, k + 1);
    }
  }

  lemma {:induction false} CollapseShift(x: string, y: string, k: nat, n: nat)
    requires k <= |y| && n == |x| + k
    ensures CollapseSepsFrom(x + y, n) == CollapseSepsFrom(y, k)
    decreases |y| - k
  {
    if k < |y| {
      SkipShift(x, y, k);
      var j := SkipFrom(y, SepChars, k);
      var m := SkipFrom(x + y, SepChars, n);
      assert m == |x| + j;
      if j - k >= 2 {
        CollapseShift(x, y, j, m);
        ShiftRun(x + y, y, n, k, m, j);
      } else {
        CollapseShift(x, y, k + 1, n + 1);
        assert (x + y)[n] == y[k];
        ShiftKeep(x + y, y, n, k);
      }
    } else {
      assert CollapseSepsFrom(x + y, n) == [];
    }
  }

  /** Two runs that collapse to a comma each, followed by equal collapses. */
  lemma ShiftRun(s: string, y: string, i: nat, k: nat, m: nat, j: nat)
    requires i < |s| && k < |y|
    requires m == SkipFrom(s, SepChars, i) && j == SkipFrom(y, SepChars, k)
    requires m - i == j - k >= 2
    requires CollapseSepsFrom(s, m) == CollapseSepsFrom(y, j)
    ensures CollapseSepsFrom(s, i) == CollapseSepsFrom(y, k)
  {
    CollapseRun(s, i, m);
    CollapseRun(y, k, j);
  }

  /** Two equal characters that are kept, followed by equal collapses. */
  lemma ShiftKeep(s: string, y: string, i: nat, k: nat)
    requires i < |s| && k < |y| && s[i] == y[k]
    requires SkipFrom(s, SepChars, i) - i == SkipFrom(y, SepChars, k) - k < 2
    requires CollapseSepsFrom(s, i + 1) == CollapseSepsFrom(y, k + 1)
    ensures CollapseSepsFrom(s, i) == CollapseSepsFrom(y, k)
  {
    CollapseKeep(s, i);
    CollapseKeep(y, k);
  }

  lemma {:induction false} CollapseConcatFrom(a: string, b: string, i: nat)
    requires i <= |a| && SepJunction(a, b)
    ensures CollapseSepsFrom(a + b, i) == CollapseSepsFrom(a, i) + CollapseSepsFrom(a + b, |a|)
    decreases |a| - i
  {
    if i < |a| {
      var s := a + b;
      SkipPrefix(a, b, i);
      assert s[i] == a[i];
      var j := SkipFrom(a, SepChars, i);
      assert SkipFrom(s, SepChars, i) == j;
      var tail := CollapseSepsFrom(s, |a|);
      if j - i >= 2 {
        CollapseRun(s, i, j);
        CollapseRun(a, i, j);
        CollapseConcatFrom(a, b, j);
        Regroup(",", CollapseSepsFrom(a, j), tail);
      } else {
        CollapseKeep(s, i);
        CollapseKeep(a, i);
        CollapseConcatFrom(a, b, i + 1);
        Regroup([a[i]], CollapseSepsFrom(a, i + 1), tail);
      }
    } else {
      assert CollapseSepsFrom(a, i) == [];
    }
  }

  /** Collapsing separators distributes over a junction no run crosses. */
  lemma CollapseConcat(a: string, b: string)
    requires SepJunction(a, b)
    ensures CollapseSeps(a + b) == CollapseSeps(a) + CollapseSeps(b)
  {
    CollapseConcatFrom(a, b, 0);
    CollapseShift(a, b, 0, |a|);
  }

  lemma {:induction false} CollapsePlainFrom(s: string, i: nat)
    requires i <= |s| && NoSepPair(s)
    ensures CollapseSepsFrom(s, i) == s[i..]
    decreases |s| - i
  {
    if i < |s| {
      var j := SkipFrom(s, SepChars, i);
      if s[i] in SepChars {
        if i + 1 < |s| {
          assert s[i + 1] !in SepChars;
        }
        assert SkipFrom(s, SepChars, i + 1) == i + 1;
      }
      assert j - i < 2;
      CollapseKeep(s, i);
      CollapsePlainFrom(s, i + 1);
      assert s[i..] == [s[i]] + s[i + 1..];
    }
  }

  /** A string without two adjacent separators is its own collapse. */
  lemma CollapsePlain(s: string)
    requires NoSepPair(s)
    ensures CollapseSeps(s) == s
  {
    CollapsePlainFrom(s, 0);
  }

  // ---------------------------------------------------------------------
  // Lists of plain words
  // ---------------------------------------------------------------------

  predicate IsLetter(c: char) {
    'a' <= c <= 'z' || 'A' <= c <= 'Z'
  }

  /** A tag made of letters and single inner spaces. */
  predicate PlainWord(w: string) {
    && w != []
    && (forall k :: 0 <= k < |w| ==> IsLetter(w[k]) || w[k] == ' ')
    && w[0] != ' ' && w[|w| - 1] != ' '
    && (forall k :: 0 <= k < |w| - 1 ==> w[k] != ' ' || w[k + 1] != ' ')
  }

  lemma LetterNotSep(c: char)
    requires IsLetter(c)
    ensures c !in SepChars
  {
  }

  lemma DigitNotSep(c: char)
    requires IsDigit(c)
    ensures c !in SepChars
  {
  }

  lemma PlainWordFacts(w: string)
    requires PlainWord(w)
    ensures forall c :: c in w ==> IsLetter(c) || c == ' '
    ensures NoSepPair(w)
    ensures w[0] !in SepChars && w[|w| - 1] !in SepChars
  {
    forall k | 0 <= k < |w| && w[k] != ' '
      ensures w[k] !in SepChars
    {
      LetterNotSep(w[k]);
    }
  }

  predicate PlainWords(ws: seq<string>) {
    |ws| >= 1 && forall w :: w in ws ==> PlainWord(w)
  }

  lemma {:induction false} JoinHead(ps: seq<string>, sep: string)
    requires |ps| >= 1 && ps[0] != []
    ensures Join(ps, sep) != [] && Join(ps, sep)[0] == ps[0][0]
  {
  }

  lemma {:induction false} JoinLast(ps: seq<string>, sep: string)
    requires |ps| >= 1 && ps[|ps| - 1] != []
    ensures var j := Join(ps, sep); j != [] && j[|j| - 1] == ps[|ps| - 1][|ps[|ps| - 1]| - 1]
    decreases |ps|
  {
    if |ps| > 1 {
      JoinLast(ps[1..], sep);
      assert ps[1..][|ps| - 2] == ps[|ps| - 1];
    }
  }

  lemma {:induction false} JoinAppend(l1: seq<string>, l2: seq<string>, sep: string)
    requires |l1| >= 1 && |l2| >= 1
    ensures Join(l1 + l2, sep) == Join(l1, sep) + sep + Join(l2, sep)
    decreases |l1|
  {
    var l := l1 + l2;
    if |l1| == 1 {
      assert l[1..] == l2;
    } else {
      JoinAppend(l1[1..], l2, sep);
      assert l[1..] == l1[1..] + l2;
    }
  }

  /** Joining plain words with a separator made of commas and spaces uses no other characters. */
  lemma {:induction false} JoinPlainChars(ws: seq<string>, sep: string)
    requires PlainWords(ws)
    requires forall c :: c in sep ==> c == ',' || c == ' '
    ensures forall c :: c in Join(ws, sep) ==> IsLetter(c) || c == ' ' || c == ','
    decreases |ws|
  {
    assert ws[0] in ws;
    PlainWordFacts(ws[0]);
    if |ws| > 1 {
      assert forall w :: w in ws[1..] ==> w in ws;
      JoinPlainChars(ws[1..], sep);
    }
  }

  /** Collapsing ", " between plain words leaves bare commas. */
  lemma {:induction false} CollapseJoin(ws: seq<string>)
    requires PlainWords(ws)
    ensures CollapseSeps(Join(ws, ", ")) == Join(ws, ",")
    decreases |ws|
  {
    assert ws[0] in ws;
    PlainWordFacts(ws[0]);
    if |ws| == 1 {
      CollapsePlain(ws[0]);
    } else {
      var rest := Join(ws[1..], ", ");
      assert ws[1..][0] in ws;
      PlainWordFacts(ws[1]);
      JoinHead(ws[1..], ", ");
      CollapseItem(ws[0], rest);
      CollapseJoin(ws[1..]);
    }
  }

  /** A comma and a space between two items collapse to one comma. */
  lemma CollapseItem(w: string, r: string)
    requires PlainWord(w)
    requires r != [] && r[0] !in SepChars
    ensures CollapseSeps(w + ", " + r) == w + "," + CollapseSeps(r)
  {
    PlainWordFacts(w);
    assert w + ", " + r == w + (", " + r);
    CollapseConcat(w, ", " + r);
    CollapseConcat(", ", r);
    CollapsePlain(w);
    assert CollapseSeps(", ") == ",";
  }

  /** The rewrites turn ", " between plain words into ",". */
  lemma RewrittenJoin(ws: seq<string>)
    requires PlainWords(ws)
    ensures Rewritten(Join(ws, ", ")) == Join(ws, ",")
  {
    var j := Join(ws, ", ");
    JoinPlainChars(ws, ", ");
    assert j + "" == j;
    RemoveWeightsPlain(j, "");
    ParensToCommasPlain(j);
    ReplaceCharAbsent(j, '<', ",<");
    ReplaceCharAbsent(j, '>', ">,");
    DropColonsPlain(j, "");
    ReplaceCharAbsent(j, '\n', ",");
    CollapseJoin(ws);
  }

  /** Plain words joined with commas survive both strips and the split. */
  lemma SplitJoinWords(ws: seq<string>)
    requires PlainWords(ws)
    ensures Split(Strip(Strip(Join(ws, ","), Whitespace), {','}), ",") == ws
  {
    var k := Join(ws, ",");
    CommaJoinEnds(ws);
    StripsNoop(k);
    WordsNoComma(ws);
    SplitJoinChar(ws, ',');
  }

  lemma CommaJoinEnds(ws: seq<string>)
    requires PlainWords(ws)
    ensures var k := Join(ws, ","); k != [] && k[0] !in SepChars && k[|k| - 1] !in SepChars
  {
    var w0 := ws[0];
    var wn := ws[|ws| - 1];
    assert w0 in ws && wn in ws;
    JoinHead(ws, ",");
    JoinLast(ws, ",");
    PlainWordFacts(w0);
    PlainWordFacts(wn);
  }

  lemma StripsNoop(k: string)
    requires k != [] && k[0] !in SepChars && k[|k| - 1] !in SepChars
    ensures Strip(Strip(k, Whitespace), {','}) == k
  {
    StripNoop(k, Whitespace);
    StripNoop(k, {','});
  }

  lemma WordsNoComma(ws: seq<string>)
    requires PlainWords(ws)
    ensures forall w :: w in ws ==> ',' !in w
  {
    forall w | w in ws
      ensures ',' !in w
    {
      PlainWordFacts(w);
    }
  }

  /** Tags made of letters and single spaces, written the usual way with ", "
      between them, come back unchanged from the tokenizer. */
  lemma TokenizeJoin(ws: seq<string>)
    requires PlainWords(ws)
    ensures Tokenize(Join(ws, ", ")) == ws
  {
    RewrittenJoin(ws);
    SplitJoinWords(ws);
  }

  /** A bare comma between two items is left alone by the collapse. */
  lemma CollapseItemComma(w: string, r: string)
    requires PlainWord(w)
    requires r != [] && r[0] !in SepChars
    ensures CollapseSeps(w + "," + r) == w + "," + CollapseSeps(r)
  {
    PlainWordFacts(w);
    assert w + "," + r == w + ("," + r);
    CollapseConcat(w, "," + r);
    CollapseConcat(",", r);
    CollapsePlain(w);
    assert CollapseSeps(",") == ",";
  }

  lemma {:induction false} CollapseJoinComma(ws: seq<string>)
    requires PlainWords(ws)
    ensures CollapseSeps(Join(ws, ",")) == Join(ws, ",")
    decreases |ws|
  {
    assert ws[0] in ws;
    PlainWordFacts(ws[0]);
    if |ws| == 1 {
      CollapsePlain(ws[0]);
    } else {
      var rest := Join(ws[1..], ",");
      assert ws[1..][0] in ws;
      PlainWordFacts(ws[1]);
      JoinHead(ws[1..], ",");
      CollapseItemComma(ws[0], rest);
      CollapseJoinComma(ws[1..]);
    }
  }

  /** Plain words joined with bare commas also come back unchanged. */
  lemma TokenizeJoinComma(ws: seq<string>)
    requires PlainWords(ws)
    ensures Tokenize(Join(ws, ",")) == ws
  {
    var j := Join(ws, ",");
    assert Rewritten(j) == j by {
      JoinPlainChars(ws, ",");
      assert j + "" == j;
      RemoveWeightsPlain(j, "");
      ParensToCommasPlain(j);
      ReplaceCharAbsent(j, '<', ",<");
      ReplaceCharAbsent(j, '>', ">,");
      DropColonsPlain(j, "");
      ReplaceCharAbsent(j, '\n', ",");
      CollapseJoinComma(ws);
    }
    SplitJoinWords(ws);
  }

  /** Re-tokenizing the comma-joined tags gives the same tags when every tag is a plain word. */
  lemma RetokenizePlain(prompt: string)
    requires PlainWords(Tokenize(prompt))
    ensures Tokenize(Join(Tokenize(prompt), ",")) == Tokenize(prompt)
  {
    TokenizeJoinComma(Tokenize(prompt));
  }

  lemma ColonWeightFirstStages()
    ensures ParensToCommas(RemoveWeights("1:.5")) == "1:.5"
  {
    assert RemoveWeights("1:.5") == "1:.5";
    assert ParensToCommas("1:.5") == "1:.5";
  }

  lemma ColonWeightColon()
    ensures DropColons("1:.5") == "1.5"
  {
    assert !ClosesAngleFrom("1:.5", 2);
    assert DropColonsFrom("1:.5", 2) == ".5";
  }

  lemma WeightCollapse()
    ensures CollapseSeps("1.5") == "1.5"
  {
    DigitNotSep('1');
    DigitNotSep('5');
    assert NoSepPair("1.5");
    CollapsePlain("1.5");
  }

  /** The rewrites one after another, each result given. */
  lemma RewrittenChain(p: string, p1: string, p2: string, p3: string, p4: string, p5: string, p6: string)
    requires RemoveWeights(p) == p1 && ParensToCommas(p1) == p2
    requires Replace(p2, "<", ",<") == p3 && Replace(p3, ">", ">,") == p4
    requires DropColons(p4) == p5 && Replace(p5, "\n", ",") == p6
    ensures Rewritten(p) == CollapseSeps(p6)
  {
  }

  lemma ColonWeightChars()
    ensures '<' !in "1:.5" && '>' !in "1:.5" && '\n' !in "1.5"
  {
    assert "1:.5" == ['1', ':', '.', '5'] && "1.5" == ['1', '.', '5'];
  }

  lemma RewrittenColonWeight(input: string)
    requires input == "1:.5"
    ensures Rewritten(input) == "1.5"
  {
    var p, q := "1:.5", "1.5";
    ColonWeightFirstStages();
    ColonWeightChars();
    ReplaceCharAbsent(p, '<', ",<");
    ReplaceCharAbsent(p, '>', ">,");
    ColonWeightColon();
    ReplaceCharAbsent(q, '\n', ",");
    RewrittenChain(p, p, p, p, p, q, q);
    WeightCollapse();
  }

  lemma SplitWeight()
    ensures Split(Strip(Strip("1.5", Whitespace), {','}), ",") == ["1.5"]
  {
    DigitNotSep('1');
    DigitNotSep('5');
    StripNoop("1.5", Whitespace);
    StripNoop("1.5", {','});
    ContainsChar("1.5", ',');
    SplitAbsent("1.5", ",");
  }

  lemma RewrittenWeight()
    ensures Rewritten("1.5") == ""
  {
    assert RemoveWeights("1.5") == "";
  }

  /** Re-tokenizing is not idempotent in general: removing the colon of "1:.5"
      creates the weight "1.5", which the second pass deletes. */
  lemma RetokenizeChanges(input: string)
    requires input == "1:.5"
    ensures Tokenize(input) == ["1.5"]
    ensures Tokenize(Join(Tokenize(input), ",")) == [""]
  {
    RewrittenColonWeight(input);
    SplitWeight();
    assert Join(["1.5"], ",") == "1.5";
    RewrittenWeight();
    assert Strip(Strip("", Whitespace), {','}) == "";
  }

  // ---------------------------------------------------------------------
  // The docstring example (scripts/gallery_utils.py:262-266)
  // ---------------------------------------------------------------------

  /** The docstring's prompt with its two lines given as word lists, the second
      line wrapped in a weighted group. */
  function DocstringPrompt(l1: seq<string>, l2: seq<string>): string {
    Join(l1, ", ") + "\n(" + Join(l2, ", ") + ":1.1)"
  }

  /** The characters of plain words joined with ", ". */
  predicate PlainText(j: string) {
    forall c :: c in j ==> IsLetter(c) || c == ' ' || c == ','
  }

  /** The weight goes first. */
  lemma DocstringWeight(j1: string, j2: string)
    requires PlainText(j1) && PlainText(j2)
    ensures RemoveWeights(j1 + "\n(" + j2 + ":1.1)") == j1 + "\n(" + j2 + ":" + ")"
  {
    var a := j1 + "\n(" + j2 + ":";
    assert forall c :: c in a ==> !IsDigit(c);
    assert j1 + "\n(" + j2 + ":1.1)" == a + "1.1)";
    RemoveWeightsPlain(a, "1.1)");
    assert RemoveWeights("1.1)") == ")";
  }

  /** Then both brackets become commas. */
  lemma DocstringBrackets(j1: string, j2: string)
    requires PlainText(j1) && PlainText(j2)
    ensures ParensToCommas(j1 + "\n(" + j2 + ":" + ")") == j1 + "\n," + j2 + ":,"
  {
    ParensToCommasConcat(j1 + "\n(" + j2 + ":", ")");
    ParensToCommasConcat(j1 + "\n(" + j2, ":");
    ParensToCommasConcat(j1 + "\n(", j2);
    ParensToCommasConcat(j1, "\n(");
    ParensToCommasPlain(j1);
    ParensToCommasPlain(j2);
    assert ParensToCommas("\n(") == "\n," && ParensToCommas(":") == ":" && ParensToCommas(")") == ",";
  }

  /** There are no angle brackets, and the colon left in front of the weight is dropped. */
  lemma DocstringColon(j1: string, j2: string)
    requires PlainText(j1) && PlainText(j2)
    ensures var p := j1 + "\n," + j2 + ":,";
      DropColons(Replace(Replace(p, "<", ",<"), ">", ">,")) == j1 + "\n," + j2 + ","
  {
    var b := j1 + "\n," + j2;
    var p := b + ":,";
    assert '<' !in p && '>' !in p;
    ReplaceCharAbsent(p, '<', ",<");
    ReplaceCharAbsent(p, '>', ">,");
    assert ':' !in b;
    DropColonsPlain(b, ":,");
    assert DropColons(":,") == ",";
  }

  /** Up to the newline rewrite the weight and the group's brackets are gone, and
      the colon left in front of the weight is dropped. */
  lemma DocstringFirstRewrites(l1: seq<string>, l2: seq<string>)
    requires PlainWords(l1) && PlainWords(l2)
    ensures
      var p1 := RemoveWeights(DocstringPrompt(l1, l2));
      var p2 := ParensToCommas(p1);
      var p3 := Replace(p2, "<", ",<");
      var p4 := Replace(p3, ">", ">,");
      DropColons(p4) == Join(l1, ", ") + "\n," + Join(l2, ", ") + ","
  {
    var j1, j2 := Join(l1, ", "), Join(l2, ", ");
    JoinPlainChars(l1, ", ");
    JoinPlainChars(l2, ", ");
    assert PlainText(j1) && PlainText(j2);
    DocstringWeight(j1, j2);
    DocstringBrackets(j1, j2);
    DocstringColon(j1, j2);
  }

  lemma DocstringNewline(j1: string, j2: string)
    requires PlainText(j1) && PlainText(j2)
    ensures Replace(j1 + "\n," + j2 + ",", "\n", ",") == j1 + (",," + (j2 + ","))
  {
    var tail := "," + j2 + ",";
    assert j1 + "\n," + j2 + "," == j1 + ("\n" + tail);
    assert '\n' !in j1 && '\n' !in tail;
    ReplaceCharAbsent(j1, '\n', ",");
    ReplaceConcat("\n", tail, "\n", ",");
    ReplaceCharAbsent(tail, '\n', ",");
    assert Replace("\n", "\n", ",") == ",";
    ReplaceConcat(j1, "\n" + tail, "\n", ",");
  }

  /** The first and the last character of a list of plain words joined with any separator. */
  lemma JoinEnds(ws: seq<string>, sep: string)
    requires PlainWords(ws)
    ensures var j := Join(ws, sep); j != [] && j[0] !in SepChars && j[|j| - 1] !in SepChars
  {
    var w0 := ws[0];
    var wn := ws[|ws| - 1];
    assert w0 in ws && wn in ws;
    JoinHead(ws, sep);
    JoinLast(ws, sep);
    PlainWordFacts(w0);
    PlainWordFacts(wn);
  }

  /** The run ",," between the lines collapses to one comma. */
  lemma CollapseLines(j1: string, j2: string)
    requires j1 != [] && j1[0] !in SepChars && j1[|j1| - 1] !in SepChars
    requires j2 != [] && j2[0] !in SepChars && j2[|j2| - 1] !in SepChars
    ensures CollapseSeps(j1 + (",," + (j2 + ","))) == CollapseSeps(j1) + "," + CollapseSeps(j2) + ","
  {
    CollapseConcat(j1, ",," + (j2 + ","));
    CollapseConcat(",,", j2 + ",");
    CollapseConcat(j2, ",");
    assert CollapseSeps(",,") == "," && CollapseSeps(",") == ",";
  }

  lemma DocstringCollapse(l1: seq<string>, l2: seq<string>)
    requires PlainWords(l1) && PlainWords(l2)
    ensures var j1, j2 := Join(l1, ", "), Join(l2, ", ");
      CollapseSeps(j1 + (",," + (j2 + ","))) == Join(l1 + l2, ",") + ","
  {
    JoinEnds(l1, ", ");
    JoinEnds(l2, ", ");
    CollapseLines(Join(l1, ", "), Join(l2, ", "));
    CollapseJoin(l1);
    CollapseJoin(l2);
    JoinAppend(l1, l2, ",");
  }

  /** Stripping commas from a string with one trailing comma removes just that comma. */
  lemma StripTrailingComma(k: string)
    requires k != [] && k[0] != ',' && k[|k| - 1] != ','
    ensures Strip(k + ",", {','}) == k
  {
    var s := k + ",";
    assert SkipFrom(s, {','}, 0) == 0;
    assert s[|s| - 1] == ',' && s[|s| - 2] != ',';
    assert BackFrom(s, {','}, 0, |s|) == |k|;
    assert s[0..|k|] == k;
  }

  /** The shape of the docstring example: both lines' tags, in order, with the
      weight, the brackets, the newline and the spaces after commas gone. */
  lemma DocstringShape(l1: seq<string>, l2: seq<string>)
    requires PlainWords(l1) && PlainWords(l2)
    ensures Tokenize(DocstringPrompt(l1, l2)) == l1 + l2
  {
    DocstringFirstRewrites(l1, l2);
    JoinPlainChars(l1, ", ");
    JoinPlainChars(l2, ", ");
    assert PlainText(Join(l1, ", ")) && PlainText(Join(l2, ", "));
    DocstringNewline(Join(l1, ", "), Join(l2, ", "));
    DocstringCollapse(l1, l2);
    var l := l1 + l2;
    assert PlainWords(l);
    var k := Join(l, ",");
    assert Rewritten(DocstringPrompt(l1, l2)) == k + ",";
    JoinEnds(l, ",");
    assert (k + ",")[0] == k[0];
    StripNoop(k + ",", Whitespace);
    StripTrailingComma(k);
    forall w | w in l
      ensures ',' !in w
    {
      PlainWordFacts(w);
    }
    SplitJoinChar(l, ',');
  }

  const DocstringLine1: seq<string> := ["detailed face", "detailed expression", "smile"]
  const DocstringLine2: seq<string> := ["long hair", "pink hair", "yellow hair"]

  lemma Line1Plain()
    ensures PlainWords(DocstringLine1)
  {
    var l1 := DocstringLine1;
    assert PlainWord(l1[0]) && PlainWord(l1[1]) && PlainWord(l1[2]);
  }

  lemma Line2Plain()
    ensures PlainWords(DocstringLine2)
  {
    var l2 := DocstringLine2;
    assert PlainWord(l2[0]) && PlainWord(l2[1]) && PlainWord(l2[2]);
  }

  lemma JoinThree(a: string, b: string, c: string, sep: string)
    ensures Join([a, b, c], sep) == a + sep + b + sep + c
  {
    assert [a, b, c][1..] == [b, c];
    assert [b, c][1..] == [c];
    assert Join([b, c], sep) == b + sep + c;
    assert a + sep + (b + sep + c) == a + sep + b + sep + c;
  }

  /** The docstring's own example, an instance of DocstringShape since its words
      are plain. The prompt is written as its two lines, the newline between. */
  lemma DocstringExample(input: string)
    requires input == "detailed face" + ", " + "detailed expression" + ", " + "smile" + "\n("
      + ("long hair" + ", " + "pink hair" + ", " + "yellow hair") + ":1.1)"
    ensures Tokenize(input) == ["detailed face", "detailed expression", "smile", "long hair", "pink hair", "yellow hair"]
  {
    Line1Plain();
    Line2Plain();
    JoinThree("detailed face", "detailed expression", "smile", ", ");
    JoinThree("long hair", "pink hair", "yellow hair", ", ");
    assert input == DocstringPrompt(DocstringLine1, DocstringLine2);
    DocstringShape(DocstringLine1, DocstringLine2);
  }
}
