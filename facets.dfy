/** The dropdowns of the gallery (scripts/gallery_utils.py:211-249, 304-309): the
    values of a column with how often they occur, most frequent first; the labels
    "value | count" shown for them; the bare value read back from a label; and
    the contents of a dropdown recomputed for a filtered table. */
module Facets {
  import opened Text
  import opened ImageInfo
  import Json

  /** The text between a value and its count in a label. */
  const Spacer: string := " | "

  /** The columns a dropdown filters on. */
  datatype Column = SubFolder | Date | Model | Prompt

  /** A value looked up among the counts, or the first value that is not there
      (pandas raises KeyError). */
  datatype Lookup<T> = Found(value: T) | KeyError(key: string)

  /** A dropdown's selected labels and its offered labels. */
  datatype Updates = Updates(value: seq<string>, choices: seq<string>)

  // ---------------------------------------------------------------------
  // Counting
  // ---------------------------------------------------------------------

  /** What one row adds to a column's values: its value, or for the prompt column
      each of its tags (an empty tag list adds none: it explodes to a missing value,
      which value_counts drops). */
  function Cell(r: Record, c: Column): seq<string> {
    match c
    case SubFolder => [r.subFolder]
    case Date => [r.date]
    case Model => [r.model]
    case Prompt => r.prompt
  }

  /** The values counted for a column, row by row. */
  function ColumnValues(rows: seq<Record>, c: Column): seq<string> {
    if rows == [] then [] else Cell(rows[0], c) + ColumnValues(rows[1..], c)
  }

  /** The value of a scalar column in a row. */
  function Scalar(r: Record, c: Column): string
    requires c != Prompt
  {
    Cell(r, c)[0]
  }

  /** A scalar column has one value per row, in row order. */
  lemma {:induction false} ScalarValues(rows: seq<Record>, c: Column)
    requires c != Prompt
    ensures |ColumnValues(rows, c)| == |rows|
    ensures forall i :: 0 <= i < |rows| ==> ColumnValues(rows, c)[i] == Scalar(rows[i], c)
  {
    if rows != [] {
      ScalarValues(rows[1..], c);
      assert ColumnValues(rows, c) == [Scalar(rows[0], c)] + ColumnValues(rows[1..], c);
    }
  }

  /** The values of two tables one after the other are those of their concatenation:
      every tag of every row counts, repeats included. */
  lemma {:induction false} ValuesAppend(a: seq<Record>, b: seq<Record>, c: Column)
    ensures ColumnValues(a + b, c) == ColumnValues(a, c) + ColumnValues(b, c)
  {
    if a != [] {
      assert (a + b)[1..] == a[1..] + b;
      ValuesAppend(a[1..], b, c);
    } else {
      assert a + b == b;
    }
  }

  predicate NoDuplicates(ds: seq<string>) {
    forall i, j :: 0 <= i < j < |ds| ==> ds[i] != ds[j]
  }

  /** The distinct values of `vals`, in order of first appearance. */
  function Distinct(vals: seq<string>): seq<string> {
    if vals == [] then []
    else
      var ds := Distinct(vals[..|vals| - 1]);
      if vals[|vals| - 1] in ds then ds else ds + [vals[|vals| - 1]]
  }

  lemma {:induction false} DistinctFacts(vals: seq<string>)
    ensures forall v :: v in Distinct(vals) <==> v in vals
    ensures NoDuplicates(Distinct(vals))
  {
    if vals != [] {
      var init := vals[..|vals| - 1];
      DistinctFacts(init);
      assert vals == init + [vals[|vals| - 1]];
    }
  }

  /** A count per value. */
  type Counts = seq<(string, nat)>

  predicate DistinctKeys(t: Counts) {
    forall i, j :: 0 <= i < j < |t| ==> t[i].0 != t[j].0
  }

  /** Most frequent first. */
  predicate ByCount(t: Counts) {
    forall i, j :: 0 <= i < j < |t| ==> t[i].1 >= t[j].1
  }

  /** Each value with its number of occurrences in `vals`. */
  function Pairs(ds: seq<string>, vals: seq<string>): Counts {
    seq(|ds|, i requires 0 <= i < |ds| => (ds[i], multiset(vals)[ds[i]]))
  }

  /** `p` placed before the first pair that is not more frequent. */
  function Insert(p: (string, nat), t: Counts): Counts {
    if t == [] || t[0].1 <= p.1 then [p] + t else [t[0]] + Insert(p, t[1..])
  }

  function SortByCount(t: Counts): Counts {
    if t == [] then [] else Insert(t[0], SortByCount(t[1..]))
  }

  lemma {:induction false} InsertPerm(p: (string, nat), t: Counts)
    ensures multiset(Insert(p, t)) == multiset{p} + multiset(t)
  {
    if t != [] && t[0].1 > p.1 {
      InsertPerm(p, t[1..]);
      assert t == [t[0]] + t[1..];
    }
  }

  lemma {:induction false} InsertSorted(p: (string, nat), t: Counts)
    requires ByCount(t)
    ensures ByCount(Insert(p, t))
  {
    if t != [] && t[0].1 > p.1 {
      InsertSorted(p, t[1..]);
      InsertPerm(p, t[1..]);
      var r := Insert(p, t[1..]);
      forall q | q in r
        ensures q.1 <= t[0].1
      {
        InsertMember(p, t, r, q);
      }
      ConsByCount(t[0], r);
    } else {
      HeadByCount(p, t);
    }
  }

  lemma InsertMember(p: (string, nat), t: Counts, r: Counts, q: (string, nat))
    requires ByCount(t) && t != [] && t[0].1 > p.1
    requires multiset(r) == multiset{p} + multiset(t[1..]) && q in r
    ensures q.1 <= t[0].1
  {
    assert q in multiset(r);
    if q != p {
      assert q in t[1..];
      var k :| 0 <= k < |t[1..]| && t[1..][k] == q;
      assert t[k + 1] == q;
    }
  }

  lemma HeadByCount(p: (string, nat), t: Counts)
    requires ByCount(t) && (t == [] || t[0].1 <= p.1)
    ensures ByCount([p] + t)
  {
    forall q | q in t
      ensures q.1 <= p.1
    {
      var k :| 0 <= k < |t| && t[k] == q;
      assert k == 0 || t[0].1 >= t[k].1;
    }
    ConsByCount(p, t);
  }

  lemma ConsByCount(x: (string, nat), r: Counts)
    requires ByCount(r) && forall q :: q in r ==> q.1 <= x.1
    ensures ByCount([x] + r)
  {
    forall i, j | 0 <= i < j < |[x] + r|
      ensures ([x] + r)[i].1 >= ([x] + r)[j].1
    {
      if i == 0 {
        assert ([x] + r)[j] == r[j - 1] && r[j - 1] in r;
      } else {
        assert ([x] + r)[i] == r[i - 1] && ([x] + r)[j] == r[j - 1];
      }
    }
  }

  lemma ConsDistinct(x: (string, nat), r: Counts)
    requires DistinctKeys(r) && forall q :: q in r ==> q.0 != x.0
    ensures DistinctKeys([x] + r)
  {
    forall i, j | 0 <= i < j < |[x] + r|
      ensures ([x] + r)[i].0 != ([x] + r)[j].0
    {
      if i == 0 {
        assert ([x] + r)[j] == r[j - 1] && r[j - 1] in r;
      } else {
        assert ([x] + r)[i] == r[i - 1] && ([x] + r)[j] == r[j - 1];
      }
    }
  }

  lemma {:induction false} InsertDistinct(p: (string, nat), t: Counts)
    requires DistinctKeys(t) && forall q :: q in t ==> q.0 != p.0
    ensures DistinctKeys(Insert(p, t))
  {
    if t == [] || t[0].1 <= p.1 {
      ConsDistinct(p, t);
    } else {
      InsertDistinct(p, t[1..]);
      InsertPerm(p, t[1..]);
      var r := Insert(p, t[1..]);
      forall q | q in r
        ensures q.0 != t[0].0
      {
        assert q in multiset(r);
        if q != p {
          TailKey(t, q);
        }
      }
      ConsDistinct(t[0], r);
    }
  }

  lemma TailKey(t: Counts, q: (string, nat))
    requires DistinctKeys(t) && t != [] && q in multiset(t[1..])
    ensures q.0 != t[0].0
  {
    assert q in t[1..];
    var k :| 0 <= k < |t[1..]| && t[1..][k] == q;
    assert t[k + 1] == q;
  }

  /** Sorting by count keeps the pairs, orders them most frequent first, and keeps
      the values distinct. */
  lemma SortFacts(t: Counts)
    ensures multiset(SortByCount(t)) == multiset(t)
    ensures ByCount(SortByCount(t))
    ensures DistinctKeys(t) ==> DistinctKeys(SortByCount(t))
  {
    SortPerm(t);
    if DistinctKeys(t) {
      SortDistinct(t);
    }
  }

  lemma {:induction false} SortPerm(t: Counts)
    ensures multiset(SortByCount(t)) == multiset(t)
    ensures ByCount(SortByCount(t))
  {
    if t != [] {
      var s := SortByCount(t[1..]);
      SortPerm(t[1..]);
      InsertPerm(t[0], s);
      InsertSorted(t[0], s);
      assert t == [t[0]] + t[1..];
    }
  }

  lemma {:induction false} SortDistinct(t: Counts)
    requires DistinctKeys(t)
    ensures DistinctKeys(SortByCount(t))
  {
    if t != [] {
      var s := SortByCount(t[1..]);
      DistinctTail(t);
      SortDistinct(t[1..]);
      SortPerm(t[1..]);
      SortDistinctStep(t, s);
    }
  }

  lemma DistinctTail(t: Counts)
    requires DistinctKeys(t) && t != []
    ensures DistinctKeys(t[1..])
  {
    forall i, j | 0 <= i < j < |t[1..]|
      ensures t[1..][i].0 != t[1..][j].0
    {
      assert t[1..][i] == t[i + 1] && t[1..][j] == t[j + 1];
    }
  }

  lemma SortDistinctStep(t: Counts, s: Counts)
    requires t != [] && DistinctKeys(t) && multiset(s) == multiset(t[1..]) && DistinctKeys(s)
    ensures DistinctKeys(Insert(t[0], s))
  {
    forall q | q in s
      ensures q.0 != t[0].0
    {
      assert q in multiset(s);
      TailKey(t, q);
    }
    InsertDistinct(t[0], s);
  }

  /** value_counts: every value with its number of occurrences, most frequent first. */
  function Tally(vals: seq<string>): Counts {
    SortByCount(Pairs(Distinct(vals), vals))
  }

  /** The counts hold each value of `vals` once, with its number of occurrences,
      and nothing else, most frequent first. */
  lemma TallyFacts(vals: seq<string>)
    ensures forall v :: v in vals ==> (v, multiset(vals)[v]) in Tally(vals)
    ensures forall p :: p in Tally(vals) ==> p.0 in vals && p.1 == multiset(vals)[p.0] && p.1 >= 1
    ensures DistinctKeys(Tally(vals)) && ByCount(Tally(vals))
  {
    var ds := Distinct(vals);
    var ps := Pairs(ds, vals);
    DistinctFacts(vals);
    SortFacts(ps);
    forall v | v in vals
      ensures (v, multiset(vals)[v]) in Tally(vals)
    {
      var k :| 0 <= k < |ds| && ds[k] == v;
      assert ps[k] == (v, multiset(vals)[v]);
      assert ps[k] in multiset(ps);
    }
    forall p | p in Tally(vals)
      ensures p.0 in vals && p.1 == multiset(vals)[p.0] && p.1 >= 1
    {
      assert p in multiset(ps);
      var k :| 0 <= k < |ps| && ps[k] == p;
      assert ds[k] in ds;
    }
  }

  /** calc_counts: the counts of a column's values. */
  function CalcCounts(rows: seq<Record>, c: Column): Counts {
    Tally(ColumnValues(rows, c))
  }

  /** The count of `v`, if it is counted. */
  function CountOf(t: Counts, v: string): Json.Option<nat> {
    if t == [] then Json.None
    else if t[0].0 == v then Json.Some(t[0].1)
    else CountOf(t[1..], v)
  }

  lemma {:induction false} CountOfPair(t: Counts, v: string, n: nat)
    requires DistinctKeys(t) && (v, n) in t
    ensures CountOf(t, v) == Json.Some(n)
  {
    if t[0] != (v, n) {
      assert (v, n) in t[1..];
      assert t[0].0 != v by {
        var k :| 0 <= k < |t| && t[k] == (v, n);
      }
      CountOfPair(t[1..], v, n);
    }
  }

  lemma {:induction false} CountOfNone(t: Counts, v: string)
    requires forall p :: p in t ==> p.0 != v
    ensures CountOf(t, v) == Json.None
  {
    if t != [] {
      assert t[0] in t;
      CountOfNone(t[1..], v);
    }
  }

  /** Looking a value up among the counts gives its number of occurrences, and
      nothing for a value that does not occur. */
  lemma CountOfTally(vals: seq<string>, v: string)
    ensures CountOf(Tally(vals), v) == if v in vals then Json.Some(multiset(vals)[v]) else Json.None
  {
    TallyFacts(vals);
    if v in vals {
      CountOfPair(Tally(vals), v, multiset(vals)[v]);
    } else {
      CountOfNone(Tally(vals), v);
    }
  }

  // ---------------------------------------------------------------------
  // Labels
  // ---------------------------------------------------------------------

  /** The label shown for a value: the value, the spacer and the count. */
  function Label(v: string, n: nat): string {
    v + Spacer + Decimal(n)
  }

  /** calc_dropbox_choices: a label per counted value, in the order of the counts. */
  function Choices(t: Counts): seq<string> {
    seq(|t|, i requires 0 <= i < |t| => Label(t[i].0, t[i].1))
  }

  /** calc_unique_options: the labels of a column's counts. */
  function CalcUniqueOptions(rows: seq<Record>, c: Column): seq<string> {
    Choices(CalcCounts(rows, c))
  }

  /** The options are exactly the labels of the column's values with their
      counts, one per distinct value, most frequent first. */
  lemma UniqueOptions(rows: seq<Record>, c: Column)
    ensures var vals := ColumnValues(rows, c); var t := CalcCounts(rows, c);
      var os := CalcUniqueOptions(rows, c);
      |os| == |t| && ByCount(t) && DistinctKeys(t) &&
      (forall i :: 0 <= i < |t| ==> os[i] == Label(t[i].0, multiset(vals)[t[i].0]) && t[i].0 in vals) &&
      (forall v :: v in vals ==> Label(v, multiset(vals)[v]) in os)
  {
    var vals := ColumnValues(rows, c);
    var t := CalcCounts(rows, c);
    TallyFacts(vals);
    forall i | 0 <= i < |t|
      ensures t[i].0 in vals && t[i].1 == multiset(vals)[t[i].0]
    {
      assert t[i] in t;
    }
    forall v | v in vals
      ensures Label(v, multiset(vals)[v]) in CalcUniqueOptions(rows, c)
    {
      var k :| 0 <= k < |t| && t[k] == (v, multiset(vals)[v]);
      assert CalcUniqueOptions(rows, c)[k] == Label(v, multiset(vals)[v]);
    }
  }

  /** denumber: the text before the first spacer. */
  function Denumber(s: string): string {
    Split(s, Spacer)[0]
  }

  /** denumber_list. */
  function DenumberList(ls: seq<string>): seq<string> {
    seq(|ls|, i requires 0 <= i < |ls| => Denumber(ls[i]))
  }

  /** A value its label gives back: no spacer in it, and no " |" at its end. */
  predicate Unambiguous(v: string) {
    !Contains(v, Spacer) && !(|v| >= 2 && v[|v| - 2] == ' ' && v[|v| - 1] == '|')
  }

  /** The value is read back from its label exactly when it is unambiguous. */
  lemma LabelDenumber(v: string, n: nat)
    ensures Denumber(Label(v, n)) == v <==> Unambiguous(v)
  {
    var s := Label(v, n);
    var d := Decimal(n);
    SplitFirst(s, Spacer);
    LabelSpacer(v, d, s);
    if Unambiguous(v) {
      UnambiguousCut(v, d, s);
    } else if Contains(v, Spacer) {
      InnerSpacer(v, d, s);
    } else {
      TrailingBar(v, d, s);
    }
  }

  /** The spacer of a label is in place, so the cut comes no later than it. */
  lemma LabelSpacer(v: string, d: string, s: string)
    requires s == v + Spacer + d
    ensures Find(s, Spacer) <= |v|
  {
    assert s[|v|..|v| + 3] == Spacer;
    assert MatchesAt(s, |v|, Spacer);
  }

  lemma UnambiguousCut(v: string, d: string, s: string)
    requires s == v + Spacer + d && Unambiguous(v)
    ensures s[..Find(s, Spacer)] == v
  {
    assert s == v + (Spacer + d);
    forall k | 0 <= k < |v|
      ensures !MatchesAt(s, k, Spacer)
    {
      NoSpacerBefore(v, d, s, k);
    }
    assert s[|v|..|v| + 3] == Spacer;
    FindFirstAt(s, Spacer, 0, |v|);
    assert s[..|v|] == v;
  }

  lemma InnerSpacer(v: string, d: string, s: string)
    requires s == v + Spacer + d && Contains(v, Spacer)
    ensures Find(s, Spacer) < |v|
  {
    var k := Find(v, Spacer);
    assert MatchesAt(v, k, Spacer);
    assert s == v + (Spacer + d);
    MatchesAtPrefix(v, Spacer + d, Spacer, k);
  }

  lemma TrailingBar(v: string, d: string, s: string)
    requires s == v + Spacer + d && |v| >= 2 && v[|v| - 2] == ' ' && v[|v| - 1] == '|'
    ensures Find(s, Spacer) < |v|
  {
    assert s[|v| - 2..|v| + 1] == Spacer;
    assert MatchesAt(s, |v| - 2, Spacer);
  }

  lemma NoSpacerBefore(v: string, d: string, s: string, k: nat)
    requires s == v + (Spacer + d) && Unambiguous(v) && k < |v|
    ensures !MatchesAt(s, k, Spacer)
  {
    if k + 3 <= |v| {
      MatchesAtPrefix(v, Spacer + d, Spacer, k);
      if MatchesAt(v, k, Spacer) {
        ContainsWitness(v, Spacer, k);
      }
    } else {
      MatchChar(s, k, Spacer, 1);
      MatchChar(s, k, Spacer, 0);
      if k == |v| - 1 {
        assert s[k + 1] == ' ';
      } else {
        assert s[k + 1] == v[|v| - 1] && s[k] == v[|v| - 2];
      }
    }
  }

  /** A tag such as "cat | dog" comes back cut at its own spacer. */
  lemma SpacerInValue()
    ensures Denumber(Label("cat | dog", 2)) == "cat"
  {
    var s := Label("cat | dog", 2);
    assert s == "cat" + Spacer + ("dog" + Spacer + "2");
    assert MatchesAt(s, 3, Spacer) by {
      assert s[3..6] == Spacer;
    }
    forall k | 0 <= k < 3
      ensures !MatchesAt(s, k, Spacer)
    {
      MatchChar(s, k, Spacer, 1);
    }
    FindFirstAt(s, Spacer, 0, 3);
    SplitFirst(s, Spacer);
    assert s[..3] == "cat";
  }

  /** Denumbering twice is denumbering once. */
  lemma DenumberIdempotent(s: string)
    ensures Denumber(Denumber(s)) == Denumber(s)
  {
    SplitPiecesFree(s, Spacer);
    assert Denumber(s) in Split(s, Spacer);
    SplitAbsent(Denumber(s), Spacer);
  }

  // ---------------------------------------------------------------------
  // Dropdown updates
  // ---------------------------------------------------------------------

  /** value_counts.loc[den]: the count of each value, in the order given. */
  function Loc(t: Counts, den: seq<string>): Lookup<Counts> {
    if den == [] then Found([])
    else
      match CountOf(t, den[0])
      case None => KeyError(den[0])
      case Some(n) =>
        var rest := Loc(t, den[1..]);
        if rest.KeyError? then rest else Found([(den[0], n)] + rest.value)
  }

  /** The lookup succeeds when every value is counted; it then holds each of them,
      in order, with its count; otherwise it names a value that is not counted. */
  lemma {:induction false} LocFacts(t: Counts, den: seq<string>)
    ensures Loc(t, den).Found? <==> forall v :: v in den ==> CountOf(t, v).Some?
    ensures Loc(t, den).Found? ==> (|Loc(t, den).value| == |den| &&
      forall i :: 0 <= i < |den| ==> CountOf(t, den[i]).Some? && Loc(t, den).value[i] == (den[i], CountOf(t, den[i]).get))
    ensures Loc(t, den).KeyError? ==> Loc(t, den).key in den && CountOf(t, Loc(t, den).key).None?
  {
    if den != [] {
      LocFacts(t, den[1..]);
      assert den == [den[0]] + den[1..];
      assert den[0] in den;
      if CountOf(t, den[0]).Some? && Loc(t, den[1..]).Found? {
        var l := Loc(t, den).value;
        forall i | 0 <= i < |den|
          ensures CountOf(t, den[i]).Some? && l[i] == (den[i], CountOf(t, den[i]).get)
        {
          if i > 0 {
            assert den[i] == den[1..][i - 1];
            assert l[i] == Loc(t, den[1..]).value[i - 1];
          }
        }
      }
    }
  }

  /** The lookup among the counts of `vals`. */
  lemma LocTally(vals: seq<string>, den: seq<string>)
    ensures var sel := Loc(Tally(vals), den);
      (sel.Found? <==> forall v :: v in den ==> v in vals) &&
      (sel.KeyError? ==> sel.key in den && sel.key !in vals) &&
      (sel.Found? ==> (|sel.value| == |den| &&
         forall i :: 0 <= i < |den| ==> sel.value[i] == (den[i], multiset(vals)[den[i]])))
  {
    var t := Tally(vals);
    LocFacts(t, den);
    forall v
      ensures CountOf(t, v) == if v in vals then Json.Some(multiset(vals)[v]) else Json.None
    {
      CountOfTally(vals, v);
    }
  }

  /** calc_dropbox_updates: the selected labels relabelled with the counts of the
      table, and the labels of all its counts. */
  function CalcDropboxUpdates(rows: seq<Record>, c: Column, current: seq<string>): Lookup<Updates> {
    var t := CalcCounts(rows, c);
    var sel := Loc(t, DenumberList(current));
    if sel.KeyError? then KeyError(sel.key)
    else Found(Updates(Choices(sel.value), Choices(t)))
  }

  /** The denumbered labels are the values of the labels, position by position. */
  lemma DenumberedValues(current: seq<string>)
    ensures var den := DenumberList(current);
      (forall v :: v in den <==> exists l :: l in current && Denumber(l) == v) &&
      |den| == |current| && forall i :: 0 <= i < |current| ==> den[i] == Denumber(current[i])
  {
    var den := DenumberList(current);
    forall v | v in den
      ensures exists l :: l in current && Denumber(l) == v
    {
      var k :| 0 <= k < |den| && den[k] == v;
      assert current[k] in current;
    }
    forall l | l in current
      ensures Denumber(l) in den
    {
      var k :| 0 <= k < |current| && current[k] == l;
      assert den[k] == Denumber(l);
    }
  }

  /** The update fails exactly when a selected value does not occur in the column;
      otherwise it relabels each selected value, in order, with its count, and its
      choices are the column's options. */
  lemma DropboxUpdates(rows: seq<Record>, c: Column, current: seq<string>)
    ensures var u := CalcDropboxUpdates(rows, c, current); var vals := ColumnValues(rows, c);
      (u.Found? <==> forall l :: l in current ==> Denumber(l) in vals) &&
      (u.KeyError? ==> u.key !in vals && exists l :: l in current && Denumber(l) == u.key) &&
      (u.Found? ==>
         u.value.choices == CalcUniqueOptions(rows, c) && |u.value.value| == |current| &&
         forall i :: 0 <= i < |current| ==>
           u.value.value[i] == Label(Denumber(current[i]), multiset(vals)[Denumber(current[i])]))
  {
    var vals := ColumnValues(rows, c);
    var den := DenumberList(current);
    LocTally(vals, den);
    DenumberedValues(current);
  }

  /** On the table the options were computed from, a selection of options whose
      values are unambiguous comes back unchanged. */
  lemma SelectionKept(rows: seq<Record>, c: Column, current: seq<string>)
    requires forall v :: v in ColumnValues(rows, c) ==> Unambiguous(v)
    requires forall l :: l in current ==> l in CalcUniqueOptions(rows, c)
    ensures CalcDropboxUpdates(rows, c, current) == Found(Updates(current, CalcUniqueOptions(rows, c)))
  {
    var vals := ColumnValues(rows, c);
    UniqueOptions(rows, c);
    DropboxUpdates(rows, c, current);
    forall i | 0 <= i < |current|
      ensures Denumber(current[i]) in vals &&
        current[i] == Label(Denumber(current[i]), multiset(vals)[Denumber(current[i])])
    {
      assert current[i] in current;
      OptionValue(rows, c, current[i]);
    }
    var u := CalcDropboxUpdates(rows, c, current);
    assert u.Found?;
    assert u.value.value == current;
  }

  /** An option of an unambiguous column is the label of its own value. */
  lemma OptionValue(rows: seq<Record>, c: Column, l: string)
    requires forall v :: v in ColumnValues(rows, c) ==> Unambiguous(v)
    requires l in CalcUniqueOptions(rows, c)
    ensures var vals := ColumnValues(rows, c);
      Denumber(l) in vals && l == Label(Denumber(l), multiset(vals)[Denumber(l)])
  {
    var vals := ColumnValues(rows, c);
    var os := CalcUniqueOptions(rows, c);
    var t := CalcCounts(rows, c);
    UniqueOptions(rows, c);
    var k :| 0 <= k < |os| && os[k] == l;
    var v := t[k].0;
    LabelDenumber(v, multiset(vals)[v]);
  }
}
