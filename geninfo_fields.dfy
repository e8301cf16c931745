/** What parse_gen_info returns for a generation-info string written as fields:
    the object of its pairs and quoted lists, or a failure when a segment has no
    colon or the string ends with a quoted list. */
module GenInfoFields {
  import opened Text
  import opened Json
  import opened GenInfo
  import opened GenInfoText

  function Key(f: Field): string {
    match f
    case Pair(k, _) => k
    case Group(k, _) => k
    case Bare(w) => w
  }

  /** The members of a quoted list, each value a string. */
  function ItemTrees(items: seq<(string, string)>): seq<(string, Tree)> {
    seq(|items|, i requires 0 <= i < |items| => (items[i].0, Leaf(items[i].1)))
  }

  function FieldTree(f: Field): Tree {
    match f
    case Pair(_, v) => Leaf(v)
    case Group(_, items) => Node(ItemTrees(items))
    case Bare(w) => Leaf(w)
  }

  function FieldTrees(fs: seq<Field>): seq<(string, Tree)> {
    seq(|fs|, i requires 0 <= i < |fs| => (Key(fs[i]), FieldTree(fs[i])))
  }

  /** The JSON object the fields are meant to be read as. */
  function FieldsTree(fs: seq<Field>): Tree {
    Node(FieldTrees(fs))
  }

  /** Every segment has a colon and the string does not end with a quoted list. */
  predicate Decodable(fs: seq<Field>) {
    && fs != []
    && (forall i :: 0 <= i < |fs| ==> !fs[i].Bare?)
    && !fs[|fs| - 1].Group?
  }

  lemma AtomPlain(a: string)
    requires Atom(a)
    ensures Plain(a)
  {
    forall k | 0 <= k < |a|
      ensures a[k] != '"' && a[k] != '\\' && a[k] >= ' '
    {
      assert a[k] !in Banned;
    }
  }

  lemma ItemsPlain(items: seq<(string, string)>)
    requires GoodItems(items)
    ensures forall i :: 0 <= i < |items| ==> Plain(ItemTrees(items)[i].0) && PlainTree(ItemTrees(items)[i].1)
  {
    forall i | 0 <= i < |items|
      ensures Plain(ItemTrees(items)[i].0) && PlainTree(ItemTrees(items)[i].1)
    {
      AtomPlain(items[i].0);
      AtomPlain(items[i].1);
    }
  }

  lemma FieldsPlain(fs: seq<Field>)
    requires GoodFields(fs)
    ensures PlainTree(FieldsTree(fs))
  {
    forall i | 0 <= i < |fs|
      ensures Plain(FieldTrees(fs)[i].0) && PlainTree(FieldTrees(fs)[i].1)
    {
      match fs[i]
      case Pair(k, v) =>
        AtomPlain(k); AtomPlain(v);
      case Group(k, items) =>
        AtomPlain(k);
        ItemsPlain(items);
      case Bare(w) =>
        AtomPlain(w);
    }
  }

  // ---------------------------------------------------------------------
  // The final text is the JSON text of the fields
  // ---------------------------------------------------------------------

  lemma PairAlone(k: string, v: string)
    ensures "\"" + (k + "\": \"" + v) + "\"" == Quote(k) + ": " + Quote(v)
  {
  }

  lemma PairText(k: string, v: string, r: string)
    ensures "\"" + (k + "\": \"" + v + "\", \"" + r) + "\"" == Quote(k) + ": " + Quote(v) + ", " + ("\"" + r + "\"")
  {
  }

  lemma GroupText(k: string, it: string, r: string)
    ensures "\"" + (k + "\": {\"" + it + "\"" + "}, \"" + r) + "\"" ==
            Quote(k) + ": " + ("{\"" + it + "\"}") + ", " + ("\"" + r + "\"")
  {
  }

  lemma {:induction false} ItemsMembers(items: seq<(string, string)>, parent: Tree)
    requires GoodItems(items)
    requires forall i :: 0 <= i < |items| ==> ItemTrees(items)[i].1 < parent
    ensures "\"" + ItemsText(items, Braces) + "\"" == MembersText(parent, ItemTrees(items))
    decreases |items|
  {
    var k, v := items[0].0, items[0].1;
    var ms := ItemTrees(items);
    assert ms[0] == (k, Leaf(v));
    if |items| == 1 {
      PairAlone(k, v);
      assert ItemsText(items, Braces) == k + "\": \"" + v;
    } else {
      var rest := items[1..];
      assert ItemTrees(rest) == ms[1..];
      ItemsMembers(rest, parent);
      var r := ItemsText(rest, Braces);
      PairText(k, v, r);
      assert ItemsText(items, Braces) == k + "\": \"" + v + "\", \"" + r;
    }
  }

  /** A quoted list, once rewritten, is the JSON text of an object of strings. */
  lemma GroupEncode(items: seq<(string, string)>)
    requires GoodItems(items)
    ensures Encode(Node(ItemTrees(items))) == "{\"" + ItemsText(items, Braces) + "\"}"
  {
    ItemsMembers(items, Node(ItemTrees(items)));
  }

  lemma {:induction false} FinalMembers(fs: seq<Field>, parent: Tree)
    requires GoodFields(fs) && Decodable(fs)
    requires forall i :: 0 <= i < |fs| ==> FieldTrees(fs)[i].1 < parent
    ensures "\"" + Final(fs) + "\"" == MembersText(parent, FieldTrees(fs))
    decreases |fs|
  {
    var f := fs[0];
    var k := Key(f);
    assert FieldTrees(fs)[0] == (k, FieldTree(f));
    if |fs| == 1 {
      assert f.Pair?;
      PairAlone(k, f.value);
      assert Final(fs) == k + "\": \"" + f.value;
    } else {
      var rest := fs[1..];
      assert FieldTrees(rest) == FieldTrees(fs)[1..];
      assert Decodable(rest) by {
        assert rest[|rest| - 1] == fs[|fs| - 1];
      }
      FinalMembers(rest, parent);
      var r := Final(rest);
      if f.Group? {
        var it := ItemsText(f.items, Braces);
        GroupEncode(f.items);
        GroupText(k, it, r);
        assert Final(fs) == k + "\": {\"" + it + "\"" + "}, \"" + r;
      } else {
        PairText(k, f.value, r);
        assert Final(fs) == k + "\": \"" + f.value + "\", \"" + r;
      }
    }
  }

  /** For decodable fields, the text handed to json.loads is the JSON text of
      their object. */
  lemma EncodeFields(fs: seq<Field>)
    requires GoodFields(fs) && Decodable(fs)
    requires Unmarked(fs)
    ensures Wrapped(Render(fs)) == Encode(FieldsTree(fs))
  {
    WrapFields(fs);
    FinalEncode(fs);
  }

  lemma FinalEncode(fs: seq<Field>)
    requires GoodFields(fs) && Decodable(fs)
    ensures "{\"" + Final(fs) + "\"}" == Encode(FieldsTree(fs))
  {
    var t := FieldsTree(fs);
    FinalMembers(fs, t);
    Braced(Final(fs));
    assert Encode(t) == "{" + MembersText(t, FieldTrees(fs)) + "}";
  }

  lemma Braced(f: string)
    ensures "{\"" + f + "\"}" == "{" + ("\"" + f + "\"") + "}"
  {
  }

  // ---------------------------------------------------------------------
  // Where json.loads gives up
  // ---------------------------------------------------------------------

  /** A quoted list at the very end keeps a stray quote inside its object. */
  lemma GroupLastFail(items: seq<(string, string)>)
    requires GoodItems(items)
    ensures ParseValue("{\"" + ItemsText(items, Braces) + "\"\"}") == Fail
  {
    var ms := ItemTrees(items);
    var p := Node(ms);
    ItemsMembers(items, p);
    ItemsPlain(items);
    var mt := MembersText(p, ms);
    var body := mt + "\"}";
    ObjectClose(ItemsText(items, Braces));
    ParseMembersText(p, ms, map[], "\"}");
    ObjectMembers(body);
    QuoteCloseStop();
    OpenBody(body);
  }

  lemma ObjectClose(x: string)
    ensures "{\"" + x + "\"\"}" == "{" + (("\"" + x + "\"") + "\"}")
  {
  }

  lemma QuoteCloseStop()
    ensures SkipWs("\"}") == "\"}"
  {
    SkipWsStop("\"}");
  }

  lemma OpenBody(body: string)
    ensures ("{" + body)[1..] == body
  {
  }

  /** Dropping a first field that has a colon keeps decodability as it was. */
  lemma DecodableTail(fs: seq<Field>)
    requires |fs| > 1 && !fs[0].Bare?
    ensures Decodable(fs[1..]) <==> Decodable(fs)
  {
    var rest := fs[1..];
    assert rest[|rest| - 1] == fs[|fs| - 1];
    assert forall i :: 1 <= i < |fs| ==> fs[i] == rest[i - 1];
  }

  lemma BareSplit(w: string, r: string)
    ensures "\"" + (w + "\", \"" + r) + "\"}" == Quote(w) + (", \"" + r + "\"}")
  {
  }

  lemma PairSplit(k: string, v: string, r: string)
    ensures "\"" + (k + "\": \"" + v + "\", \"" + r) + "\"}" == Quote(k) + ": " + Quote(v) + (", " + ("\"" + r) + "\"}")
  {
  }

  lemma GroupSplit(k: string, it: string, r: string)
    ensures "\"" + (k + "\": {\"" + it + "\"" + "}, \"" + r) + "\"}" ==
            Quote(k) + ": " + ("{\"" + it + "\"}") + (", " + ("\"" + r) + "\"}")
  {
  }

  lemma GroupLastSplit(k: string, it: string)
    ensures "\"" + (k + "\": {\"" + it + "\"") + "\"}" == Quote(k) + ": " + ("{\"" + it + "\"\"}") + ""
  {
  }

  /** The scan fails at a segment without a colon. */
  lemma BareFail(fs: seq<Field>, acc: map<string, Value>)
    requires GoodFields(fs) && fs[0].Bare?
    ensures ParseMembers("\"" + Final(fs) + "\"}", acc) == Fail
  {
    var w := fs[0].text;
    AtomPlain(w);
    if |fs| == 1 {
      assert Final(fs) == w;
      assert "\"" + w + "\"}" == Quote(w) + "}";
      KeyFail(w, "}", acc);
    } else {
      var r := Final(fs[1..]);
      assert Final(fs) == w + "\", \"" + r;
      BareSplit(w, r);
      KeyFail(w, ", \"" + r + "\"}", acc);
    }
  }

  /** The scan fails inside a quoted list that ends the string. */
  lemma GroupEndFail(f: Field, acc: map<string, Value>)
    requires GoodField(f) && f.Group?
    ensures ParseMembers("\"" + Final([f]) + "\"}", acc) == Fail
  {
    var k, it := f.key, ItemsText(f.items, Braces);
    AtomPlain(k);
    var e := "{\"" + it + "\"\"}";
    assert Final([f]) == k + "\": {\"" + it + "\"";
    GroupLastSplit(k, it);
    GroupLastFail(f.items);
    assert e + "" == e;
    MemberFail(k, e, "", acc);
  }

  /** The text of fields whose first one has a colon and is followed by more. */
  lemma FinalSplit(fs: seq<Field>)
    requires GoodFields(fs) && |fs| > 1 && !fs[0].Bare?
    ensures "\"" + Final(fs) + "\"}" == Quote(Key(fs[0])) + ": " + Encode(FieldTree(fs[0])) + (", " + ("\"" + Final(fs[1..])) + "\"}")
  {
    var f, r := fs[0], Final(fs[1..]);
    if f.Group? {
      var it := ItemsText(f.items, Braces);
      GroupEncode(f.items);
      assert Final(fs) == f.key + "\": {\"" + it + "\"" + "}, \"" + r;
      GroupSplit(f.key, it, r);
    } else {
      assert Final(fs) == f.key + "\": \"" + f.value + "\", \"" + r;
      PairSplit(f.key, f.value, r);
    }
  }

  /** A field list that is not decodable makes the member scan fail. */
  lemma {:induction false} FailMembers(fs: seq<Field>, acc: map<string, Value>)
    requires GoodFields(fs) && !Decodable(fs)
    ensures ParseMembers("\"" + Final(fs) + "\"}", acc) == Fail
    decreases |fs|
  {
    if fs[0].Bare? {
      BareFail(fs, acc);
    } else if |fs| == 1 {
      GroupEndFail(fs[0], acc);
      assert fs == [fs[0]];
    } else {
      var f := fs[0];
      DecodableTail(fs);
      FieldsPlain(fs);
      assert FieldTrees(fs)[0] == (Key(f), FieldTree(f));
      MembersThen(Key(f), FieldTree(f), Final(fs[1..]), acc);
      FinalSplit(fs);
      FailMembers(fs[1..], acc[Key(f) := Meaning(FieldTree(f))]);
    }
  }

  /** A member followed by a comma: the scan goes on after the comma with the
      member entered. */
  lemma MembersThen(k: string, t: Tree, r: string, acc: map<string, Value>)
    requires Plain(k) && PlainTree(t)
    ensures ParseMembers(Quote(k) + ": " + Encode(t) + (", " + ("\"" + r) + "\"}"), acc) ==
            ParseMembers("\"" + r + "\"}", acc[k := Meaning(t)])
  {
    var tail := ", " + ("\"" + r) + "\"}";
    ParseEncode(t, tail);
    EncodeHead(t);
    MemberStep(k, Encode(t), Meaning(t), tail, acc);
    AfterComma(acc[k := Meaning(t)], "\"" + r, "\"}");
  }

  lemma DecodeFail(fs: seq<Field>)
    requires GoodFields(fs) && !Decodable(fs)
    requires Unmarked(fs)
    ensures GenInfo.GenInfo(Render(fs)) == None
  {
    WrapFields(fs);
    var body := "\"" + Final(fs) + "\"}";
    QuoteBraces(Final(fs));
    FailMembers(fs, map[]);
    ObjectFail(body);
  }

  // ---------------------------------------------------------------------
  // The theorem
  // ---------------------------------------------------------------------

  /** parse_gen_info on a string of fields: the object of its pairs and quoted
      lists, or a failure when a segment lacks a colon or the last field is a
      quoted list. */
  lemma GenInfoOfFields(fs: seq<Field>)
    requires GoodFields(fs)
    requires Unmarked(fs)
    ensures GenInfo.GenInfo(Render(fs)) == if Decodable(fs) then Some(Meaning(FieldsTree(fs))) else None
  {
    if Decodable(fs) {
      EncodeFields(fs);
      FieldsPlain(fs);
      DecodeEncode(FieldsTree(fs));
    } else {
      DecodeFail(fs);
    }
  }

  /** The value a field is read as: a string for a pair, an object for a quoted list. */
  function FieldValue(f: Field): Value {
    Meaning(FieldTree(f))
  }

  /** parse_gen_info on decodable fields: an object whose keys are the fields'
      keys, each holding the value of the last field with that key. */
  lemma FieldsLookup(fs: seq<Field>)
    requires GoodFields(fs) && Decodable(fs)
    requires Unmarked(fs)
    ensures GenInfo.GenInfo(Render(fs)).Some? && GenInfo.GenInfo(Render(fs)).get.Obj?
    ensures forall k :: k in GenInfo.GenInfo(Render(fs)).get.fields <==> exists i :: 0 <= i < |fs| && Key(fs[i]) == k
    ensures forall j :: 0 <= j < |fs| && (forall i :: j < i < |fs| ==> Key(fs[i]) != Key(fs[j])) ==>
              GenInfo.GenInfo(Render(fs)).get.fields[Key(fs[j])] == FieldValue(fs[j])
  {
    GenInfoOfFields(fs);
    assert GenInfo.GenInfo(Render(fs)) == Some(Obj(Enter(FieldsTree(fs), map[], FieldTrees(fs))));
    FieldsKeys(fs);
    FieldsLast(fs);
  }

  lemma FieldsKeys(fs: seq<Field>)
    ensures forall k :: k in Enter(FieldsTree(fs), map[], FieldTrees(fs)) <==> exists i :: 0 <= i < |fs| && Key(fs[i]) == k
  {
    var t := FieldsTree(fs);
    var ms := FieldTrees(fs);
    forall k
      ensures k in Enter(t, map[], ms) <==> exists i :: 0 <= i < |fs| && Key(fs[i]) == k
    {
      EnterKeys(t, ms, k);
      assert forall i :: 0 <= i < |fs| ==> ms[i].0 == Key(fs[i]);
    }
  }

  lemma FieldsLast(fs: seq<Field>)
    ensures forall j :: 0 <= j < |fs| && (forall i :: j < i < |fs| ==> Key(fs[i]) != Key(fs[j])) ==>
              && Key(fs[j]) in Enter(FieldsTree(fs), map[], FieldTrees(fs))
              && Enter(FieldsTree(fs), map[], FieldTrees(fs))[Key(fs[j])] == FieldValue(fs[j])
  {
    var t := FieldsTree(fs);
    var ms := FieldTrees(fs);
    forall j | 0 <= j < |fs| && (forall i :: j < i < |fs| ==> Key(fs[i]) != Key(fs[j]))
      ensures Key(fs[j]) in Enter(t, map[], ms) && Enter(t, map[], ms)[Key(fs[j])] == FieldValue(fs[j])
    {
      EnterLast(t, ms, j);
    }
  }

  /** The object a quoted list is read as: its keys, each with the last value given. */
  lemma GroupLookup(name: string, items: seq<(string, string)>)
    ensures FieldValue(Group(name, items)).Obj?
    ensures forall k :: k in FieldValue(Group(name, items)).fields <==> exists i :: 0 <= i < |items| && items[i].0 == k
    ensures forall j :: 0 <= j < |items| && (forall i :: j < i < |items| ==> items[i].0 != items[j].0) ==>
              FieldValue(Group(name, items)).fields[items[j].0] == Str(items[j].1)
  {
    var ms := ItemTrees(items);
    var t := Node(ms);
    forall k
      ensures k in Enter(t, map[], ms) <==> exists i :: 0 <= i < |items| && items[i].0 == k
    {
      EnterKeys(t, ms, k);
      assert forall i :: 0 <= i < |items| ==> ms[i].0 == items[i].0;
    }
    forall j | 0 <= j < |items| && (forall i :: j < i < |items| ==> items[i].0 != items[j].0)
      ensures Enter(t, map[], ms)[items[j].0] == Str(items[j].1)
    {
      EnterLast(t, ms, j);
    }
  }

  /** The flat case: every field a `key: value` pair. The result maps each key to
      the value of its last occurrence, as a Python dict built left to right does. */
  lemma FlatLookup(fs: seq<Field>)
    requires GoodFields(fs) && forall i :: 0 <= i < |fs| ==> fs[i].Pair?
    requires Unmarked(fs)
    ensures GenInfo.GenInfo(Render(fs)).Some? && GenInfo.GenInfo(Render(fs)).get.Obj?
    ensures forall k :: k in GenInfo.GenInfo(Render(fs)).get.fields <==> exists i :: 0 <= i < |fs| && fs[i].key == k
    ensures forall j :: 0 <= j < |fs| && (forall i :: j < i < |fs| ==> fs[i].key != fs[j].key) ==>
              GenInfo.GenInfo(Render(fs)).get.fields[fs[j].key] == Str(fs[j].value)
  {
    FieldsLookup(fs);
  }

  /** A comma-separated segment without a colon makes json.loads raise. */
  lemma BareSegmentFails(fs: seq<Field>, j: nat)
    requires GoodFields(fs) && j < |fs| && fs[j].Bare?
    requires Unmarked(fs)
    ensures GenInfo.GenInfo(Render(fs)) == None
  {
    GenInfoOfFields(fs);
  }

  /** A string ending with a quoted list makes json.loads raise: the last fix-up only
      closes lists followed by a comma. */
  lemma TrailingGroupFails(fs: seq<Field>)
    requires GoodFields(fs) && fs[|fs| - 1].Group?
    requires Unmarked(fs)
    ensures GenInfo.GenInfo(Render(fs)) == None
  {
    GenInfoOfFields(fs);
  }
}
