/** The generation-info strings the parser is written for, and what each rewrite
    of parse_gen_info does to them. A string is a list of comma-separated fields:
    `key: value`, `key: "k1: v1, k2: v2"` (a quoted list, as written for hashes),
    or a segment without a colon. */
module GenInfoText {
  import opened Text
  import opened GenInfo

  datatype Field =
    | Pair(key: string, value: string)
    | Group(key: string, items: seq<(string, string)>)
    | Bare(text: string)

  /** Characters a key or value never holds in this format. */
  const Banned: set<char> := {',', ':', '"', '{', '}', '\\'}

  /** A key, value or segment: non-empty, no trailing whitespace, none of the
      banned characters and no control character. */
  predicate Atom(a: string) {
    && a != []
    && a[|a| - 1] !in Whitespace
    && (forall k :: 0 <= k < |a| ==> a[k] !in Banned && a[k] >= ' ')
  }

  predicate GoodItems(items: seq<(string, string)>) {
    items != [] && forall i :: 0 <= i < |items| ==> Atom(items[i].0) && Atom(items[i].1)
  }

  predicate GoodField(f: Field) {
    match f
    case Pair(k, v) => Atom(k) && Atom(v)
    case Group(k, items) => Atom(k) && GoodItems(items)
    case Bare(w) => Atom(w)
  }

  predicate GoodFields(fs: seq<Field>) {
    fs != [] && forall i :: 0 <= i < |fs| ==> GoodField(fs[i])
  }

  /** No key, value or segment contains the marker "Hashes". */
  predicate ItemsUnmarked(items: seq<(string, string)>) {
    forall i :: 0 <= i < |items| ==> !Contains(items[i].0, Marker) && !Contains(items[i].1, Marker)
  }

  predicate FieldUnmarked(f: Field) {
    match f
    case Pair(k, v) => !Contains(k, Marker) && !Contains(v, Marker)
    case Group(k, items) => !Contains(k, Marker) && ItemsUnmarked(items)
    case Bare(w) => !Contains(w, Marker)
  }

  predicate Unmarked(fs: seq<Field>) {
    forall i :: 0 <= i < |fs| ==> FieldUnmarked(fs[i])
  }

  /** The text after each rewrite: as written, after the comma rewrite, after the
      colon rewrite, and after the brace fix-ups. */
  datatype Stage = Raw | Commas | Colons | Braces

  function KeySep(st: Stage): string {
    if st == Raw || st == Commas then ": " else "\": \""
  }

  function FieldSep(st: Stage): string {
    if st == Raw then ", " else "\", \""
  }

  function GroupOpen(st: Stage): string {
    match st
    case Raw => ": \""
    case Commas => ": \""
    case Colons => "\": \"\""
    case Braces => "\": {\""
  }

  function ItemsText(items: seq<(string, string)>, st: Stage): string
    decreases |items|
  {
    if items == [] then ""
    else
      var t := items[0].0 + KeySep(st) + items[0].1;
      if |items| == 1 then t else t + FieldSep(st) + ItemsText(items[1..], st)
  }

  function FieldText(f: Field, st: Stage): string {
    match f
    case Pair(k, v) => k + KeySep(st) + v
    case Group(k, items) => k + GroupOpen(st) + ItemsText(items, st) + "\""
    case Bare(w) => w
  }

  function FieldsText(fs: seq<Field>, st: Stage): string
    decreases |fs|
  {
    if fs == [] then ""
    else if |fs| == 1 then FieldText(fs[0], st)
    else FieldText(fs[0], st) + FieldSep(st) + FieldsText(fs[1..], st)
  }

  /** The generation-info string the fields are written as. */
  function Render(fs: seq<Field>): string {
    FieldsText(fs, Raw)
  }

  // ---------------------------------------------------------------------
  // Facts about atoms and the rendered texts
  // ---------------------------------------------------------------------

  lemma AtomLacks(a: string, c: char)
    requires Atom(a) && c in Banned
    ensures c !in a
  {
  }

  /** Every `c` is followed by a space. */
  predicate Spaced(s: string, c: char) {
    forall k :: 0 <= k < |s| && s[k] == c ==> k + 1 < |s| && s[k + 1] == ' '
  }

  lemma SpacedConcat(a: string, b: string, c: char)
    requires Spaced(a, c) && Spaced(b, c)
    ensures Spaced(a + b, c)
  {
    var s := a + b;
    forall k | 0 <= k < |s| && s[k] == c
      ensures k + 1 < |s| && s[k + 1] == ' '
    {
      if k < |a| {
        assert a[k] == c;
      } else {
        assert b[k - |a|] == c;
      }
    }
  }

  lemma SpacedAbsent(a: string, c: char)
    requires c !in a
    ensures Spaced(a, c)
  {
  }

  /** Neither the source text nor its first rewrites hold a brace. */
  lemma {:induction false} ItemsBraceFree(items: seq<(string, string)>, st: Stage)
    requires GoodItems(items) && st != Braces
    ensures '{' !in ItemsText(items, st) && '}' !in ItemsText(items, st)
    decreases |items|
  {
    AtomLacks(items[0].0, '{'); AtomLacks(items[0].0, '}');
    AtomLacks(items[0].1, '{'); AtomLacks(items[0].1, '}');
    if |items| > 1 {
      ItemsBraceFree(items[1..], st);
    }
  }

  lemma FieldBraceFree(f: Field, st: Stage)
    requires GoodField(f) && st != Braces
    ensures '{' !in FieldText(f, st) && '}' !in FieldText(f, st)
  {
    match f
    case Pair(k, v) =>
      AtomLacks(k, '{'); AtomLacks(k, '}'); AtomLacks(v, '{'); AtomLacks(v, '}');
    case Group(k, items) =>
      AtomLacks(k, '{'); AtomLacks(k, '}');
      ItemsBraceFree(items, st);
    case Bare(w) =>
      AtomLacks(w, '{'); AtomLacks(w, '}');
  }

  lemma {:induction false} FieldsBraceFree(fs: seq<Field>, st: Stage)
    requires GoodFields(fs) && st != Braces
    ensures '{' !in FieldsText(fs, st) && '}' !in FieldsText(fs, st)
    decreases |fs|
  {
    FieldBraceFree(fs[0], st);
    if |fs| > 1 {
      FieldsBraceFree(fs[1..], st);
    }
  }

  /** In the source text every comma is followed by a space, and so is every
      colon once the commas are rewritten. */
  lemma {:induction false} ItemsSpaced(items: seq<(string, string)>)
    requires GoodItems(items)
    ensures Spaced(ItemsText(items, Raw), ',') && Spaced(ItemsText(items, Commas), ':')
    decreases |items|
  {
    var k, v := items[0].0, items[0].1;
    AtomLacks(k, ','); AtomLacks(v, ','); AtomLacks(k, ':'); AtomLacks(v, ':');
    SpacedAbsent(k, ','); SpacedAbsent(v, ','); SpacedAbsent(k, ':'); SpacedAbsent(v, ':');
    SpacedConcat(k, ": ", ','); SpacedConcat(k + ": ", v, ',');
    SpacedConcat(k, ": ", ':'); SpacedConcat(k + ": ", v, ':');
    if |items| > 1 {
      var t := k + ": " + v;
      ItemsSpaced(items[1..]);
      SpacedConcat(t, ", ", ','); SpacedConcat(t + ", ", ItemsText(items[1..], Raw), ',');
      SpacedAbsent("\", \"", ':');
      SpacedConcat(t, "\", \"", ':'); SpacedConcat(t + "\", \"", ItemsText(items[1..], Commas), ':');
    }
  }

  lemma FieldSpaced(f: Field)
    requires GoodField(f)
    ensures Spaced(FieldText(f, Raw), ',') && Spaced(FieldText(f, Commas), ':')
  {
    match f
    case Pair(k, v) =>
      AtomLacks(k, ','); AtomLacks(v, ','); AtomLacks(k, ':'); AtomLacks(v, ':');
      SpacedAbsent(k, ','); SpacedAbsent(v, ','); SpacedAbsent(k, ':'); SpacedAbsent(v, ':');
      SpacedConcat(k, ": ", ','); SpacedConcat(k + ": ", v, ',');
      SpacedConcat(k, ": ", ':'); SpacedConcat(k + ": ", v, ':');
    case Group(k, items) =>
      AtomLacks(k, ','); AtomLacks(k, ':');
      SpacedAbsent(k, ','); SpacedAbsent(k, ':');
      ItemsSpaced(items);
      var open := ": \"";
      SpacedConcat(k, open, ','); SpacedConcat(k + open, ItemsText(items, Raw), ',');
      SpacedConcat(k + open + ItemsText(items, Raw), "\"", ',');
      SpacedConcat(k, open, ':'); SpacedConcat(k + open, ItemsText(items, Commas), ':');
      SpacedConcat(k + open + ItemsText(items, Commas), "\"", ':');
    case Bare(w) =>
      AtomLacks(w, ','); AtomLacks(w, ':');
      SpacedAbsent(w, ','); SpacedAbsent(w, ':');
  }

  lemma {:induction false} FieldsSpaced(fs: seq<Field>)
    requires GoodFields(fs)
    ensures Spaced(FieldsText(fs, Raw), ',') && Spaced(FieldsText(fs, Commas), ':')
    decreases |fs|
  {
    FieldSpaced(fs[0]);
    if |fs| > 1 {
      var t0, t3 := FieldText(fs[0], Raw), FieldText(fs[0], Commas);
      FieldsSpaced(fs[1..]);
      SpacedConcat(t0, ", ", ','); SpacedConcat(t0 + ", ", FieldsText(fs[1..], Raw), ',');
      SpacedAbsent("\", \"", ':');
      SpacedConcat(t3, "\", \"", ':'); SpacedConcat(t3 + "\", \"", FieldsText(fs[1..], Commas), ':');
    }
  }

  lemma {:induction false} NoCloseBrace(s: string, j: nat)
    requires '}' !in s
    ensures !ClosesBraceFrom(s, j)
    decreases |s| - j
  {
    if j < |s| {
      assert s[j] in s;
      NoCloseBrace(s, j + 1);
    }
  }

  /** Without braces the lookahead never blocks a match, and when `c` is always
      followed by a space the quoting rewrite is the literal replacement of `c` and
      a space. */
  lemma {:induction false} QuoteIsReplace(s: string, c: char, i: nat)
    requires i <= |s| && '}' !in s && Spaced(s, c)
    ensures QuoteFrom(s, c, i) == ReplaceFrom(s, [c, ' '], ['"', c, ' ', '"'], i)
    decreases |s| - i
  {
    if i < |s| {
      NoCloseBrace(s, i + 2);
      if s[i] == c {
        assert s[i..i + 2] == [c, ' '];
        QuoteIsReplace(s, c, i + 2);
      } else {
        MatchChar(s, i, [c, ' '], 0);
        QuoteIsReplace(s, c, i + 1);
      }
    }
  }

  // ---------------------------------------------------------------------
  // The comma rewrite
  // ---------------------------------------------------------------------

  lemma {:induction false} ItemsCommas(items: seq<(string, string)>)
    requires GoodItems(items)
    ensures Passes(ItemsText(items, Raw), ItemsText(items, Commas), ", ", "\", \"")
    decreases |items|
  {
    var pat, rep := ", ", "\", \"";
    var k, v := items[0].0, items[0].1;
    AtomLacks(k, ','); AtomLacks(v, ',');
    var t := k + ": " + v;
    PassesClean(t, pat, rep);
    if |items| == 1 {
      assert ItemsText(items, Raw) == t && ItemsText(items, Commas) == t;
    } else {
      ItemsCommas(items[1..]);
      PassesPat(pat, rep);
      PassesCat(t, t, pat, rep, pat, rep);
      PassesCat(t + pat, t + rep, ItemsText(items[1..], Raw), ItemsText(items[1..], Commas), pat, rep);
      assert ItemsText(items, Raw) == t + pat + ItemsText(items[1..], Raw);
      assert ItemsText(items, Commas) == t + rep + ItemsText(items[1..], Commas);
    }
  }

  lemma FieldCommas(f: Field)
    requires GoodField(f)
    ensures Passes(FieldText(f, Raw), FieldText(f, Commas), ", ", "\", \"")
  {
    var pat, rep := ", ", "\", \"";
    match f
    case Pair(k, v) =>
      AtomLacks(k, ','); AtomLacks(v, ',');
      PassesClean(k + ": " + v, pat, rep);
    case Group(k, items) =>
      AtomLacks(k, ',');
      var o := k + ": \"";
      PassesClean(o, pat, rep);
      ItemsCommas(items);
      PassesCat(o, o, ItemsText(items, Raw), ItemsText(items, Commas), pat, rep);
      PassesClean("\"", pat, rep);
      PassesCat(o + ItemsText(items, Raw), o + ItemsText(items, Commas), "\"", "\"", pat, rep);
    case Bare(w) =>
      AtomLacks(w, ',');
      PassesClean(w, pat, rep);
  }

  lemma {:induction false} FieldsCommas(fs: seq<Field>)
    requires GoodFields(fs)
    ensures Passes(FieldsText(fs, Raw), FieldsText(fs, Commas), ", ", "\", \"")
    decreases |fs|
  {
    var pat, rep := ", ", "\", \"";
    var t, t' := FieldText(fs[0], Raw), FieldText(fs[0], Commas);
    FieldCommas(fs[0]);
    if |fs| == 1 {
      assert FieldsText(fs, Raw) == t && FieldsText(fs, Commas) == t';
    } else {
      FieldsCommas(fs[1..]);
      PassesPat(pat, rep);
      PassesCat(t, t', pat, rep, pat, rep);
      PassesCat(t + pat, t' + rep, FieldsText(fs[1..], Raw), FieldsText(fs[1..], Commas), pat, rep);
      assert FieldsText(fs, Raw) == t + pat + FieldsText(fs[1..], Raw);
      assert FieldsText(fs, Commas) == t' + rep + FieldsText(fs[1..], Commas);
    }
  }

  /** The comma rewrite of scripts/gallery_utils.py:126 on a rendered string. */
  lemma CommaStage(fs: seq<Field>)
    requires GoodFields(fs)
    ensures QuoteFrom(Render(fs), ',', 0) == FieldsText(fs, Commas)
  {
    FieldsBraceFree(fs, Raw);
    FieldsSpaced(fs);
    QuoteIsReplace(Render(fs), ',', 0);
    FieldsCommas(fs);
    PassesWhole(Render(fs), FieldsText(fs, Commas), ", ", "\", \"");
  }

  // ---------------------------------------------------------------------
  // The colon rewrite
  // ---------------------------------------------------------------------

  lemma ItemColons(k: string, v: string)
    requires Atom(k) && Atom(v)
    ensures Passes(k + ": " + v, k + "\": \"" + v, ": ", "\": \"")
  {
    var pat, rep := ": ", "\": \"";
    AtomLacks(k, ':'); AtomLacks(v, ':');
    PassesClean(k, pat, rep);
    PassesPat(pat, rep);
    PassesCat(k, k, pat, rep, pat, rep);
    PassesClean(v, pat, rep);
    PassesCat(k + pat, k + rep, v, v, pat, rep);
  }

  lemma {:induction false} ItemsColons(items: seq<(string, string)>)
    requires GoodItems(items)
    ensures Passes(ItemsText(items, Commas), ItemsText(items, Colons), ": ", "\": \"")
    decreases |items|
  {
    var pat, rep := ": ", "\": \"";
    var sep := "\", \"";
    var k, v := items[0].0, items[0].1;
    ItemColons(k, v);
    var t, t' := k + pat + v, k + rep + v;
    if |items| == 1 {
      assert ItemsText(items, Commas) == t && ItemsText(items, Colons) == t';
    } else {
      ItemsColons(items[1..]);
      PassesClean(sep, pat, rep);
      PassesCat(t, t', sep, sep, pat, rep);
      PassesCat(t + sep, t' + sep, ItemsText(items[1..], Commas), ItemsText(items[1..], Colons), pat, rep);
      assert ItemsText(items, Commas) == t + sep + ItemsText(items[1..], Commas);
      assert ItemsText(items, Colons) == t' + sep + ItemsText(items[1..], Colons);
    }
  }

  lemma FieldColons(f: Field)
    requires GoodField(f)
    ensures Passes(FieldText(f, Commas), FieldText(f, Colons), ": ", "\": \"")
  {
    var pat, rep := ": ", "\": \"";
    match f
    case Pair(k, v) =>
      ItemColons(k, v);
    case Group(k, items) =>
      GroupColons(k, items);
    case Bare(w) =>
      AtomLacks(w, ':');
      PassesClean(w, pat, rep);
  }

  lemma GroupColons(k: string, items: seq<(string, string)>)
    requires Atom(k) && GoodItems(items)
    ensures Passes(FieldText(Group(k, items), Commas), FieldText(Group(k, items), Colons), ": ", "\": \"")
  {
    var pat, rep := ": ", "\": \"";
    AtomLacks(k, ':');
    PassesClean(k, pat, rep);
    PassesPat(pat, rep);
    PassesCat(k, k, pat, rep, pat, rep);
    PassesClean("\"", pat, rep);
    PassesCat(k + pat, k + rep, "\"", "\"", pat, rep);
    var o, o' := k + pat + "\"", k + rep + "\"";
    var a, b := ItemsText(items, Commas), ItemsText(items, Colons);
    ItemsColons(items);
    PassesCat(o, o', a, b, pat, rep);
    PassesCat(o + a, o' + b, "\"", "\"", pat, rep);
    OpenPieces();
    JoinOpen(k, pat, "\"", a, "\"");
    JoinOpen(k, rep, "\"", b, "\"");
  }

  lemma {:induction false} FieldsColons(fs: seq<Field>)
    requires GoodFields(fs)
    ensures Passes(FieldsText(fs, Commas), FieldsText(fs, Colons), ": ", "\": \"")
    decreases |fs|
  {
    var pat, rep := ": ", "\": \"";
    var sep := "\", \"";
    var t, t' := FieldText(fs[0], Commas), FieldText(fs[0], Colons);
    FieldColons(fs[0]);
    if |fs| == 1 {
      assert FieldsText(fs, Commas) == t && FieldsText(fs, Colons) == t';
    } else {
      FieldsColons(fs[1..]);
      PassesClean(sep, pat, rep);
      PassesCat(t, t', sep, sep, pat, rep);
      PassesCat(t + sep, t' + sep, FieldsText(fs[1..], Commas), FieldsText(fs[1..], Colons), pat, rep);
      assert FieldsText(fs, Commas) == t + sep + FieldsText(fs[1..], Commas);
      assert FieldsText(fs, Colons) == t' + sep + FieldsText(fs[1..], Colons);
    }
  }

  /** The colon rewrite of scripts/gallery_utils.py:127, after the comma rewrite. */
  lemma ColonStage(fs: seq<Field>)
    requires GoodFields(fs)
    ensures QuoteFrom(FieldsText(fs, Commas), ':', 0) == FieldsText(fs, Colons)
  {
    FieldsBraceFree(fs, Commas);
    FieldsSpaced(fs);
    QuoteIsReplace(FieldsText(fs, Commas), ':', 0);
    assert [':', ' '] == ": " && ['"', ':', ' ', '"'] == "\": \"";
    FieldsColons(fs);
    PassesWhole(FieldsText(fs, Commas), FieldsText(fs, Colons), ": ", "\": \"");
  }

  /** The first brace fix-up of scripts/gallery_utils.py:130 finds nothing to do. */
  lemma OpenBraceStage(fs: seq<Field>)
    requires GoodFields(fs)
    ensures Replace(FieldsText(fs, Colons), "\"{", "{") == FieldsText(fs, Colons)
  {
    FieldsBraceFree(fs, Colons);
    ReplaceNoChar(FieldsText(fs, Colons), "\"{", "{", 1);
  }

  // ---------------------------------------------------------------------
  // The fix-up opening each quoted list as an object
  // ---------------------------------------------------------------------

  lemma ItemBraces(k: string, v: string)
    requires Atom(k) && Atom(v)
    ensures Passes(k + "\": \"" + v, k + "\": \"" + v, ": \"\"", ": {\"")
  {
    var pat, rep := ": \"\"", ": {\"";
    AtomLacks(k, ':'); AtomLacks(v, ':'); AtomLacks(v, '"');
    assert v[0] in v;
    var y := " \"" + v;
    PassesClean(y, pat, rep);
    PassesMiss(':', y, y, pat, rep, 3);
    PassesClean(k + "\"", pat, rep);
    PassesCat(k + "\"", k + "\"", [':'] + y, [':'] + y, pat, rep);
    assert k + "\": \"" + v == (k + "\"") + ([':'] + y);
  }

  lemma {:induction false} ItemsBraces(items: seq<(string, string)>)
    requires GoodItems(items)
    ensures Passes(ItemsText(items, Colons), ItemsText(items, Braces), ": \"\"", ": {\"")
    decreases |items|
  {
    var pat, rep := ": \"\"", ": {\"";
    var sep := "\", \"";
    var k, v := items[0].0, items[0].1;
    ItemBraces(k, v);
    var t := k + "\": \"" + v;
    if |items| == 1 {
      assert ItemsText(items, Colons) == t && ItemsText(items, Braces) == t;
    } else {
      ItemsBraces(items[1..]);
      PassesClean(sep, pat, rep);
      PassesCat(t, t, sep, sep, pat, rep);
      PassesCat(t + sep, t + sep, ItemsText(items[1..], Colons), ItemsText(items[1..], Braces), pat, rep);
      assert ItemsText(items, Colons) == t + sep + ItemsText(items[1..], Colons);
      assert ItemsText(items, Braces) == t + sep + ItemsText(items[1..], Braces);
    }
  }

  lemma FieldBraces(f: Field)
    requires GoodField(f)
    ensures Passes(FieldText(f, Colons), FieldText(f, Braces), ": \"\"", ": {\"")
  {
    var pat, rep := ": \"\"", ": {\"";
    match f
    case Pair(k, v) =>
      ItemBraces(k, v);
    case Group(k, items) =>
      AtomLacks(k, ':');
      var o := k + "\"";
      PassesClean(o, pat, rep);
      PassesPat(pat, rep);
      PassesCat(o, o, pat, rep, pat, rep);
      ItemsBraces(items);
      PassesCat(o + pat, o + rep, ItemsText(items, Colons), ItemsText(items, Braces), pat, rep);
      PassesClean("\"", pat, rep);
      PassesCat(o + pat + ItemsText(items, Colons), o + rep + ItemsText(items, Braces), "\"", "\"", pat, rep);
      GroupStages(k, items);
    case Bare(w) =>
      AtomLacks(w, ':');
      PassesClean(w, pat, rep);
  }

  lemma GroupStages(k: string, items: seq<(string, string)>)
    ensures FieldText(Group(k, items), Colons) == k + "\"" + ": \"\"" + ItemsText(items, Colons) + "\""
    ensures FieldText(Group(k, items), Braces) == k + "\"" + ": {\"" + ItemsText(items, Braces) + "\""
  {
    var a, b := ItemsText(items, Colons), ItemsText(items, Braces);
    OpenPieces();
    JoinOpen(k, "\"", ": \"\"", a, "\"");
    JoinOpen(k, "\"", ": {\"", b, "\"");
  }

  lemma OpenPieces()
    ensures GroupOpen(Colons) == "\"" + ": \"\"" && GroupOpen(Braces) == "\"" + ": {\""
    ensures GroupOpen(Commas) == ": " + "\"" && GroupOpen(Colons) == "\": \"" + "\""
  {
  }

  lemma JoinOpen(k: string, q: string, o: string, body: string, c: string)
    ensures k + (q + o) + body + c == k + q + o + body + c
  {
  }

  lemma {:induction false} FieldsBraces(fs: seq<Field>)
    requires GoodFields(fs)
    ensures Passes(FieldsText(fs, Colons), FieldsText(fs, Braces), ": \"\"", ": {\"")
    decreases |fs|
  {
    var pat, rep := ": \"\"", ": {\"";
    var sep := "\", \"";
    var t, t' := FieldText(fs[0], Colons), FieldText(fs[0], Braces);
    FieldBraces(fs[0]);
    if |fs| == 1 {
      assert FieldsText(fs, Colons) == t && FieldsText(fs, Braces) == t';
    } else {
      FieldsBraces(fs[1..]);
      PassesClean(sep, pat, rep);
      PassesCat(t, t', sep, sep, pat, rep);
      PassesCat(t + sep, t' + sep, FieldsText(fs[1..], Colons), FieldsText(fs[1..], Braces), pat, rep);
      assert FieldsText(fs, Colons) == t + sep + FieldsText(fs[1..], Colons);
      assert FieldsText(fs, Braces) == t' + sep + FieldsText(fs[1..], Braces);
    }
  }

  /** The fix-up of scripts/gallery_utils.py:131 opens each quoted list as an object. */
  lemma QuoteBraceStage(fs: seq<Field>)
    requires GoodFields(fs)
    ensures Replace(FieldsText(fs, Colons), ": \"\"", ": {\"") == FieldsText(fs, Braces)
  {
    FieldsBraces(fs);
    PassesWhole(FieldsText(fs, Colons), FieldsText(fs, Braces), ": \"\"", ": {\"");
  }

  // ---------------------------------------------------------------------
  // The fix-up closing each quoted list that a comma follows
  // ---------------------------------------------------------------------

  /** The text after the last fix-up of scripts/gallery_utils.py:132: a closing brace
      after each quoted list that is followed by a comma. */
  function Final(fs: seq<Field>): string
    requires fs != []
    decreases |fs|
  {
    var t := FieldText(fs[0], Braces);
    if |fs| == 1 then t
    else t + (if fs[0].Group? then "}, \"" else "\", \"") + Final(fs[1..])
  }

  /** A non-empty text that does not open with a double quote. */
  predicate Led(s: string) {
    s != [] && s[0] != '"'
  }

  lemma ItemsLed(items: seq<(string, string)>, st: Stage)
    requires GoodItems(items)
    ensures Led(ItemsText(items, st))
  {
    var k := items[0].0;
    AtomLacks(k, '"');
    assert k[0] in k;
    assert ItemsText(items, st)[0] == k[0];
  }

  lemma FieldLed(f: Field, st: Stage)
    requires GoodField(f)
    ensures Led(FieldText(f, st))
  {
    match f
    case Pair(k, v) =>
      AtomLacks(k, '"');
      assert k[0] in k;
    case Group(k, items) =>
      AtomLacks(k, '"');
      assert k[0] in k;
    case Bare(w) =>
      AtomLacks(w, '"');
      assert w[0] in w;
  }

  lemma FieldsLed(fs: seq<Field>, st: Stage)
    requires GoodFields(fs)
    ensures Led(FieldsText(fs, st))
  {
    FieldLed(fs[0], st);
    assert FieldsText(fs, st)[0] == FieldText(fs[0], st)[0];
  }

  lemma QuoteLed(y: string, b: string)
    requires Led(y) && Passes(y, b, "\"\",", "\"},")
    ensures Passes("\"" + y, "\"" + b, "\"\",", "\"},")
  {
    PassesMiss('"', y, b, "\"\",", "\"},", 1);
  }

  lemma ItemFinal(k: string, v: string)
    requires Atom(k) && Atom(v)
    ensures Passes(k + "\": \"" + v, k + "\": \"" + v, "\"\",", "\"},")
  {
    var pat, rep := "\"\",", "\"},";
    AtomLacks(k, '"'); AtomLacks(v, '"');
    assert v[0] in v;
    PassesClean(v, pat, rep);
    QuoteLed(v, v);
    PassesClean(": ", pat, rep);
    PassesCat(": ", ": ", "\"" + v, "\"" + v, pat, rep);
    var y := ": " + ("\"" + v);
    QuoteLed(y, y);
    PassesClean(k, pat, rep);
    PassesCat(k, k, "\"" + y, "\"" + y, pat, rep);
    assert k + "\": \"" + v == k + ("\"" + y);
  }

  lemma SepFinal(y: string, b: string)
    requires Led(y) && Passes(y, b, "\"\",", "\"},")
    ensures Passes("\", \"" + y, "\", \"" + b, "\"\",", "\"},")
  {
    var pat, rep := "\"\",", "\"},";
    QuoteLed(y, b);
    PassesClean(", ", pat, rep);
    PassesCat(", ", ", ", "\"" + y, "\"" + b, pat, rep);
    QuoteLed(", " + ("\"" + y), ", " + ("\"" + b));
    assert "\", \"" + y == "\"" + (", " + ("\"" + y));
    assert "\", \"" + b == "\"" + (", " + ("\"" + b));
  }

  lemma {:induction false} ItemsFinal(items: seq<(string, string)>)
    requires GoodItems(items)
    ensures Passes(ItemsText(items, Braces), ItemsText(items, Braces), "\"\",", "\"},")
    decreases |items|
  {
    var pat, rep := "\"\",", "\"},";
    var k, v := items[0].0, items[0].1;
    var t := k + "\": \"" + v;
    ItemFinal(k, v);
    if |items| == 1 {
      assert ItemsText(items, Braces) == t;
    } else {
      var r := ItemsText(items[1..], Braces);
      ItemsFinal(items[1..]);
      ItemsLed(items[1..], Braces);
      SepFinal(r, r);
      PassesCat(t, t, "\", \"" + r, "\", \"" + r, pat, rep);
      assert ItemsText(items, Braces) == t + ("\", \"" + r);
    }
  }

  /** A quoted list, up to its closing quote, passes the last fix-up unchanged. */
  lemma GroupFinal(k: string, items: seq<(string, string)>)
    requires Atom(k) && GoodItems(items)
    ensures Passes(k + "\": {\"" + ItemsText(items, Braces), k + "\": {\"" + ItemsText(items, Braces), "\"\",", "\"},")
  {
    var pat, rep := "\"\",", "\"},";
    var it := ItemsText(items, Braces);
    ItemsFinal(items);
    ItemsLed(items, Braces);
    QuoteLed(it, it);
    PassesClean(": {", pat, rep);
    PassesCat(": {", ": {", "\"" + it, "\"" + it, pat, rep);
    var y := ": {" + ("\"" + it);
    QuoteLed(y, y);
    AtomLacks(k, '"');
    PassesClean(k, pat, rep);
    PassesCat(k, k, "\"" + y, "\"" + y, pat, rep);
    assert k + "\": {\"" + it == k + ("\"" + y);
  }

  lemma FieldAlone(f: Field)
    requires GoodField(f)
    ensures Replace(FieldText(f, Braces), "\"\",", "\"},") == FieldText(f, Braces)
  {
    var pat, rep := "\"\",", "\"},";
    match f
    case Pair(k, v) =>
      ItemFinal(k, v);
      PassesWhole(FieldText(f, Braces), FieldText(f, Braces), pat, rep);
    case Group(k, items) =>
      GroupFinal(k, items);
      var pre := k + "\": {\"" + ItemsText(items, Braces);
      assert FieldText(f, Braces) == pre + "\"";
      assert Replace(pre + "\"", pat, rep) == pre + Replace("\"", pat, rep);
      ReplaceNoChar("\"", pat, rep, 2);
    case Bare(w) =>
      AtomLacks(w, '"');
      PassesClean(w, pat, rep);
      PassesWhole(w, w, pat, rep);
  }

  lemma SepReplace(r: string)
    requires Led(r)
    ensures Replace("\", \"" + r, "\"\",", "\"},") == "\", \"" + Replace(r, "\"\",", "\"},")
  {
    var pat, rep := "\"\",", "\"},";
    var y := "\"" + r;
    MatchChar(y, 0, pat, 1);
    assert y[1] == r[0];
    ReplaceMissHead('"', r, pat, rep);
    ReplaceNoHead(", ", y, pat, rep);
    var s := "\"" + (", " + y);
    MatchChar(s, 0, pat, 1);
    assert s[1] == ',';
    ReplaceMissHead('"', ", " + y, pat, rep);
    assert "\", \"" + r == s;
  }

  lemma CloseGroupText(pre: string, r: string, x: string)
    ensures pre + "\"" + "\", \"" + r == pre + ("\"\"," + (" " + ("\"" + r)))
    ensures pre + ("\"}," + (" " + ("\"" + x))) == pre + "\"" + "}, \"" + x
  {
  }

  /** A field followed by a comma: a quoted list gets its closing brace. */
  lemma FieldThen(f: Field, r: string)
    requires GoodField(f) && Led(r)
    ensures Replace(FieldText(f, Braces) + "\", \"" + r, "\"\",", "\"},") ==
            FieldText(f, Braces) + (if f.Group? then "}, \"" else "\", \"") + Replace(r, "\"\",", "\"},")
  {
    var pat, rep := "\"\",", "\"},";
    var t := FieldText(f, Braces);
    match f
    case Group(k, items) =>
      GroupFinal(k, items);
      var pre := k + "\": {\"" + ItemsText(items, Braces);
      var z := " " + ("\"" + r);
      assert t == pre + "\"";
      CloseGroupText(pre, r, Replace(r, pat, rep));
      assert Replace(pre + (pat + z), pat, rep) == pre + Replace(pat + z, pat, rep);
      ReplaceLead(pat, z, rep);
      ReplaceNoHead(" ", "\"" + r, pat, rep);
      var y := "\"" + r;
      MatchChar(y, 0, pat, 1);
      assert y[1] == r[0];
      ReplaceMissHead('"', r, pat, rep);
    case Pair(k, v) =>
      ItemFinal(k, v);
      SepReplace(r);
      assert t + "\", \"" + r == t + ("\", \"" + r);
      assert Replace(t + ("\", \"" + r), pat, rep) == t + Replace("\", \"" + r, pat, rep);
    case Bare(w) =>
      AtomLacks(w, '"');
      PassesClean(w, pat, rep);
      SepReplace(r);
      assert t + "\", \"" + r == t + ("\", \"" + r);
      assert Replace(t + ("\", \"" + r), pat, rep) == t + Replace("\", \"" + r, pat, rep);
  }

  /** The last fix-up of scripts/gallery_utils.py:132 gives the final text. */
  lemma {:induction false} FinalStage(fs: seq<Field>)
    requires GoodFields(fs)
    ensures Replace(FieldsText(fs, Braces), "\"\",", "\"},") == Final(fs)
    decreases |fs|
  {
    if |fs| == 1 {
      FieldAlone(fs[0]);
      assert FieldsText(fs, Braces) == FieldText(fs[0], Braces);
    } else {
      var r := FieldsText(fs[1..], Braces);
      FieldsLed(fs[1..], Braces);
      FinalStage(fs[1..]);
      FieldThen(fs[0], r);
      assert FieldsText(fs, Braces) == FieldText(fs[0], Braces) + "\", \"" + r;
    }
  }

  // ---------------------------------------------------------------------
  // The cut and the strip leave a rendered string alone
  // ---------------------------------------------------------------------

  lemma LiteralsNoMarker()
    ensures !Contains(": ", Marker) && !Contains(", ", Marker)
    ensures !Contains(": \"", Marker) && !Contains("\"", Marker)
  {
    AbsentChar(": ", Marker, 0);
    AbsentChar(", ", Marker, 0);
    AbsentChar(": \"", Marker, 0);
    AbsentChar("\"", Marker, 0);
  }

  lemma PairNoMarker(k: string, v: string)
    requires !Contains(k, Marker) && !Contains(v, Marker)
    ensures !Contains(k + ": " + v, Marker)
  {
    LiteralsNoMarker();
    ContainsConcat(k, ": ", Marker);
    ContainsConcat(k + ": ", v, Marker);
  }

  lemma {:induction false} ItemsNoMarker(items: seq<(string, string)>)
    requires items != [] && ItemsUnmarked(items)
    ensures !Contains(ItemsText(items, Raw), Marker)
    decreases |items|
  {
    var t := items[0].0 + ": " + items[0].1;
    PairNoMarker(items[0].0, items[0].1);
    if |items| == 1 {
      assert ItemsText(items, Raw) == t;
    } else {
      LiteralsNoMarker();
      ItemsNoMarker(items[1..]);
      ContainsConcat(t, ", ", Marker);
      ContainsConcat(t + ", ", ItemsText(items[1..], Raw), Marker);
      assert ItemsText(items, Raw) == t + ", " + ItemsText(items[1..], Raw);
    }
  }

  lemma FieldNoMarker(f: Field)
    requires GoodField(f) && FieldUnmarked(f)
    ensures !Contains(FieldText(f, Raw), Marker)
  {
    match f
    case Pair(k, v) =>
      PairNoMarker(k, v);
    case Group(k, items) =>
      LiteralsNoMarker();
      ItemsNoMarker(items);
      var o := k + ": \"";
      ContainsConcat(k, ": \"", Marker);
      ContainsConcat(o, ItemsText(items, Raw), Marker);
      ContainsConcat(o + ItemsText(items, Raw), "\"", Marker);
    case Bare(w) =>
  }

  lemma {:induction false} FieldsNoMarker(fs: seq<Field>)
    requires GoodFields(fs) && Unmarked(fs)
    ensures !Contains(Render(fs), Marker)
    decreases |fs|
  {
    var t := FieldText(fs[0], Raw);
    FieldNoMarker(fs[0]);
    if |fs| == 1 {
      assert Render(fs) == t;
    } else {
      LiteralsNoMarker();
      FieldsNoMarker(fs[1..]);
      ContainsConcat(t, ", ", Marker);
      ContainsConcat(t + ", ", Render(fs[1..]), Marker);
      assert Render(fs) == t + ", " + Render(fs[1..]);
    }
  }

  lemma AtomLast(a: string)
    requires Atom(a)
    ensures a[|a| - 1] !in SepChars && a[|a| - 1] != '}'
  {
    assert a[|a| - 1] !in Banned;
  }

  /** The last character of a field is neither a separator nor a closing brace,
      in the rendered string and in the final text. */
  lemma FieldLast(f: Field, st: Stage)
    requires GoodField(f)
    ensures FieldText(f, st) != []
    ensures FieldText(f, st)[|FieldText(f, st)| - 1] !in SepChars
    ensures FieldText(f, st)[|FieldText(f, st)| - 1] != '}'
  {
    match f
    case Pair(k, v) =>
      AtomLast(v);
      LastOfConcat(k + KeySep(st), v);
    case Group(k, items) =>
      LastOfConcat(k + GroupOpen(st) + ItemsText(items, st), "\"");
      QuoteNotSep();
    case Bare(w) =>
      AtomLast(w);
  }

  lemma QuoteNotSep()
    ensures '"' !in SepChars
  {
  }

  lemma LastOfConcat(a: string, b: string)
    requires b != []
    ensures a + b != [] && (a + b)[|a + b| - 1] == b[|b| - 1]
  {
  }

  lemma {:induction false} RenderLast(fs: seq<Field>)
    requires GoodFields(fs)
    ensures Render(fs) != [] && Render(fs)[|Render(fs)| - 1] !in SepChars
    decreases |fs|
  {
    FieldLast(fs[0], Raw);
    if |fs| > 1 {
      RenderLast(fs[1..]);
      var t := FieldText(fs[0], Raw) + ", ";
      assert Render(fs) == t + Render(fs[1..]);
    }
  }

  lemma {:induction false} FinalLast(fs: seq<Field>)
    requires GoodFields(fs)
    ensures Final(fs) != [] && Final(fs)[|Final(fs)| - 1] != '}'
    decreases |fs|
  {
    FieldLast(fs[0], Braces);
    if |fs| > 1 {
      FinalLast(fs[1..]);
      var t := FieldText(fs[0], Braces) + (if fs[0].Group? then "}, \"" else "\", \"");
      assert Final(fs) == t + Final(fs[1..]);
    }
  }

  /** The whole chain of rewrites of scripts/gallery_utils.py:120-132 on a rendered string. */
  lemma RewriteFields(fs: seq<Field>)
    requires GoodFields(fs) && Unmarked(fs)
    ensures Rewritten(Render(fs)) == Final(fs)
  {
    var s := Render(fs);
    FieldsNoMarker(fs);
    FindAbsent(s);
    assert s[..|s|] == s;
    RenderLast(fs);
    StripEndNoop(s, SepChars);
    CommaStage(fs);
    ColonStage(fs);
    OpenBraceStage(fs);
    QuoteBraceStage(fs);
    FinalStage(fs);
  }

  /** The text handed to json.loads for a rendered string. */
  lemma WrapFields(fs: seq<Field>)
    requires GoodFields(fs) && Unmarked(fs)
    ensures Wrapped(Render(fs)) == "{\"" + Final(fs) + "\"}"
  {
    RewriteFields(fs);
    FinalLast(fs);
    var t := "\"" + Final(fs);
    assert t[|t| - 1] == Final(fs)[|Final(fs)| - 1];
    QuoteBraces(Final(fs));
  }

  lemma QuoteBraces(x: string)
    ensures "{" + ("\"" + x + "\"") + "}" == "{\"" + x + "\"}"
    ensures "{\"" + x + "\"}" == "{" + ("\"" + x + "\"}")
  {
  }
}
