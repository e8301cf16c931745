/** The part of Python's json.loads the generation-info parser relies on: an
    object whose values are strings or objects of the same kind. Parsing works
    on suffixes: each parser returns what it read and the rest of the input. */
module Json {

  /** A decoded JSON value: a string, or an object as a Python dict. */
  datatype Value = Str(s: string) | Obj(fields: map<string, Value>)

  /** The outcome of a parser: the value read and the unread rest, or a failure. */
  datatype Parse<T> = Ok(value: T, rest: string) | Fail

  /** The whitespace JSON allows between tokens. */
  const JsonWs: set<char> := {' ', '\t', '\n', '\r'}

  function SkipWs(s: string): (r: string)
    ensures |r| <= |s|
  {
    if s != [] && s[0] in JsonWs then SkipWs(s[1..]) else s
  }

  /** The character a one-letter escape stands for, or none for an escape json.loads
      does not accept. The \u escape is not modelled and counts as invalid here. */
  function Unescape(c: char): (r: Option<char>)
  {
    match c
    case '"' => Some('"')
    case '\\' => Some('\\')
    case '/' => Some('/')
    case 'b' => Some('\U{08}')
    case 'f' => Some('\U{0C}')
    case 'n' => Some('\n')
    case 'r' => Some('\r')
    case 't' => Some('\t')
    case _ => None
  }

  datatype Option<T> = None | Some(get: T)

  /** The contents of a string literal whose opening quote has been read, up to
      and without its closing quote. As with json.loads in strict mode, control
      characters must be escaped. */
  function StringBody(s: string): (p: Parse<string>)
    ensures p.Ok? ==> |p.rest| < |s|
  {
    if s == [] then Fail
    else if s[0] == '"' then Ok("", s[1..])
    else if s[0] < ' ' then Fail
    else if s[0] == '\\' then
      if |s| < 2 || Unescape(s[1]).None? then Fail
      else match StringBody(s[2..])
        case Ok(t, r) => Ok([Unescape(s[1]).get] + t, r)
        case Fail => Fail
    else match StringBody(s[1..])
      case Ok(t, r) => Ok([s[0]] + t, r)
      case Fail => Fail
  }

  /** A value starting at the first character of `s`. */
  function ParseValue(s: string): (p: Parse<Value>)
    ensures p.Ok? ==> |p.rest| < |s|
    decreases |s|, 3
  {
    if s == [] then Fail
    else if s[0] == '"' then
      match StringBody(s[1..])
      case Ok(t, r) => Ok(Str(t), r)
      case Fail => Fail
    else if s[0] == '{' then
      match ParseObjectBody(s[1..])
      case Ok(m, r) => Ok(Obj(m), r)
      case Fail => Fail
    else Fail
  }

  /** An object whose opening brace has been read. */
  function ParseObjectBody(s: string): (p: Parse<map<string, Value>>)
    ensures p.Ok? ==> |p.rest| < |s|
    decreases |s|, 2
  {
    var t := SkipWs(s);
    if t != [] && t[0] == '}' then Ok(map[], t[1..])
    else ParseMembers(t, map[])
  }

  /** The members of an object from the next key on; `acc` holds the members read
      so far, and a repeated key overwrites the earlier value, as in a Python dict. */
  function ParseMembers(s: string, acc: map<string, Value>): (p: Parse<map<string, Value>>)
    ensures p.Ok? ==> |p.rest| < |s|
    decreases |s|, 1
  {
    if s == [] || s[0] != '"' then Fail
    else match StringBody(s[1..])
      case Fail => Fail
      case Ok(key, r1) =>
        var r2 := SkipWs(r1);
        if r2 == [] || r2[0] != ':' then Fail
        else match ParseValue(SkipWs(r2[1..]))
          case Fail => Fail
          case Ok(v, r3) => AfterMember(acc[key := v], SkipWs(r3))
  }

  /** What follows a member: a comma and further members, or the closing brace. */
  function AfterMember(acc: map<string, Value>, s: string): (p: Parse<map<string, Value>>)
    ensures p.Ok? ==> |p.rest| < |s|
    decreases |s|, 0
  {
    if s != [] && s[0] == ',' then ParseMembers(SkipWs(s[1..]), acc)
    else if s != [] && s[0] == '}' then Ok(acc, s[1..])
    else Fail
  }

  /** json.loads: one value, surrounded by optional whitespace and nothing else. */
  function Decode(s: string): (r: Option<Value>)
  {
    match ParseValue(SkipWs(s))
    case Ok(v, rest) => if SkipWs(rest) == [] then Some(v) else None
    case Fail => None
  }

  // ---------------------------------------------------------------------
  // Writing values back: the partner of the decoder
  // ---------------------------------------------------------------------

  /** A JSON text as written member by member, in order and with repeated keys allowed. */
  datatype Tree = Leaf(s: string) | Node(members: seq<(string, Tree)>)

  /** A string that can be written between quotes without escapes. */
  predicate Plain(t: string) {
    forall k :: 0 <= k < |t| ==> t[k] != '"' && t[k] != '\\' && t[k] >= ' '
  }

  predicate PlainTree(t: Tree) {
    match t
    case Leaf(s) => Plain(s)
    case Node(ms) => forall i :: 0 <= i < |ms| ==> Plain(ms[i].0) && PlainTree(ms[i].1)
  }

  function Quote(t: string): string {
    "\"" + t + "\""
  }

  /** The text of a tree, members separated by ", " and keys from values by ": ". */
  function Encode(t: Tree): string
    decreases t, 1
  {
    match t
    case Leaf(s) => Quote(s)
    case Node(ms) => "{" + MembersText(t, ms) + "}"
  }

  function MembersText(parent: Tree, ms: seq<(string, Tree)>): string
    requires forall i :: 0 <= i < |ms| ==> ms[i].1 < parent
    decreases parent, 0, |ms|
  {
    if ms == [] then ""
    else
      var m := Quote(ms[0].0) + ": " + Encode(ms[0].1);
      if |ms| == 1 then m else m + ", " + MembersText(parent, ms[1..])
  }

  /** The value a tree stands for: members are entered in order, so the last of
      several equal keys wins. */
  function Meaning(t: Tree): Value
    decreases t, 1
  {
    match t
    case Leaf(s) => Str(s)
    case Node(ms) => Obj(Enter(t, map[], ms))
  }

  function Enter(parent: Tree, acc: map<string, Value>, ms: seq<(string, Tree)>): map<string, Value>
    requires forall i :: 0 <= i < |ms| ==> ms[i].1 < parent
    decreases parent, 0, |ms|
  {
    if ms == [] then acc
    else Enter(parent, acc[ms[0].0 := Meaning(ms[0].1)], ms[1..])
  }

  /** The position of the last member with key `k`, or -1 when there is none. */
  function LastWith(ms: seq<(string, Tree)>, k: string): (r: int)
    ensures -1 <= r < |ms|
    ensures r == -1 <==> forall i :: 0 <= i < |ms| ==> ms[i].0 != k
    ensures r >= 0 ==> ms[r].0 == k && forall i :: r < i < |ms| ==> ms[i].0 != k
  {
    if ms == [] then -1
    else
      var j := LastWith(ms[1..], k);
      if j >= 0 then j + 1 else if ms[0].0 == k then 0 else -1
  }

  /** Looking a key up in the entered members: the last member with that key
      decides, and a key no member has keeps its earlier value. */
  lemma {:induction false} EnterLookup(parent: Tree, acc: map<string, Value>, ms: seq<(string, Tree)>, k: string)
    requires forall i :: 0 <= i < |ms| ==> ms[i].1 < parent
    ensures k in Enter(parent, acc, ms) <==> k in acc || LastWith(ms, k) >= 0
    ensures LastWith(ms, k) >= 0 ==> Enter(parent, acc, ms)[k] == Meaning(ms[LastWith(ms, k)].1)
    ensures LastWith(ms, k) < 0 && k in acc ==> Enter(parent, acc, ms)[k] == acc[k]
    decreases |ms|
  {
    if ms != [] {
      EnterLookup(parent, acc[ms[0].0 := Meaning(ms[0].1)], ms[1..], k);
    }
  }

  /** The keys of entered members are the keys some member has. */
  lemma EnterKeys(parent: Tree, ms: seq<(string, Tree)>, k: string)
    requires forall i :: 0 <= i < |ms| ==> ms[i].1 < parent
    ensures k in Enter(parent, map[], ms) <==> exists i :: 0 <= i < |ms| && ms[i].0 == k
  {
    EnterLookup(parent, map[], ms, k);
    if LastWith(ms, k) >= 0 {
      assert ms[LastWith(ms, k)].0 == k;
    }
  }

  /** A member that no later member shares its key with gives the value of that key. */
  lemma EnterLast(parent: Tree, ms: seq<(string, Tree)>, j: nat)
    requires forall i :: 0 <= i < |ms| ==> ms[i].1 < parent
    requires j < |ms| && forall i :: j < i < |ms| ==> ms[i].0 != ms[j].0
    ensures ms[j].0 in Enter(parent, map[], ms)
    ensures Enter(parent, map[], ms)[ms[j].0] == Meaning(ms[j].1)
  {
    var k := ms[j].0;
    EnterLookup(parent, map[], ms, k);
    var r := LastWith(ms, k);
    assert r >= j;
    assert r == j;
  }

  lemma SkipWsStop(s: string)
    requires s == [] || s[0] !in JsonWs
    ensures SkipWs(s) == s
  {
  }

  lemma EncodeHead(t: Tree)
    ensures Encode(t) != [] && (Encode(t)[0] == '"' || Encode(t)[0] == '{')
  {
  }

  lemma {:induction false} StringBodyPlain(t: string, rest: string)
    requires Plain(t)
    ensures StringBody(t + "\"" + rest) == Ok(t, rest)
    decreases |t|
  {
    if t == [] {
      assert t + "\"" + rest == "\"" + rest;
    } else {
      assert (t + "\"" + rest)[1..] == t[1..] + "\"" + rest;
      StringBodyPlain(t[1..], rest);
      assert [t[0]] + t[1..] == t;
    }
  }

  lemma ValueObject(body: string, m: map<string, Value>, r: string)
    requires ParseObjectBody(body) == Ok(m, r)
    ensures ParseValue("{" + body) == Ok(Obj(m), r)
  {
    assert ("{" + body)[1..] == body;
  }

  lemma ObjectEmpty(rest: string)
    ensures ParseObjectBody("}" + rest) == Ok(map[], rest)
  {
    SkipWsStop("}" + rest);
    assert ("}" + rest)[1..] == rest;
  }

  lemma ObjectMembers(body: string)
    requires body != [] && body[0] == '"'
    ensures ParseObjectBody(body) == ParseMembers(body, map[])
  {
    SkipWsStop(body);
  }

  lemma AfterClose(acc: map<string, Value>, rest: string)
    ensures AfterMember(acc, SkipWs("}" + rest)) == Ok(acc, rest)
  {
    SkipWsStop("}" + rest);
    assert ("}" + rest)[1..] == rest;
  }

  lemma AfterComma(acc: map<string, Value>, m: string, rest: string)
    requires m != [] && m[0] == '"'
    ensures AfterMember(acc, SkipWs(", " + m + rest)) == ParseMembers(m + rest, acc)
  {
    SkipWsStop(", " + m + rest);
    assert (", " + m + rest)[1..] == " " + m + rest;
    assert (" " + m + rest)[1..] == m + rest;
    SkipWsStop(m + rest);
  }

  lemma ValueString(s: string, rest: string)
    requires Plain(s)
    ensures ParseValue(Quote(s) + rest) == Ok(Str(s), rest)
  {
    assert (Quote(s) + rest)[1..] == s + "\"" + rest;
    StringBodyPlain(s, rest);
  }

  /** One member `"k": e` whose value text `e` reads as `v`. */
  lemma MemberStep(k: string, e: string, v: Value, tail: string, acc: map<string, Value>)
    requires Plain(k)
    requires e != [] && (e[0] == '"' || e[0] == '{')
    requires ParseValue(e + tail) == Ok(v, tail)
    ensures ParseMembers(Quote(k) + ": " + e + tail, acc) == AfterMember(acc[k := v], SkipWs(tail))
  {
    KeyThen(k, e, tail);
    MembersUnfold(Quote(k) + ": " + e + tail, acc, k, ": " + e + tail, e + tail, v, tail);
  }

  /** ParseMembers once unfolded, on a member whose key, colon and value are read. */
  lemma MembersUnfold(s: string, acc: map<string, Value>, k: string, r2: string, e: string, v: Value, tail: string)
    requires s != [] && s[0] == '"' && StringBody(s[1..]) == Ok(k, r2)
    requires SkipWs(r2) == r2 && r2 != [] && r2[0] == ':'
    requires SkipWs(r2[1..]) == e && ParseValue(e) == Ok(v, tail)
    ensures ParseMembers(s, acc) == AfterMember(acc[k := v], SkipWs(tail))
  {
  }

  /** A key followed by a comma or a closing brace instead of a colon. */
  lemma KeyFail(w: string, r: string, acc: map<string, Value>)
    requires Plain(w) && r != [] && (r[0] == ',' || r[0] == '}')
    ensures ParseMembers(Quote(w) + r, acc) == Fail
  {
    assert (Quote(w) + r)[1..] == w + "\"" + r;
    StringBodyPlain(w, r);
    SkipWsStop(r);
  }

  /** The key and the colon of a member `"k": e` are read, and the value starts at `e`. */
  lemma KeyThen(k: string, e: string, tail: string)
    requires Plain(k) && e != [] && e[0] !in JsonWs
    ensures Quote(k) + ": " + e + tail != [] && (Quote(k) + ": " + e + tail)[0] == '"'
    ensures StringBody((Quote(k) + ": " + e + tail)[1..]) == Ok(k, ": " + e + tail)
    ensures SkipWs(": " + e + tail) == ": " + e + tail
    ensures SkipWs((": " + e + tail)[1..]) == e + tail
  {
    var r2 := ": " + e + tail;
    assert (Quote(k) + ": " + e + tail)[1..] == k + "\"" + r2;
    StringBodyPlain(k, r2);
    SkipWsStop(r2);
    assert r2[1..] == " " + e + tail;
    assert (" " + e + tail)[1..] == e + tail;
    SkipWsStop(e + tail);
  }

  /** A member whose value cannot be read. */
  lemma MemberFail(k: string, e: string, tail: string, acc: map<string, Value>)
    requires Plain(k)
    requires e != [] && (e[0] == '"' || e[0] == '{')
    requires ParseValue(e + tail) == Fail
    ensures ParseMembers(Quote(k) + ": " + e + tail, acc) == Fail
  {
    KeyThen(k, e, tail);
  }

  /** An object whose members cannot be read is no JSON text. */
  lemma ObjectFail(body: string)
    requires body != [] && body[0] == '"' && ParseMembers(body, map[]) == Fail
    ensures Decode("{" + body) == None
  {
    SkipWsStop("{" + body);
    ObjectMembers(body);
    assert ("{" + body)[1..] == body;
  }

  /** Reading the text of a tree gives back the value it stands for. */
  lemma {:induction false} ParseEncode(t: Tree, rest: string)
    requires PlainTree(t)
    ensures ParseValue(Encode(t) + rest) == Ok(Meaning(t), rest)
    decreases t, 1
  {
    match t
    case Leaf(s) =>
      ValueString(s, rest);
    case Node(ms) =>
      if ms != [] {
        ParseMembersText(t, ms, map[], "}" + rest);
      }
      NodeParse(t, rest);
  }

  /** An object is read from its brace, its members and its closing brace. */
  lemma NodeParse(t: Tree, rest: string)
    requires t.Node?
    requires var ms := t.members;
      ms != [] ==>
      var m := MembersText(t, ms);
      m != [] && m[0] == '"' &&
      ParseMembers(m + ("}" + rest), map[]) == AfterMember(Enter(t, map[], ms), SkipWs("}" + rest))
    ensures ParseValue(Encode(t) + rest) == Ok(Meaning(t), rest)
  {
    var ms := t.members;
    var m := MembersText(t, ms);
    assert Encode(t) + rest == "{" + m + "}" + rest;
    assert Meaning(t) == Obj(Enter(t, map[], ms));
    if ms == [] {
      ObjectText("", rest, map[]);
    } else {
      ObjectText(m, rest, Enter(t, map[], ms));
    }
  }

  /** An object text: the members `m`, read into `acc`, between braces. */
  lemma ObjectText(m: string, rest: string, acc: map<string, Value>)
    requires m == [] ==> acc == map[]
    requires m != [] ==> m[0] == '"' && ParseMembers(m + ("}" + rest), map[]) == AfterMember(acc, SkipWs("}" + rest))
    ensures ParseValue("{" + m + "}" + rest) == Ok(Obj(acc), rest)
  {
    Braces(m, rest);
    if m == [] {
      ObjectEmpty(rest);
      ValueObject("}" + rest, map[], rest);
    } else {
      ObjectMembers(m + ("}" + rest));
      AfterClose(acc, rest);
      ValueObject(m + ("}" + rest), acc, rest);
    }
  }

  lemma Braces(m: string, rest: string)
    ensures "{" + m + "}" + rest == "{" + (m + ("}" + rest))
    ensures m == [] ==> m + ("}" + rest) == "}" + rest
  {
  }

  /** Reading a run of members: parsing resumes after them with all of them entered. */
  lemma {:induction false} ParseMembersText(parent: Tree, ms: seq<(string, Tree)>, acc: map<string, Value>, rest: string)
    requires ms != []
    requires forall i :: 0 <= i < |ms| ==> ms[i].1 < parent
    requires forall i :: 0 <= i < |ms| ==> Plain(ms[i].0) && PlainTree(ms[i].1)
    ensures MembersText(parent, ms) != [] && MembersText(parent, ms)[0] == '"'
    ensures ParseMembers(MembersText(parent, ms) + rest, acc) == AfterMember(Enter(parent, acc, ms), SkipWs(rest))
    decreases parent, 0, |ms|
  {
    var n := ms[0].1;
    var acc' := acc[ms[0].0 := Meaning(n)];
    if |ms| > 1 {
      MembersTail(parent, ms);
      ParseMembersText(parent, ms[1..], acc', rest);
    }
    var tail := if |ms| == 1 then rest else ", " + MembersText(parent, ms[1..]) + rest;
    ParseEncode(n, tail);
    MembersCons(parent, ms, acc, rest, tail);
  }

  /** One member of ParseMembersText: its value is read from its text, and the
      members after it are read as the claim for the rest says. */
  lemma MembersCons(parent: Tree, ms: seq<(string, Tree)>, acc: map<string, Value>, rest: string, tail: string)
    requires ms != [] && Plain(ms[0].0)
    requires forall i :: 0 <= i < |ms| ==> ms[i].1 < parent
    requires tail == if |ms| == 1 then rest else ", " + MembersText(parent, ms[1..]) + rest
    requires ParseValue(Encode(ms[0].1) + tail) == Ok(Meaning(ms[0].1), tail)
    requires |ms| > 1 ==>
      var m' := MembersText(parent, ms[1..]);
      var acc' := acc[ms[0].0 := Meaning(ms[0].1)];
      m' != [] && m'[0] == '"' &&
      ParseMembers(m' + rest, acc') == AfterMember(Enter(parent, acc', ms[1..]), SkipWs(rest))
    ensures MembersText(parent, ms) != [] && MembersText(parent, ms)[0] == '"'
    ensures ParseMembers(MembersText(parent, ms) + rest, acc) == AfterMember(Enter(parent, acc, ms), SkipWs(rest))
  {
    var k, n := ms[0].0, ms[0].1;
    var acc' := acc[k := Meaning(n)];
    MembersHead(parent, ms, rest);
    EncodeHead(n);
    MemberStep(k, Encode(n), Meaning(n), tail, acc);
    assert Enter(parent, acc, ms) == Enter(parent, acc', ms[1..]);
    if |ms| > 1 {
      AfterComma(acc', MembersText(parent, ms[1..]), rest);
    }
  }

  lemma MembersTail(parent: Tree, ms: seq<(string, Tree)>)
    requires |ms| > 1
    requires forall i :: 0 <= i < |ms| ==> ms[i].1 < parent
    requires forall i :: 0 <= i < |ms| ==> Plain(ms[i].0) && PlainTree(ms[i].1)
    ensures forall i :: 0 <= i < |ms[1..]| ==> ms[1..][i].1 < parent
    ensures forall i :: 0 <= i < |ms[1..]| ==> Plain(ms[1..][i].0) && PlainTree(ms[1..][i].1)
  {
    forall i | 0 <= i < |ms[1..]|
      ensures ms[1..][i] == ms[i + 1]
    {
    }
  }

  lemma MembersHead(parent: Tree, ms: seq<(string, Tree)>, rest: string)
    requires ms != []
    requires forall i :: 0 <= i < |ms| ==> ms[i].1 < parent
    ensures MembersText(parent, ms) != [] && MembersText(parent, ms)[0] == '"'
    ensures MembersText(parent, ms) + rest == Quote(ms[0].0) + ": " + Encode(ms[0].1) +
      (if |ms| == 1 then rest else ", " + MembersText(parent, ms[1..]) + rest)
  {
    var m := Quote(ms[0].0) + ": " + Encode(ms[0].1);
    assert m[0] == '"';
    if |ms| > 1 {
      var r := MembersText(parent, ms[1..]);
      assert MembersText(parent, ms) == m + ", " + r;
      assert m + ", " + r + rest == m + (", " + r + rest);
    }
  }

  /** The decoder inverts the encoder on trees whose strings need no escapes. */
  lemma DecodeEncode(t: Tree)
    requires PlainTree(t)
    ensures Decode(Encode(t)) == Some(Meaning(t))
  {
    EncodeHead(t);
    SkipWsStop(Encode(t));
    SkipWsStop("");
    assert Encode(t) + "" == Encode(t);
    ParseEncode(t, "");
  }
}
