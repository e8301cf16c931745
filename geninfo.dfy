/** parse_gen_info: the "Steps: ..." tail of an image's parameters text, rewritten
    into a JSON object and decoded. */
module GenInfo {
  import opened Text
  import opened Json

  /** Everything from the first occurrence of this marker on is dropped. */
  const Marker: string := "Hashes"

  /** The lookahead [^{]*} matches at `j`: a closing brace comes before any opening one. */
  predicate ClosesBraceFrom(s: string, j: nat)
    decreases |s| - j
  {
    j < |s| && (s[j] == '}' || (s[j] != '{' && ClosesBraceFrom(s, j + 1)))
  }

  /** The pattern (c\s)(?![^{]*}) matches at `i`: `c` and a whitespace character,
      not inside a pair of braces. */
  predicate QuotesAt(s: string, c: char, i: nat) {
    i + 1 < |s| && s[i] == c && s[i + 1] in Whitespace && !ClosesBraceFrom(s, i + 2)
  }

  /** re.sub(r"(c\s)(?![^{]*})", '"c "', s[i..]): each match becomes quote, `c`,
      space, quote, so the matched whitespace character becomes a space. */
  function QuoteFrom(s: string, c: char, i: nat): string
    requires i <= |s|
    decreases |s| - i
  {
    if i == |s| then ""
    else if QuotesAt(s, c, i) then ['"', c, ' ', '"'] + QuoteFrom(s, c, i + 2)
    else [s[i]] + QuoteFrom(s, c, i + 1)
  }

  /** The string after the rewrites of scripts/gallery_utils.py:120-134, before the
      outer quotes and braces are added. */
  function Rewritten(s: string): string {
    var s1 := s[..Find(s, Marker)];
    var s2 := StripEnd(s1, SepChars);
    var s3 := QuoteFrom(s2, ',', 0);
    var s4 := QuoteFrom(s3, ':', 0);
    var s5 := Replace(s4, "\"{", "{");
    var s6 := Replace(s5, ": \"\"", ": {\"");
    Replace(s6, "\"\",", "\"},")
  }

  /** The text handed to json.loads. */
  function Wrapped(s: string): string {
    var t := "\"" + Rewritten(s);
    var t' := if t[|t| - 1] != '}' then t + "\"" else t;
    "{" + t' + "}"
  }

  /** parse_gen_info as a function: None where json.loads raises. */
  function GenInfo(s: string): Option<Value> {
    Decode(Wrapped(s))
  }

  /** The rewrites applied to a local string one after the other, as the source does. */
  method ParseGenInfo(s: string) returns (d: Option<Value>)
    ensures d == GenInfo(s)
    ensures d.Some? ==> d.get.Obj?
  {
    var t := s[..Find(s, Marker)];
    t := StripEnd(t, SepChars);
    t := QuoteFrom(t, ',', 0);
    t := QuoteFrom(t, ':', 0);
    t := Replace(t, "\"{", "{");
    t := Replace(t, ": \"\"", ": {\"");
    t := Replace(t, "\"\",", "\"},");
    assert t == Rewritten(s);
    t := "\"" + t;
    if t[|t| - 1] != '}' {
      t := t + "\"";
    }
    t := "{" + t + "}";
    d := Decode(t);
    DecodeBrace(t);
  }

  /** A text that opens with a brace decodes to an object, if at all. */
  lemma DecodeBrace(t: string)
    requires t != [] && t[0] == '{'
    ensures Decode(t).Some? ==> Decode(t).get.Obj?
  {
    SkipWsStop(t);
  }

  /** Whatever parse_gen_info returns is an object. */
  lemma GenInfoObject(s: string)
    ensures GenInfo(s).Some? ==> GenInfo(s).get.Obj?
  {
    DecodeBrace(Wrapped(s));
  }

  /** The marker occurs at the cut, and nowhere before it. */
  lemma FindMarker(a: string, b: string)
    requires !Contains(a, Marker)
    ensures Find(a + Marker + b, Marker) == |a|
  {
    var s := a + Marker + b;
    assert s == a + (Marker + b);
    forall k | 0 <= k < |a|
      ensures !MatchesAt(s, k, Marker)
    {
      if k + |Marker| <= |a| {
        MatchesAtPrefix(a, Marker + b, Marker, k);
        NotContains(a, Marker, k);
      } else {
        MatchChar(s, k, Marker, |a| - k);
        assert s[|a|] == 'H';
      }
    }
    assert s[|a|..|a| + |Marker|] == Marker;
    FindFirstAt(s, Marker, 0, |a|);
  }

  /** Nothing at or after the first "Hashes" contributes to the result. */
  lemma MarkerCut(a: string, b: string)
    requires !Contains(a, Marker)
    ensures GenInfo(a + Marker + b) == GenInfo(a)
  {
    FindMarker(a, b);
    assert (a + Marker + b)[..|a|] == a;
    FindAbsent(a);
    assert a[..|a|] == a;
  }

  lemma FindAbsent(a: string)
    requires !Contains(a, Marker)
    ensures Find(a, Marker) == |a|
  {
  }
}
