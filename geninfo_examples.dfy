/** A shortened form of the parse_gen_info docstring example,
    scripts/gallery_utils.py:107: plain pairs, a quoted list and a last pair. */
module GenInfoExamples {
  import opened Text
  import opened Json
  import opened GenInfo
  import opened GenInfoText
  import opened GenInfoFields

  /** The characters the literals below are written with. */
  predicate PlainChar(c: char) {
    'a' <= c <= 'z' || 'A' <= c <= 'Z' || '0' <= c <= '9' || c == '_' || c == '.' || c == '+' || c == ' '
  }

  lemma PlainCharSafe(c: char)
    requires PlainChar(c)
    ensures c !in Banned && c >= ' '
  {
  }

  lemma AlnumNotSpace(c: char)
    requires 'a' <= c <= 'z' || 'A' <= c <= 'Z' || '0' <= c <= '9'
    ensures c !in Whitespace
  {
  }

  /** A literal key or value is an atom without the marker once it is seen to
      lack one letter of "Hashes". */
  lemma LiteralAtom(a: string, j: nat)
    requires j < |Marker| && Marker[j] !in a
    requires a != [] && var z := a[|a| - 1]; 'a' <= z <= 'z' || 'A' <= z <= 'Z' || '0' <= z <= '9'
    requires forall k :: 0 <= k < |a| ==> PlainChar(a[k])
    ensures Atom(a) && !Contains(a, Marker)
  {
    forall k | 0 <= k < |a|
      ensures a[k] !in Banned && a[k] >= ' '
    {
      PlainCharSafe(a[k]);
    }
    AlnumNotSpace(a[|a| - 1]);
    AbsentChar(a, Marker, j);
  }

  const Lora: seq<(string, string)> := [("concept_sunbathing", "7b93421e39bd")]

  const Sample: seq<Field> :=
    [Pair("Steps", "40"), Pair("Sampler", "DPM++ 2M Karras"), Group("Lora hashes", Lora), Pair("Version", "1.6.0")]

  /** The sample as text, written in pieces: "Steps: 40, Sampler: DPM++ 2M Karras,
      Lora hashes: "concept_sunbathing: 7b93421e39bd", Version: 1.6.0". */
  const SampleText: string :=
    "Steps: 40" + ", " + "Sampler: DPM++ 2M Karras" + ", "
    + ("Lora hashes: \"" + "concept_sunbathing: 7b93421e39bd" + "\"") + ", " + "Version: 1.6.0"

  lemma StepsGood() ensures GoodField(Pair("Steps", "40")) && FieldUnmarked(Pair("Steps", "40")) {
    LiteralAtom("Steps", 0); LiteralAtom("40", 0);
  }

  lemma SamplerGood() ensures GoodField(Pair("Sampler", "DPM++ 2M Karras")) && FieldUnmarked(Pair("Sampler", "DPM++ 2M Karras")) {
    LiteralAtom("Sampler", 0); LiteralAtom("DPM++ 2M Karras", 0);
  }

  /** The key of the sample's one Lora item is an atom without the marker. */
  lemma ConceptAtom() ensures Atom("concept_sunbathing") && !Contains("concept_sunbathing", Marker) {
    LiteralAtom("concept_sunbathing", 0);
  }

  lemma LoraItemsGood() ensures GoodItems(Lora) && ItemsUnmarked(Lora) {
    ConceptAtom(); LiteralAtom("7b93421e39bd", 0);
  }

  lemma LoraGood() ensures GoodField(Group("Lora hashes", Lora)) && FieldUnmarked(Group("Lora hashes", Lora)) {
    LiteralAtom("Lora hashes", 0); LoraItemsGood();
  }

  lemma VersionGood() ensures GoodField(Pair("Version", "1.6.0")) && FieldUnmarked(Pair("Version", "1.6.0")) {
    LiteralAtom("Version", 0); LiteralAtom("1.6.0", 0);
  }

  lemma SampleGood()
    ensures GoodFields(Sample) && Unmarked(Sample)
  {
    forall i | 0 <= i < |Sample|
      ensures GoodField(Sample[i]) && FieldUnmarked(Sample[i])
    {
      if i == 0 { StepsGood(); }
      else if i == 1 { SamplerGood(); }
      else if i == 2 { LoraGood(); }
      else { VersionGood(); }
    }
  }

  lemma RenderCons(f: Field, rest: seq<Field>)
    requires rest != []
    ensures Render([f] + rest) == FieldText(f, Raw) + ", " + Render(rest)
  {
    assert ([f] + rest)[1..] == rest;
  }

  lemma RenderFour(f0: Field, f1: Field, f2: Field, f3: Field)
    ensures Render([f0, f1, f2, f3]) ==
      FieldText(f0, Raw) + ", " + FieldText(f1, Raw) + ", " + FieldText(f2, Raw) + ", " + FieldText(f3, Raw)
  {
    var t0, t1, t2, t3 := FieldText(f0, Raw), FieldText(f1, Raw), FieldText(f2, Raw), FieldText(f3, Raw);
    RenderCons(f2, [f3]);
    assert [f2] + [f3] == [f2, f3];
    RenderCons(f1, [f2, f3]);
    assert [f1] + [f2, f3] == [f1, f2, f3];
    RenderCons(f0, [f1, f2, f3]);
    assert [f0] + [f1, f2, f3] == [f0, f1, f2, f3];
    assert Render([f3]) == t3;
    SepAssoc(t0, t1, t2, t3, ", ");
  }

  lemma SepAssoc(a: string, b: string, c: string, d: string, sep: string)
    ensures a + sep + (b + sep + (c + sep + d)) == a + sep + b + sep + c + sep + d
  {
  }

  lemma GroupOneRaw(k: string, a: string, b: string)
    ensures FieldText(Group(k, [(a, b)]), Raw) == k + ": \"" + (a + ": " + b) + "\""
  {
  }

  lemma SampleRender()
    ensures Render(Sample) == SampleText
  {
    RenderFour(Sample[0], Sample[1], Sample[2], Sample[3]);
    StepsText();
    SamplerText();
    LoraText();
    VersionText();
  }

  lemma StepsText() ensures FieldText(Pair("Steps", "40"), Raw) == "Steps: 40" {
    assert "Steps" + ": " + "40" == "Steps: 40";
  }

  lemma SamplerText() ensures FieldText(Pair("Sampler", "DPM++ 2M Karras"), Raw) == "Sampler: DPM++ 2M Karras" {
    assert "Sampler" + ": " + "DPM++ 2M Karras" == "Sampler: DPM++ 2M Karras";
  }

  lemma LoraText()
    ensures FieldText(Group("Lora hashes", Lora), Raw) == "Lora hashes: \"" + "concept_sunbathing: 7b93421e39bd" + "\""
  {
    GroupOneRaw("Lora hashes", "concept_sunbathing", "7b93421e39bd");
    assert "Lora hashes" + ": \"" == "Lora hashes: \"";
    assert "concept_sunbathing" + ": " + "7b93421e39bd" == "concept_sunbathing: 7b93421e39bd";
  }

  lemma VersionText() ensures FieldText(Pair("Version", "1.6.0"), Raw) == "Version: 1.6.0" {
    assert "Version" + ": " + "1.6.0" == "Version: 1.6.0";
  }

  /** The tree the sample is read as, member by member. */
  lemma SampleTrees()
    ensures FieldTrees(Sample) == [("Steps", Leaf("40")), ("Sampler", Leaf("DPM++ 2M Karras")),
      ("Lora hashes", Node([("concept_sunbathing", Leaf("7b93421e39bd"))])), ("Version", Leaf("1.6.0"))]
  {
    assert ItemTrees(Lora) == [("concept_sunbathing", Leaf("7b93421e39bd"))];
  }

  /** The sample decodes to an object of three strings and one nested object. */
  lemma SampleGenInfo()
    ensures GenInfo.GenInfo(SampleText) == Some(Obj(map[
      "Steps" := Str("40"), "Sampler" := Str("DPM++ 2M Karras"),
      "Lora hashes" := Obj(map["concept_sunbathing" := Str("7b93421e39bd")]),
      "Version" := Str("1.6.0")]))
  {
    SampleDecodes();
    SampleMeaning();
  }

  lemma SampleDecodes()
    ensures GenInfo.GenInfo(SampleText) == Some(Meaning(FieldsTree(Sample)))
  {
    SampleGood();
    SampleRender();
    GenInfoOfFields(Sample);
  }

  lemma SampleMeaning()
    ensures Meaning(FieldsTree(Sample)) == Obj(map[
      "Steps" := Str("40"), "Sampler" := Str("DPM++ 2M Karras"),
      "Lora hashes" := Obj(map["concept_sunbathing" := Str("7b93421e39bd")]),
      "Version" := Str("1.6.0")])
  {
    SampleTrees();
    var ms := FieldTrees(Sample);
    var t := FieldsTree(Sample);
    var lora := Node([("concept_sunbathing", Leaf("7b93421e39bd"))]);
    assert Meaning(lora) == Obj(map["concept_sunbathing" := Str("7b93421e39bd")]) by {
      assert Enter(lora, map[], lora.members) == Enter(lora, map["concept_sunbathing" := Str("7b93421e39bd")], []);
    }
    var m1 := map["Steps" := Str("40")];
    var m2 := m1["Sampler" := Str("DPM++ 2M Karras")];
    var m3 := m2["Lora hashes" := Meaning(lora)];
    var m4 := m3["Version" := Str("1.6.0")];
    assert ms[1..] == [ms[1], ms[2], ms[3]] && ms[2..] == [ms[2], ms[3]] && ms[3..] == [ms[3]];
    assert Enter(t, m3, ms[3..]) == m4 by {
      assert ms[3..][1..] == [];
    }
    assert Enter(t, m2, ms[2..]) == m4 by {
      assert ms[2..][1..] == ms[3..];
    }
    assert Enter(t, m1, ms[1..]) == m4 by {
      assert ms[1..][1..] == ms[2..];
    }
    assert Enter(t, map[], ms) == m4;
    assert Meaning(t) == Obj(m4);
  }
}
