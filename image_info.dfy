/** parse_image_info_from_path (scripts/gallery_utils.py:148-201): the record of one
    image, built from its path, the names of the two folders above it and the
    "parameters" text of its metadata when it has one. Reading the image file is
    left out: the metadata text comes in as a parameter. */
module ImageInfo {
  import opened Text
  import Json
  import GenInfo
  import Prompt

  const StepsMarker: string := "Steps: "
  const NegativeMarker: string := "Negative prompt: "

  /** One row of the gallery's table. */
  datatype Record = Record(
    pathFull: string, date: string, subFolder: string,
    model: string, steps: string, sampler: string,
    generationInfo: map<string, Json.Value>,
    prompt: seq<string>, negativePrompt: seq<string>,
    promptRaw: string, negativePromptRaw: string)

  /** Why the source raises instead of returning a record. */
  datatype Error =
    | StepsNotOnce(pieces: nat)  // the split on "Steps: " does not unpack into two names
    | Undecodable                // json.loads raises on the rewritten generation info
    | MissingKey(key: string)    // the decoded object lacks the key
    | NotText(key: string)       // the value under the key is an object, not text

  datatype Result<T> = Ok(value: T) | Err(error: Error)

  // ---------------------------------------------------------------------
  // Folder names
  // ---------------------------------------------------------------------

  /** The last index of `c` in `s`, or -1 when there is none. */
  function LastIndex(s: string, c: char): (i: int)
    ensures -1 <= i < |s|
    ensures 0 <= i ==> s[i] == c
    ensures forall k :: i < k < |s| ==> s[k] != c
  {
    if s == [] then -1
    else if s[|s| - 1] == c then |s| - 1
    else LastIndex(s[..|s| - 1], c)
  }

  /** PurePath.stem: the name without its last suffix. A dot that opens the name
      or ends it does not start a suffix. */
  function Stem(name: string): string {
    var i := LastIndex(name, '.');
    if 0 < i < |name| - 1 then name[..i] else name
  }

  /** The stem is the name, or the name cut just before its last dot, which is
      neither its first nor its last character. */
  lemma StemCut(name: string)
    ensures var r := Stem(name);
      r == name ||
      (0 < |r| < |name| - 1 && r == name[..|r|] && name[|r|] == '.' &&
       forall k :: |r| < k < |name| ==> name[k] != '.')
  {
  }

  /** A name without a dot is its own stem: date folders such as 2023-10-01 stay whole. */
  lemma StemNoDot(name: string)
    requires '.' !in name
    ensures Stem(name) == name
  {
    if 0 <= LastIndex(name, '.') {
      assert name[LastIndex(name, '.')] == '.';
    }
  }

  /** The record before the metadata is read: the parent folder is the date and the
      one above it the sub-folder, except under an "extras" folder, which has no
      date folder. */
  function Defaults(pathFull: string, parentName: string, grandName: string): Record {
    var parent := Stem(parentName);
    if Contains(parent, "extras") then
      Record(pathFull, "", parent, "", "", "", map[], [], [], "", "")
    else
      Record(pathFull, parent, Stem(grandName), "", "", "", map[], [], [], "", "")
  }

  // ---------------------------------------------------------------------
  // The record
  // ---------------------------------------------------------------------

  /** The text under a key of the generation info, which the source indexes directly. */
  function Entry(m: map<string, Json.Value>, k: string): Result<string> {
    if k !in m then Err(MissingKey(k))
    else if m[k].Obj? then Err(NotText(k))
    else Ok(m[k].s)
  }

  /** The prompt part of the parameters: the tags before "Negative prompt: " and
      those between it and its next occurrence, when it occurs. */
  function WithPrompt(d: Record, p: string): Record {
    if p == [] then d
    else if Contains(p, NegativeMarker) then
      SplitSecond(p, NegativeMarker);
      var ps := Split(p, NegativeMarker);
      d.(prompt := Prompt.Tokenize(ps[0]), promptRaw := ps[0],
         negativePrompt := Prompt.Tokenize(ps[1]), negativePromptRaw := ps[1])
    else
      d.(prompt := Prompt.Tokenize(p), promptRaw := p)
  }

  /** The three texts the record reads from the generation info, in the order the
      source reads them, and the generation info itself. */
  function WithEntries(d: Record, m: map<string, Json.Value>): Result<Record> {
    var model, steps, sampler := Entry(m, "Model"), Entry(m, "Steps"), Entry(m, "Sampler");
    if model.Err? then Err(model.error)
    else if steps.Err? then Err(steps.error)
    else if sampler.Err? then Err(sampler.error)
    else Ok(d.(model := model.value, steps := steps.value, sampler := sampler.value, generationInfo := m))
  }

  /** parse_gen_info's object, as its map of fields. */
  function Decoded(t: string): Json.Option<map<string, Json.Value>> {
    var g := GenInfo.GenInfo(t);
    GenInfo.GenInfoObject(t);
    if g.None? then Json.None else Json.Some(g.get.fields)
  }

  /** The record once the parameters are cut into the prompt text `p` and the
      decoded generation info `g`. */
  function Assemble(d: Record, p: string, g: Json.Option<map<string, Json.Value>>): Result<Record> {
    if g.None? then Err(Undecodable)
    else
      var e := WithEntries(d, g.get);
      if e.Err? then e else Ok(WithPrompt(e.value, p))
  }

  /** The record of an image whose parameters text is `s`. */
  function WithParameters(d: Record, s: string): Result<Record> {
    var parts := Split(s, StepsMarker);
    if |parts| != 2 then Err(StepsNotOnce(|parts|))
    else Assemble(d, parts[0], Decoded(StepsMarker + parts[1]))
  }

  /** parse_image_info_from_path; `parameters` is None when the metadata has no
      "parameters" key. */
  function ImageInfoOf(pathFull: string, parentName: string, grandName: string,
                       parameters: Json.Option<string>): Result<Record> {
    var d := Defaults(pathFull, parentName, grandName);
    if parameters.None? || parameters.get == "None" then Ok(d)
    else WithParameters(d, parameters.get)
  }

  /** The record filled in field by field, as the source fills its dictionary. */
  method ParseImageInfoFromPath(pathFull: string, parentName: string, grandName: string,
                                parameters: Json.Option<string>) returns (r: Result<Record>)
    ensures r == ImageInfoOf(pathFull, parentName, grandName, parameters)
  {
    var parent := Stem(parentName);
    var d := Record(pathFull, parent, Stem(grandName), "", "", "", map[], [], [], "", "");
    if Contains(parent, "extras") {
      d := d.(date := "", subFolder := parent);
    }
    if parameters.None? {
      return Ok(d);
    }
    var s := parameters.get;
    if s == "None" {
      return Ok(d);
    }
    var parts := Split(s, StepsMarker);
    if |parts| != 2 {
      return Err(StepsNotOnce(|parts|));
    }
    var promptInfo, genInfo := parts[0], parts[1];
    var g := GenInfo.ParseGenInfo(StepsMarker + genInfo);
    if g.None? {
      return Err(Undecodable);
    }
    var m := g.get.fields;
    var model := Entry(m, "Model");
    if model.Err? {
      return Err(model.error);
    }
    var steps := Entry(m, "Steps");
    if steps.Err? {
      return Err(steps.error);
    }
    var sampler := Entry(m, "Sampler");
    if sampler.Err? {
      return Err(sampler.error);
    }
    d := d.(model := model.value, steps := steps.value, sampler := sampler.value);
    d := d.(generationInfo := m);
    if promptInfo != [] {
      if Contains(promptInfo, NegativeMarker) {
        SplitSecond(promptInfo, NegativeMarker);
        var prompts := Split(promptInfo, NegativeMarker);
        var tags := Prompt.ParsePrompt(prompts[0]);
        d := d.(prompt := tags, promptRaw := prompts[0]);
        tags := Prompt.ParsePrompt(prompts[1]);
        d := d.(negativePrompt := tags, negativePromptRaw := prompts[1]);
      } else {
        var tags := Prompt.ParsePrompt(promptInfo);
        d := d.(prompt := tags, promptRaw := promptInfo);
      }
    }
    r := Ok(d);
  }

  // ---------------------------------------------------------------------
  // What the record says
  // ---------------------------------------------------------------------

  /** Two records that agree on the path and the folders. */
  predicate SameFolders(a: Record, b: Record) {
    a.pathFull == b.pathFull && a.date == b.date && a.subFolder == b.subFolder
  }

  /** The path is kept, and the folders are read from the path alone, whatever the
      metadata holds. */
  lemma Folders(pathFull: string, parentName: string, grandName: string, parameters: Json.Option<string>)
    ensures var r := ImageInfoOf(pathFull, parentName, grandName, parameters);
      var parent := Stem(parentName);
      r.Ok? ==>
        r.value.pathFull == pathFull &&
        (Contains(parent, "extras") ==> r.value.date == "" && r.value.subFolder == parent) &&
        (!Contains(parent, "extras") ==> r.value.date == parent && r.value.subFolder == Stem(grandName))
  {
    if parameters.Some? && parameters.get != "None" {
      ParametersKeep(Defaults(pathFull, parentName, grandName), parameters.get);
    }
  }

  /** Reading the parameters leaves the path and the folders alone. */
  lemma ParametersKeep(d: Record, s: string)
    ensures WithParameters(d, s).Ok? ==> SameFolders(WithParameters(d, s).value, d)
  {
    var parts := Split(s, StepsMarker);
    if |parts| == 2 {
      AssembleKeeps(d, parts[0], Decoded(StepsMarker + parts[1]));
    }
  }

  lemma AssembleKeeps(d: Record, p: string, g: Json.Option<map<string, Json.Value>>)
    ensures Assemble(d, p, g).Ok? ==> SameFolders(Assemble(d, p, g).value, d)
  {
    if g.Some? && WithEntries(d, g.get).Ok? {
      PromptKeeps(WithEntries(d, g.get).value, p);
    }
  }

  lemma PromptKeeps(d: Record, p: string)
    ensures SameFolders(WithPrompt(d, p), d)
  {
  }

  /** Without parameters, or with the text "None", the record holds the defaults. */
  lemma NoParameters(pathFull: string, parentName: string, grandName: string, parameters: Json.Option<string>)
    requires parameters.None? || parameters.get == "None"
    ensures var r := ImageInfoOf(pathFull, parentName, grandName, parameters);
      r.Ok? && r.value.model == "" && r.value.steps == "" && r.value.sampler == "" &&
      r.value.generationInfo == map[] && r.value.prompt == [] && r.value.negativePrompt == [] &&
      r.value.promptRaw == "" && r.value.negativePromptRaw == ""
  {
  }

  /** The parameters are read only when "Steps: " occurs in them exactly once. */
  lemma StepsOnce(pathFull: string, parentName: string, grandName: string, s: string)
    requires s != "None"
    ensures var r := ImageInfoOf(pathFull, parentName, grandName, Json.Some(s));
      (r.Err? && r.error.StepsNotOnce?) <==> !OccursOnce(s, StepsMarker)
  {
    SplitTwo(s, StepsMarker);
  }

  /** With "Steps: " once, the text before it is the prompt text and the text from
      it on is the generation info. */
  lemma ParametersCut(d: Record, s: string)
    requires OccursOnce(s, StepsMarker)
    ensures var i := Find(s, StepsMarker);
      WithParameters(d, s) == Assemble(d, s[..i], Decoded(s[i..]))
  {
    var i := Find(s, StepsMarker);
    SplitOnce(s, StepsMarker);
    SplitFirst(s, StepsMarker);
    var parts := Split(s, StepsMarker);
    assert s[i..] == StepsMarker + parts[1] by {
      assert s == s[..i] + (StepsMarker + parts[1]);
    }
  }

  /** The decoded fields are those of parse_gen_info's object. */
  lemma DecodedFields(t: string)
    ensures Decoded(t).None? <==> GenInfo.GenInfo(t).None?
    ensures Decoded(t).Some? ==> GenInfo.GenInfo(t) == Json.Some(Json.Obj(Decoded(t).get))
  {
    GenInfo.GenInfoObject(t);
  }

  /** The record fails at the first of Model, Steps and Sampler that is missing or
      not text, and otherwise holds their texts and the whole generation info. */
  predicate EntriesRead(r: Result<Record>, m: map<string, Json.Value>) {
    && (Entry(m, "Model").Err? ==> r == Err(Entry(m, "Model").error))
    && (Entry(m, "Model").Ok? && Entry(m, "Steps").Err? ==> r == Err(Entry(m, "Steps").error))
    && (Entry(m, "Model").Ok? && Entry(m, "Steps").Ok? && Entry(m, "Sampler").Err? ==>
          r == Err(Entry(m, "Sampler").error))
    && (r.Ok? <==> Entry(m, "Model").Ok? && Entry(m, "Steps").Ok? && Entry(m, "Sampler").Ok?)
    && (r.Ok? ==> (r.value.generationInfo == m && Entry(m, "Model") == Ok(r.value.model) &&
          Entry(m, "Steps") == Ok(r.value.steps) && Entry(m, "Sampler") == Ok(r.value.sampler)))
  }

  lemma AssembleEntries(d: Record, p: string, m: map<string, Json.Value>)
    ensures EntriesRead(Assemble(d, p, Json.Some(m)), m)
  {
  }

  /** With "Steps: " once, the generation info is what parse_gen_info makes of the
      text from "Steps: " on, and the record reads its three entries from it. */
  lemma GenerationInfo(pathFull: string, parentName: string, grandName: string, s: string)
    requires s != "None" && OccursOnce(s, StepsMarker)
    ensures var r := ImageInfoOf(pathFull, parentName, grandName, Json.Some(s));
      var g := GenInfo.GenInfo(s[Find(s, StepsMarker)..]);
      (g.None? ==> r == Err(Undecodable)) &&
      (g.Some? ==> g.get.Obj? && EntriesRead(r, g.get.fields))
  {
    var d := Defaults(pathFull, parentName, grandName);
    var i := Find(s, StepsMarker);
    ParametersCut(d, s);
    DecodedFields(s[i..]);
    if Decoded(s[i..]).Some? {
      AssembleEntries(d, s[..i], Decoded(s[i..]).get);
    }
  }

  /** A missing key fails the record with that key. */
  lemma MissingModel(pathFull: string, parentName: string, grandName: string, s: string,
                     m: map<string, Json.Value>)
    requires s != "None" && OccursOnce(s, StepsMarker)
    requires GenInfo.GenInfo(s[Find(s, StepsMarker)..]) == Json.Some(Json.Obj(m))
    requires "Model" !in m
    ensures ImageInfoOf(pathFull, parentName, grandName, Json.Some(s)) == Err(MissingKey("Model"))
  {
    GenerationInfo(pathFull, parentName, grandName, s);
  }

  /** The raw prompt texts come from the prompt text `p`: all of it, or, when it
      holds "Negative prompt: ", the text before its first occurrence and the text
      between its first and second occurrences (or the end); the tags are the
      tokenized raw texts. */
  predicate PromptRead(d: Record, p: string) {
    && (p == [] ==> d.prompt == [] && d.promptRaw == "" && d.negativePrompt == [] && d.negativePromptRaw == "")
    && (p != [] && !Contains(p, NegativeMarker) ==>
          d.promptRaw == p && d.prompt == Prompt.Tokenize(p) && d.negativePrompt == [] && d.negativePromptRaw == "")
    && (p != [] && Contains(p, NegativeMarker) ==>
          && d.promptRaw == p[..Find(p, NegativeMarker)] && d.prompt == Prompt.Tokenize(d.promptRaw)
          && d.negativePrompt == Prompt.Tokenize(d.negativePromptRaw)
          && (var n := Find(p, NegativeMarker) + |NegativeMarker|;
              n <= |p| && d.negativePromptRaw == p[n..FindFrom(p, NegativeMarker, n)])
          && !Contains(d.negativePromptRaw, NegativeMarker)
          && d.promptRaw + NegativeMarker + d.negativePromptRaw <= p
          && (OccursOnce(p, NegativeMarker) ==> d.promptRaw + NegativeMarker + d.negativePromptRaw == p))
  }

  /** The prompt fields are read from the text before "Steps: ". */
  lemma PromptFields(pathFull: string, parentName: string, grandName: string, s: string)
    requires s != "None"
    ensures var r := ImageInfoOf(pathFull, parentName, grandName, Json.Some(s));
      r.Ok? ==> PromptRead(r.value, s[..Find(s, StepsMarker)])
  {
    var d := Defaults(pathFull, parentName, grandName);
    var i := Find(s, StepsMarker);
    SplitTwo(s, StepsMarker);
    if OccursOnce(s, StepsMarker) {
      ParametersCut(d, s);
      AssemblePrompt(d, s[..i], Decoded(s[i..]));
    }
  }

  lemma AssemblePrompt(d: Record, p: string, g: Json.Option<map<string, Json.Value>>)
    requires d.prompt == [] && d.promptRaw == "" && d.negativePrompt == [] && d.negativePromptRaw == ""
    ensures Assemble(d, p, g).Ok? ==> PromptRead(Assemble(d, p, g).value, p)
  {
    if g.Some? && WithEntries(d, g.get).Ok? {
      PromptRecord(WithEntries(d, g.get).value, p);
    }
  }

  lemma PromptRecord(d: Record, p: string)
    requires d.prompt == [] && d.promptRaw == "" && d.negativePrompt == [] && d.negativePromptRaw == ""
    ensures PromptRead(WithPrompt(d, p), p)
  {
    if p != [] && Contains(p, NegativeMarker) {
      NegativeParts(p);
    }
  }

  /** The two raw texts of a prompt that holds "Negative prompt: ". */
  lemma NegativeParts(p: string)
    requires Contains(p, NegativeMarker)
    ensures var ps := Split(p, NegativeMarker);
      var n := Find(p, NegativeMarker) + |NegativeMarker|;
      |ps| >= 2 && ps[0] == p[..Find(p, NegativeMarker)] &&
      n <= |p| && ps[1] == p[n..FindFrom(p, NegativeMarker, n)] && !Contains(ps[1], NegativeMarker) &&
      ps[0] + NegativeMarker + ps[1] <= p &&
      (OccursOnce(p, NegativeMarker) ==> ps[0] + NegativeMarker + ps[1] == p)
  {
    var ps := Split(p, NegativeMarker);
    var j := Find(p, NegativeMarker);
    var n := j + |NegativeMarker|;
    SplitFirst(p, NegativeMarker);
    SplitSecond(p, NegativeMarker);
    SplitPiecesFree(p, NegativeMarker);
    assert ps[1] in ps;
    assert p[j..n] == NegativeMarker;
    PrefixThree(p, j, n, FindFrom(p, NegativeMarker, n));
    if OccursOnce(p, NegativeMarker) {
      SplitOnce(p, NegativeMarker);
    }
  }

  lemma PrefixThree(p: string, i: nat, j: nat, k: nat)
    requires i <= j <= k <= |p|
    ensures p[..i] + p[i..j] + p[j..k] <= p
  {
    assert p[..i] + p[i..j] + p[j..k] == p[..k];
  }

  /** Every tag of the record is well formed, unless the raw text cleans to nothing. */
  lemma TagsWellFormed(pathFull: string, parentName: string, grandName: string, parameters: Json.Option<string>)
    ensures var r := ImageInfoOf(pathFull, parentName, grandName, parameters);
      r.Ok? ==> TagsShaped(r.value)
  {
    var d := Defaults(pathFull, parentName, grandName);
    if parameters.Some? && parameters.get != "None" {
      ParametersTags(d, parameters.get);
    }
  }

  /** The shapes the tokenizer's tags can take: no tags at all (nothing was read),
      the single empty tag, or well-formed tags only. */
  predicate TagsShaped(d: Record) {
    (d.prompt == [] || d.prompt == [""] || forall t :: t in d.prompt ==> Prompt.WellFormedTag(t)) &&
    (d.negativePrompt == [] || d.negativePrompt == [""] ||
     forall t :: t in d.negativePrompt ==> Prompt.WellFormedTag(t))
  }

  lemma ParametersTags(d: Record, s: string)
    requires d.prompt == [] && d.negativePrompt == []
    ensures WithParameters(d, s).Ok? ==> TagsShaped(WithParameters(d, s).value)
  {
    var parts := Split(s, StepsMarker);
    if |parts| == 2 {
      AssembleTags(d, parts[0], Decoded(StepsMarker + parts[1]));
    }
  }

  lemma AssembleTags(d: Record, p: string, g: Json.Option<map<string, Json.Value>>)
    requires d.prompt == [] && d.negativePrompt == []
    ensures Assemble(d, p, g).Ok? ==> TagsShaped(Assemble(d, p, g).value)
  {
    if g.Some? && WithEntries(d, g.get).Ok? {
      PromptTags(WithEntries(d, g.get).value, p);
    }
  }

  lemma PromptTags(d: Record, p: string)
    requires d.prompt == [] && d.negativePrompt == []
    ensures TagsShaped(WithPrompt(d, p))
  {
    if p != [] {
      if Contains(p, NegativeMarker) {
        SplitSecond(p, NegativeMarker);
        var ps := Split(p, NegativeMarker);
        Prompt.TokenizeShape(ps[0]);
        Prompt.TokenizeShape(ps[1]);
      } else {
        Prompt.TokenizeShape(p);
      }
    }
  }

  /** An image under an "extras" folder has no date, and that folder is its sub-folder. */
  lemma ExtrasFolder()
    ensures var r := ImageInfoOf("a.png", "extras-images", "outputs", Json.None);
      r.Ok? && r.value.date == "" && r.value.subFolder == "extras-images"
  {
    StemNoDot("extras-images");
    ContainsWitness("extras-images", "extras", 0);
    assert "extras-images"[0..6] == "extras";
  }
}
