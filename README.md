# sd-webui-gallery core, modelled in Dafny

sd-webui-gallery is a gallery for images made with the Stable Diffusion web UI.
It reads the "parameters" text that the web UI writes into each PNG. From that
text it builds one table row per image: folder, date, model, steps, sampler,
prompt tags and negative prompt tags. It then offers one multi-select dropdown
per facet (sub-folder, date, model, prompt tag). Each option is labelled
`value | count`. Choosing options narrows the table and the grid of images shown.

This project models that core on values and proves its properties:

- `Prompt` is the prompt tokenizer (`parse_prompt`). It is a chain of character
  rewrites, each one an explicit scanning function, followed by a split on commas.
- `GenInfo` is the generation-info parser (`parse_gen_info`). It truncates at
  `Hashes`, applies its regular-expression rewrites and fix-ups, and decodes the
  result as a JSON object. `Json` is the small JSON-object decoder this needs:
  strings with escapes, and nested objects.
- `GenInfoText` and `GenInfoFields` describe the strings the web UI writes. Those
  strings are `key: value` pairs and quoted `key: "a: b, c: d"` lists. The two
  modules prove what the parser makes of such a string: an object, or a failure.
- `ImageInfo` builds one row (`parse_image_info_from_path`):
  - it takes the folder names, the image's path and the metadata text as
    parameters;
  - on malformed text it returns an error value where the source raises.
- `Facets` holds the counts, labels, denumbering and dropdown updates
  (`calc_counts`, `calc_dropbox_choices`, `calc_unique_options`,
  `calc_dropbox_updates`, `denumber`, `denumber_list`).
- `Gallery` is the gallery's filter handler with its sampling.
- `App` is the standalone app's deterministic filter.
- `Text` holds the string helpers the source takes from Python:
  - `str.find`, `in`, `split` and `join`;
  - `strip` and `rstrip`;
  - `re.sub` with a fixed pattern.
- `PromptExamples` and `GenInfoExamples` hold the docstring examples and
  counterexamples.

The table is a `seq<Record>`. A filter is an order-preserving subsequence, stated
against an independent definition (`Gallery.Select`). The tokenizer, the
generation-info parser, the row builder and both filter loops are methods that
rebind a local value step by step, as the source does. Each is proved equal to
the function it is specified by, and the properties are lemmas about those
functions.

The model follows the code as written:

- A malformed parameters text makes `parse_image_info_from_path` raise. Three
  things do it:
  - an unpacking of `split("Steps: ")` that does not give two pieces;
  - `json.loads` failing;
  - a missing key.

  The model returns an `ImageInfo.Error` for each and does not substitute a
  default row.
- The truncation at `Hashes` is case-sensitive. So `Lora hashes: "..."` and
  `TI hashes: "..."` are not dropped; they decode to nested objects.
- A comma-separated segment without `": "` makes `json.loads` raise. So does a
  text whose last field is a quoted list.

## Model

| member | source | states |
|---|---|---|
| Prompt.ParsePrompt | scripts/gallery_utils.py:252-287 | the rewrites applied in turn give `Tokenize(prompt)`; joining the tags with commas gives back the cleaned prompt; the result is `[""]` exactly when nothing is left; otherwise every tag is well formed |
| Prompt.TokenizeShape | scripts/gallery_utils.py:268-287 | every tag is non-empty, has no `,`, `(`, `)` or newline, has no whitespace at either end, and has `<` only as its first character and `>` only as its last; the single exception is `[""]`, returned exactly when the cleaned prompt is empty |
| Prompt.CleanReady | scripts/gallery_utils.py:268-283 | the cleaned prompt has no brackets or newlines, no two adjacent separator characters, no comma or whitespace at either end, `<` only after a comma and `>` only before one |
| Prompt.ParensGone | scripts/gallery_utils.py:270 | after the bracket rewrite neither `(` nor `)` remains |
| Prompt.ParensToCommasFrom | scripts/gallery_utils.py:270 | the output has the input's length, each `(` or `)` replaced by a comma and every other character kept |
| Prompt.NewlinesToCommasKeeps | scripts/gallery_utils.py:278 | the newline rewrite leaves no newline and keeps the comma placement around `<` and `>` |
| Prompt.WeightAt | scripts/gallery_utils.py:269 | a weight match is at least three characters (digits, a dot, digits) and lies inside the string |
| PromptExamples.DocstringExample | scripts/gallery_utils.py:262-266 | the docstring's two-line prompt tokenizes to exactly the six tags it lists |
| PromptExamples.DocstringShape | scripts/gallery_utils.py:262-266 | a line of plain words joined by `, `, then a newline and a bracketed line with a `:1.1` weight, tokenizes to the words of both lines |
| PromptExamples.TokenizeJoin | scripts/gallery_utils.py:268-287 | plain words joined by `, ` tokenize back to themselves |
| PromptExamples.RetokenizePlain | scripts/gallery_utils.py:268-287 | on plain words, tokenizing the comma-joined tags gives the same tags |
| PromptExamples.RetokenizeChanges | scripts/gallery_utils.py:269-275 | `1:.5` tokenizes to `["1.5"]`, and tokenizing that again gives `[""]` (see "Left out") |
| GenInfo.ParseGenInfo | scripts/gallery_utils.py:104-145 | the rewrites applied in turn give `GenInfo(s)`: either a failure or an object |
| GenInfo.MarkerCut | scripts/gallery_utils.py:118-121 | nothing from the first `Hashes` on contributes: the result for `a + "Hashes" + b` is the result for `a` |
| GenInfo.FindMarker | scripts/gallery_utils.py:120 | the first `Hashes` of `a + "Hashes" + b`, when `a` has none, is at `|a|` |
| GenInfoText.RewriteFields | scripts/gallery_utils.py:120-133 | on a rendered string of fields, the chain of rewrites yields the quoted form of each pair and list |
| GenInfoText.WrapFields | scripts/gallery_utils.py:135-142 | the text handed to `json.loads` is that quoted form inside `{"` and `"}` |
| GenInfoFields.GenInfoOfFields | scripts/gallery_utils.py:104-145 | a string of pairs and quoted lists decodes to the object of its pairs and nested objects, or fails when a segment has no colon or the last field is a quoted list |
| GenInfoFields.FieldsLookup | scripts/gallery_utils.py:104-145 | the decoded object's keys are exactly the fields' keys, and each key holds the value of its last field |
| GenInfoFields.FlatLookup | scripts/gallery_utils.py:107-145 | flat `K1: V1, ..., Kn: Vn` decodes to `{Ki: Vi}`, the last duplicate key winning |
| GenInfoFields.GroupLookup | scripts/gallery_utils.py:126-133 | a quoted list decodes to an object of its `a: b` items, the last duplicate winning |
| GenInfoFields.BareSegmentFails | scripts/gallery_utils.py:127-144 | a segment without `": "` makes the decode fail |
| GenInfoFields.TrailingGroupFails | scripts/gallery_utils.py:133-144 | a string whose last field is a quoted list fails to decode |
| GenInfoExamples.SampleGenInfo | scripts/gallery_utils.py:107 | the shortened docstring example decodes to `Steps`, `Sampler` and `Version` strings plus a nested `Lora hashes` object |
| Json.DecodeEncode | scripts/gallery_utils.py:144 | decoding the JSON text of a tree of plain strings gives the tree's meaning (the decoder's round trip) |
| Json.EnterLookup | scripts/gallery_utils.py:144 | a decoded object holds a key exactly when a member has it, with the value of its last member |
| Json.ParseValue | scripts/gallery_utils.py:144 | a successful parse consumes at least one character |
| Text.JoinSplit | scripts/gallery_utils.py:286 | joining the pieces of `split(sep)` with `sep` gives back the string |
| Text.SplitTwo | scripts/gallery_utils.py:180 | `split(sep)` has exactly two pieces if and only if `sep` occurs exactly once |
| Text.SplitSecond | scripts/gallery_utils.py:192-196 | the second piece of a split is the text between the first and the second occurrence |
| Text.SplitPiecesFree | scripts/gallery_utils.py:305 | no piece of a split contains the separator |
| Text.StripSlice | scripts/gallery_utils.py:282-283 | `strip` keeps a contiguous slice of the string, and every character it removes from either end is one of the given characters |
| ImageInfo.ParseImageInfoFromPath | scripts/gallery_utils.py:148-201 | the record filled in field by field is `ImageInfoOf` of the inputs |
| ImageInfo.Folders | scripts/gallery_utils.py:150-167 | the path is kept; the date is the parent folder's stem and the sub-folder the grandparent's, except that under an `extras` folder the date is empty and the sub-folder is the parent's stem |
| ImageInfo.StemCut | scripts/gallery_utils.py:152-153 | a stem is the name, or the name cut before its last dot, which is neither its first nor its last character |
| ImageInfo.NoParameters | scripts/gallery_utils.py:154-176 | with no parameters, or the text `None`, every other field keeps its default |
| ImageInfo.StepsOnce | scripts/gallery_utils.py:179-180 | the row fails at the split exactly when `Steps: ` does not occur exactly once |
| ImageInfo.GenerationInfo | scripts/gallery_utils.py:179-185 | the generation info is `parse_gen_info` of the text from `Steps: ` on; an undecodable text fails; `Model`, `Steps` and `Sampler` are read in that order, each failing when missing, and otherwise are stored with the whole object |
| ImageInfo.MissingModel | scripts/gallery_utils.py:182 | a generation info without `Model` fails the row with that key |
| ImageInfo.PromptFields | scripts/gallery_utils.py:187-199 | an empty prompt text leaves the prompt fields at their defaults; without `Negative prompt: ` the raw prompt is the whole text; with it, the raw prompt is the text before its first occurrence and the raw negative prompt the text between its first and second occurrences (or the end); the tags are the tokenized raw texts |
| ImageInfo.TagsWellFormed | scripts/gallery_utils.py:193-198 | the prompt and negative prompt tags are empty, the single empty tag, or all well formed |
| ImageInfo.ExtrasFolder | scripts/gallery_utils.py:164-167 | an image in `extras-images` has no date and `extras-images` as its sub-folder |
| Facets.ScalarValues | scripts/gallery_utils.py:247-248 | a scalar column has one value per row, in row order |
| Facets.TallyFacts | scripts/gallery_utils.py:243-249 | the counts hold each value once, with the number of its occurrences (every tag of every row, repeats included, for the prompt column), most frequent first |
| Facets.CountOfTally | scripts/gallery_utils.py:232-236 | looking a value up in the counts gives its number of occurrences, or nothing when it does not occur |
| Facets.SortFacts | scripts/gallery_utils.py:246-248 | ordering by count is a permutation, is non-increasing in the count, and keeps keys distinct |
| Facets.DistinctFacts | scripts/gallery_utils.py:246-248 | the distinct values are exactly the values, without repeats |
| Facets.UniqueOptions | scripts/gallery_utils.py:211-226 | the options are one `value \| count` label per distinct value, in count order, and every value's label is among them |
| Facets.LabelDenumber | scripts/gallery_utils.py:304-305 | denumbering a label gives back its value if and only if the value neither contains ` \| ` nor ends with ` \|` |
| Facets.SpacerInValue | scripts/gallery_utils.py:304-305 | the label of `cat \| dog` denumbers to `cat` |
| Facets.DenumberIdempotent | scripts/gallery_utils.py:304-305 | denumbering twice is denumbering once |
| Facets.DenumberedValues | scripts/gallery_utils.py:308-309 | `denumber_list` denumbers each element, in order |
| Facets.LocFacts | scripts/gallery_utils.py:236 | `.loc` finds every requested value in order, or fails with a requested value that is absent |
| Facets.DropboxUpdates | scripts/gallery_utils.py:229-240 | the update fails exactly when a selected value is absent from the column, naming such a value; otherwise its values relabel each selection with its count on the given table, and its choices are that table's options |
| Facets.SelectionKept | scripts/gallery_utils.py:229-240 | on the table the options came from, with unambiguous values, a selection of options comes back unchanged |
| Gallery.FiltersSelect | scripts/gallery_utils.py:40-48 | the facet-by-facet narrowing equals the reference selection: the rows, in order, that pass every facet with a non-empty selection |
| Gallery.SelectMember | scripts/gallery_utils.py:40-48 | a row is selected if and only if it is in the table and passes every facet with a selection |
| Gallery.SelectSubseq | scripts/gallery_utils.py:40-48 | the selection is a subsequence of the table: rows keep their order |
| Gallery.FilteredRows | scripts/gallery_utils.py:26-48 | with denumbered selections, a row survives if and only if it is in the table and, for each facet with a selection, its value is selected (sub-folder, date, model) or every selected tag is among its tags (prompt) |
| Gallery.NothingSelected | scripts/gallery_utils.py:40-43 | with nothing selected the table is unchanged |
| Gallery.MoreTags | scripts/gallery_utils.py:44-46 | selecting one more tag never adds rows |
| Gallery.StartSelection | scripts/gallery_utils.py:40-48 | making an empty facet's selection non-empty never adds rows |
| Gallery.SelectMono | scripts/gallery_utils.py:40-48 | filters that every row passing them also passes another filter set select a subsequence of what that set selects |
| Gallery.MoreModelsMoreRows | scripts/gallery_utils.py:47-48 | adding a model to a non-empty model selection can add rows: `["ma"]` keeps one of two rows, `["ma", "mb"]` keeps both |
| Gallery.SampleSize | scripts/gallery_utils.py:63-79 | the sample has `min(n, max_display)` rows, taken from the table with no row more often than it occurs there, and is a shuffle of the whole table when it has fewer than `max_display` rows |
| Gallery.DrawFacts | scripts/gallery_utils.py:76-79 | drawing `k` rows without replacement gives `min(k, n)` rows of the pool, all of it when `k >= n` |
| Gallery.Narrowed | scripts/gallery_utils.py:40-48 | the loop over the filters gives the table narrowed by every filter in turn |
| Gallery.FilterImageInfos | scripts/gallery_utils.py:17-60 | the handler succeeds exactly when all four dropdown updates do, and fails with the first failing one's key; it shows the paths of a sample of the filtered table; the updates are computed on the unsampled filtered table |
| App.FilterImageInfos | app.py:87-123 | the returned table is the reference selection of the table by the four denumbered selections, a subsequence of it, and the paths are its rows' full paths in row order, one per row |
| App.AppRows | app.py:104-112 | a row survives if and only if it is in the table and, for each facet with a denumbered selection, its value is selected (sub-folder, date, model) or every selected tag is among its tags (prompt) |
| App.EmptyFacet | app.py:104-106 | a facet whose denumbered selection is empty leaves the result as if the facet were absent |

## Left out

- Reading the image (`Image.open(path).info`) is left out: the `parameters` text comes in as an optional string, and the path and the names of the two folders above it as strings.
- `calc_df_image_infos`, `load_img_path` and `load_img_info` walk the file system with a glob; the table is a given `seq<Record>`.
- `scripts/constants.py`, `scripts/gallery.py`, `main()` of `app.py`, the `gr.Dropdown` wrappers and the event wiring are user-interface glue and are not modelled.
- `display_image_info` formats Python's representation of a dictionary into a template; it is presentation and is not modelled.
- `logging` calls are not modelled.
- Gallery.SampleDf: the randomness of `DataFrame.sample` comes in as a sequence of draws, so the model states which rows a sample can hold, not their distribution.
- Facets.SortByCount: pandas' `value_counts` does not fix the order of equal counts; the model keeps first-seen order, and the lemmas state only a non-increasing count order and the multiset of pairs.
- Gallery.FilterImageInfos and App.FilterImageInfos: when the sub-folder, date and model facets leave no rows and a prompt tag is selected, pandas applies the tag test to an empty column, gets an empty object-typed result, and reads it as a list of column labels rather than a mask; the frame loses its columns and `df["path_full"]` raises `KeyError('path_full')` (scripts/gallery_utils.py:46-54, app.py:110-114). The model does not reproduce this: the gallery handler then reports the first failing dropdown update's key (a non-empty selection is absent from the empty table), and the app returns no paths and an empty table.
- App.FilterImageInfos: `app.py` imports `denumber_list` and `calc_dropbox_updates` from a module that is not part of this model; `denumber_list` is a parameter, and the four dropdown updates the app returns are not modelled.
- ImageInfo.Entry: when a `Model`, `Steps` or `Sampler` value decodes to a nested object, Python would store the dictionary; the model returns `NotText` instead, since a record field is text.
- ImageInfo.Stem: only the `PurePath.stem` rule for the last dot is modelled; the folder names come in already split from the path.
- Json.Decode: the decoder covers strings with the standard escapes other than `\u` and nested objects; it fails where Python's `json.loads` would return numbers, arrays, `true`, `false` or `null` (which can reach it inside a braced group, since the rewrites leave text between braces alone) or `\u`-escaped text.
- Text.Replace, Prompt.DropColons and GenInfo.QuoteFrom: each fixed regular expression is a scanning function; no general regular-expression engine is modelled.
- Prompt.DigitsFrom: the `\d` of the weight pattern is read as the ASCII digits; Python's `\d` also matches the other Unicode decimal digits.
- GenInfoFields.GenInfoOfFields: stated for keys and values without `, : " { }`, backslash, control characters or the text `Hashes`, non-empty and with no trailing whitespace; other strings are covered only by the general lemmas (`GenInfo.MarkerCut`, `GenInfo.GenInfoObject`).
- GenInfoExamples.SampleGenInfo: proves a shortened form of the docstring example (four of its fields, one quoted list), not the full line.
- Prompt.Tokenize: tokenizing is not idempotent in general (`PromptExamples.RetokenizeChanges`): deleting the colon of `1:.5` creates the weight `1.5`, which a second pass deletes; it is idempotent on plain words (`PromptExamples.RetokenizePlain`).
- Facets.Denumber: a value containing ` | `, or ending with ` |`, is not recovered from its label (`Facets.LabelDenumber`, `Facets.SpacerInValue`).
