/** filter_df_image_infos of the standalone app (app.py:87-123): the same loop over
    the four facets, without sampling, returning the full paths of the surviving
    rows in table order. The app takes its denumbering from a module that is not
    part of this model, so it comes in as a parameter. */
module App {
  import opened ImageInfo
  import opened Facets
  import opened Gallery

  /** The four selections, denumbered by `denumberList`, in the order the filters
      are applied. */
  function AppSelections(denumberList: seq<string> -> seq<string>, subFolders: seq<string>,
                         dates: seq<string>, models: seq<string>, prompts: seq<string>): seq<Filter> {
    [(SubFolder, denumberList(subFolders)), (Date, denumberList(dates)),
     (Model, denumberList(models)), (Prompt, denumberList(prompts))]
  }

  /** The narrowed table and its paths; the dropdown updates are left out. */
  method FilterImageInfos(dfInfos: seq<Record>, subFolders: seq<string>, dates: seq<string>,
                          models: seq<string>, prompts: seq<string>,
                          denumberList: seq<string> -> seq<string>)
    returns (paths: seq<string>, df: seq<Record>)
    ensures df == Select(dfInfos, AppSelections(denumberList, subFolders, dates, models, prompts))
    ensures Subseq(df, dfInfos)
    ensures |paths| == |df| && forall i :: 0 <= i < |df| ==> paths[i] == df[i].pathFull
  {
    var filters := AppSelections(denumberList, subFolders, dates, models, prompts);
    df := Narrowed(dfInfos, filters);
    FiltersSelect(dfInfos, filters);
    SelectSubseq(dfInfos, filters);
    paths := Paths(df);
  }

  /** A row survives exactly when it is in the table and, for each facet whose
      denumbered selection is not empty, its value is selected (sub-folder, date,
      model) or every selected tag is among its tags (prompt). */
  lemma AppRows(dfInfos: seq<Record>, subFolders: seq<string>, dates: seq<string>,
                models: seq<string>, prompts: seq<string>,
                denumberList: seq<string> -> seq<string>, r: Record)
    ensures var s, d := denumberList(subFolders), denumberList(dates);
      var m, p := denumberList(models), denumberList(prompts);
      r in Select(dfInfos, AppSelections(denumberList, subFolders, dates, models, prompts)) <==>
        r in dfInfos && (s == [] || r.subFolder in s) && (d == [] || r.date in d) &&
        (m == [] || r.model in m) && (p == [] || forall v :: v in p ==> v in r.prompt)
  {
    var fs := AppSelections(denumberList, subFolders, dates, models, prompts);
    SelectMember(dfInfos, fs, r);
    PassesFour(r, fs[0].1, fs[1].1, fs[2].1, fs[3].1);
  }

  /** A facet whose denumbered selection is empty leaves the table as the other
      facets make it. */
  lemma EmptyFacet(dfInfos: seq<Record>, fs: seq<Filter>, i: nat)
    requires i < |fs| && fs[i].1 == []
    ensures Select(dfInfos, fs) == Select(dfInfos, fs[..i] + fs[i + 1..])
  {
    var gs := fs[..i] + fs[i + 1..];
    forall r | r in dfInfos
      ensures PassesAll(r, fs) <==> PassesAll(r, gs)
    {
      if PassesAll(r, gs) {
        forall j | 0 <= j < |fs|
          ensures fs[j].1 == [] || Passes(r, fs[j])
        {
          if j < i {
            assert gs[j] == fs[j];
          } else if j > i {
            assert gs[j - 1] == fs[j];
          }
        }
      }
      if PassesAll(r, fs) {
        forall j | 0 <= j < |gs|
          ensures gs[j].1 == [] || Passes(r, gs[j])
        {
          if j < i {
            assert gs[j] == fs[j];
          } else {
            assert gs[j] == fs[j + 1];
          }
        }
      }
    }
    SelectSame(dfInfos, fs, gs);
  }
}
