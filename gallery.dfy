/** filter_df_image_infos and sample_df (scripts/gallery_utils.py:17-79): the
    table narrowed by the four dropdown selections one facet after the other, a
    sample of it for display, and the four dropdowns recomputed for the narrowed
    table. */
module Gallery {
  import opened ImageInfo
  import opened Facets

  const MaxDisplay: nat := 100

  /** One facet's selection, denumbered. */
  type Filter = (Column, seq<string>)

  // ---------------------------------------------------------------------
  // Filtering
  // ---------------------------------------------------------------------

  /** A row passes a non-empty selection: for the prompt column every selected tag
      is among its tags; for the others its value is one of those selected. */
  predicate Passes(r: Record, f: Filter) {
    if f.0 == Prompt then forall v :: v in f.1 ==> v in r.prompt
    else Scalar(r, f.0) in f.1
  }

  /** The rows that pass, in table order. */
  function Keep(df: seq<Record>, f: Filter): seq<Record> {
    if df == [] then []
    else (if Passes(df[0], f) then [df[0]] else []) + Keep(df[1..], f)
  }

  /** One facet applied to the table; an empty selection selects everything. */
  function Narrow(df: seq<Record>, f: Filter): seq<Record> {
    if f.1 == [] then df else Keep(df, f)
  }

  /** The facets applied one after the other, as the loop over the filters does. */
  function ApplyFilters(df: seq<Record>, fs: seq<Filter>): seq<Record>
    decreases |fs|
  {
    if fs == [] then df else ApplyFilters(Narrow(df, fs[0]), fs[1..])
  }

  /** The four selections, denumbered, in the order the filters are applied. */
  function Selections(subFolders: seq<string>, dates: seq<string>, models: seq<string>,
                      prompts: seq<string>): seq<Filter> {
    [(SubFolder, DenumberList(subFolders)), (Date, DenumberList(dates)),
     (Model, DenumberList(models)), (Prompt, DenumberList(prompts))]
  }

  /** A row passes every facet whose selection is not empty. */
  predicate PassesAll(r: Record, fs: seq<Filter>) {
    forall i :: 0 <= i < |fs| ==> fs[i].1 == [] || Passes(r, fs[i])
  }

  /** The rows that pass every facet, in table order: a reference definition of
      the filtered table, all facets at once. */
  function Select(df: seq<Record>, fs: seq<Filter>): seq<Record> {
    if df == [] then []
    else (if PassesAll(df[0], fs) then [df[0]] else []) + Select(df[1..], fs)
  }

  /** `a` is `b` with some rows left out, the others in their order. */
  predicate Subseq(a: seq<Record>, b: seq<Record>)
    decreases |b|
  {
    a == [] || (b != [] && ((a[0] == b[0] && Subseq(a[1..], b[1..])) || Subseq(a, b[1..])))
  }

  lemma {:induction false} NarrowSelect(df: seq<Record>, f: Filter, fs: seq<Filter>)
    ensures Select(Narrow(df, f), fs) == Select(df, [f] + fs)
  {
    if f.1 == [] {
      forall r | r in df
        ensures PassesAll(r, fs) <==> PassesAll(r, [f] + fs)
      {
        PassesCons(r, f, fs);
      }
      SelectSame(df, fs, [f] + fs);
    } else if df != [] {
      var h := if Passes(df[0], f) then [df[0]] else [];
      NarrowSelect(df[1..], f, fs);
      SelectAppend(h, Keep(df[1..], f), fs);
      PassesCons(df[0], f, fs);
      assert Select(h, fs) == if PassesAll(df[0], [f] + fs) then [df[0]] else [];
    }
  }

  lemma {:induction false} SelectAppend(a: seq<Record>, b: seq<Record>, fs: seq<Filter>)
    ensures Select(a + b, fs) == Select(a, fs) + Select(b, fs)
  {
    if a != [] {
      assert (a + b)[1..] == a[1..] + b;
      SelectAppend(a[1..], b, fs);
    } else {
      assert a + b == b;
    }
  }

  lemma PassesCons(r: Record, f: Filter, fs: seq<Filter>)
    ensures PassesAll(r, [f] + fs) <==> (f.1 == [] || Passes(r, f)) && PassesAll(r, fs)
  {
    if (f.1 == [] || Passes(r, f)) && PassesAll(r, fs) {
      forall i | 0 <= i < |[f] + fs|
        ensures ([f] + fs)[i].1 == [] || Passes(r, ([f] + fs)[i])
      {
        if i > 0 {
          assert ([f] + fs)[i] == fs[i - 1];
        }
      }
    }
    if PassesAll(r, [f] + fs) {
      assert ([f] + fs)[0] == f;
      forall i | 0 <= i < |fs|
        ensures fs[i].1 == [] || Passes(r, fs[i])
      {
        assert ([f] + fs)[i + 1] == fs[i];
      }
    }
  }

  /** Facets that admit the same rows select the same rows. */
  lemma {:induction false} SelectSame(df: seq<Record>, fs: seq<Filter>, gs: seq<Filter>)
    requires forall r :: r in df ==> (PassesAll(r, fs) <==> PassesAll(r, gs))
    ensures Select(df, fs) == Select(df, gs)
  {
    if df != [] {
      assert df[0] in df;
      assert forall r :: r in df[1..] ==> r in df;
      SelectSame(df[1..], fs, gs);
      PassesSame(df[0], fs, gs);
    }
  }

  lemma PassesSame(r: Record, fs: seq<Filter>, gs: seq<Filter>)
    requires PassesAll(r, fs) <==> PassesAll(r, gs)
    ensures Select([r], fs) == Select([r], gs)
  {
  }

  /** Applying the facets one by one is selecting the rows that pass them all. */
  lemma {:induction false} FiltersSelect(df: seq<Record>, fs: seq<Filter>)
    ensures ApplyFilters(df, fs) == Select(df, fs)
    decreases |fs|
  {
    if fs == [] {
      SelectAll(df, fs);
    } else {
      FiltersSelect(Narrow(df, fs[0]), fs[1..]);
      NarrowSelect(df, fs[0], fs[1..]);
      assert [fs[0]] + fs[1..] == fs;
    }
  }

  lemma {:induction false} SelectAll(df: seq<Record>, fs: seq<Filter>)
    requires fs == []
    ensures Select(df, fs) == df
  {
    if df != [] {
      SelectAll(df[1..], fs);
    }
  }

  /** A row is in the selection exactly when it is in the table and passes every facet. */
  lemma {:induction false} SelectMember(df: seq<Record>, fs: seq<Filter>, r: Record)
    ensures r in Select(df, fs) <==> r in df && PassesAll(r, fs)
  {
    if df != [] {
      SelectMember(df[1..], fs, r);
      assert df == [df[0]] + df[1..];
    }
  }

  /** More demanding facets select a subsequence of what less demanding ones select. */
  lemma {:induction false} SelectMono(df: seq<Record>, fs: seq<Filter>, gs: seq<Filter>)
    requires forall r :: r in df && PassesAll(r, gs) ==> PassesAll(r, fs)
    ensures Subseq(Select(df, gs), Select(df, fs))
  {
    if df != [] {
      assert df[0] in df;
      assert forall r :: r in df[1..] ==> r in df;
      SelectMono(df[1..], fs, gs);
      var a, b := Select(df[1..], gs), Select(df[1..], fs);
      if PassesAll(df[0], gs) {
        assert Select(df, gs) == [df[0]] + a && Select(df, fs) == [df[0]] + b;
        MatchHead(df[0], a, b);
      } else if PassesAll(df[0], fs) {
        assert Select(df, gs) == a;
        assert Select(df, fs) == [df[0]] + b;
        SubseqSkip(a, df[0], b);
      } else {
        assert Select(df, gs) == a && Select(df, fs) == b;
      }
    } else {
      assert Select(df, gs) == [];
    }
  }

  lemma MatchHead(x: Record, a: seq<Record>, b: seq<Record>)
    requires Subseq(a, b)
    ensures Subseq([x] + a, [x] + b)
  {
    assert ([x] + a)[1..] == a && ([x] + b)[1..] == b;
  }

  lemma SubseqSkip(a: seq<Record>, x: Record, b: seq<Record>)
    requires Subseq(a, b)
    ensures Subseq(a, [x] + b)
  {
    assert ([x] + b)[1..] == b;
  }

  /** The filtered table keeps rows of the table in their order. */
  lemma {:induction false} SelectSubseq(df: seq<Record>, fs: seq<Filter>)
    ensures Subseq(Select(df, fs), df)
  {
    if df != [] {
      SelectSubseq(df[1..], fs);
      var a := Select(df[1..], fs);
      assert [df[0]] + df[1..] == df;
      if PassesAll(df[0], fs) {
        assert Select(df, fs) == [df[0]] + a;
        MatchHead(df[0], a, df[1..]);
      } else {
        assert Select(df, fs) == a;
        SubseqSkip(a, df[0], df[1..]);
      }
    }
  }

  /** The table the four selections leave. */
  function Filtered(df: seq<Record>, subFolders: seq<string>, dates: seq<string>,
                    models: seq<string>, prompts: seq<string>): seq<Record> {
    ApplyFilters(df, Selections(subFolders, dates, models, prompts))
  }

  /** A row survives exactly when it is in the table and, for each facet with a
      selection, its value is among the denumbered selections (sub-folder, date,
      model) or every selected tag is among its tags (prompt); the survivors keep
      their order. */
  lemma FilteredRows(df: seq<Record>, subFolders: seq<string>, dates: seq<string>,
                     models: seq<string>, prompts: seq<string>, r: Record)
    ensures var out := Filtered(df, subFolders, dates, models, prompts);
      var s, d, m, p := DenumberList(subFolders), DenumberList(dates), DenumberList(models), DenumberList(prompts);
      Subseq(out, df) &&
      (r in out <==>
        r in df && (s == [] || r.subFolder in s) && (d == [] || r.date in d) &&
        (m == [] || r.model in m) && (p == [] || forall v :: v in p ==> v in r.prompt))
  {
    var fs := Selections(subFolders, dates, models, prompts);
    FiltersSelect(df, fs);
    SelectSubseq(df, fs);
    SelectMember(df, fs, r);
    PassesFour(r, DenumberList(subFolders), DenumberList(dates), DenumberList(models), DenumberList(prompts));
  }

  lemma PassesFour(r: Record, s: seq<string>, d: seq<string>, m: seq<string>, p: seq<string>)
    ensures PassesAll(r, [(SubFolder, s), (Date, d), (Model, m), (Prompt, p)]) <==>
      (s == [] || r.subFolder in s) && (d == [] || r.date in d) &&
      (m == [] || r.model in m) && (p == [] || forall v :: v in p ==> v in r.prompt)
  {
    var fs := [(SubFolder, s), (Date, d), (Model, m), (Prompt, p)];
    assert PassesAll(r, fs) <==>
      (fs[0].1 == [] || Passes(r, fs[0])) && (fs[1].1 == [] || Passes(r, fs[1])) &&
      (fs[2].1 == [] || Passes(r, fs[2])) && (fs[3].1 == [] || Passes(r, fs[3]));
  }

  /** With nothing selected anywhere the table is left as it is. */
  lemma NothingSelected(df: seq<Record>)
    ensures Filtered(df, [], [], [], []) == df
  {
    var fs := Selections([], [], [], []);
    FiltersSelect(df, fs);
    SelectSame(df, fs, []);
    SelectAll(df, []);
  }

  /** Selecting one more tag, or starting a selection for a facet that had none,
      never adds rows: the result is a subsequence of the previous one. */
  lemma MoreTags(df: seq<Record>, subFolders: seq<string>, dates: seq<string>,
                 models: seq<string>, prompts: seq<string>, tag: string)
    ensures Subseq(Filtered(df, subFolders, dates, models, prompts + [tag]),
                   Filtered(df, subFolders, dates, models, prompts))
  {
    var fs := Selections(subFolders, dates, models, prompts);
    var gs := Selections(subFolders, dates, models, prompts + [tag]);
    var p, q := DenumberList(prompts), DenumberList(prompts + [tag]);
    assert forall v :: v in p ==> v in q by {
      forall v | v in p
        ensures v in q
      {
        var k :| 0 <= k < |p| && p[k] == v;
        assert q[k] == v;
      }
    }
    assert q != [] by {
      assert |q| == |prompts| + 1;
    }
    forall r | r in df && PassesAll(r, gs)
      ensures PassesAll(r, fs)
    {
      assert gs[3].1 == [] || Passes(r, gs[3]);
      assert forall i :: 0 <= i < 3 ==> gs[i] == fs[i];
    }
    FiltersSelect(df, fs);
    FiltersSelect(df, gs);
    SelectMono(df, fs, gs);
  }

  /** A facet with no selection admits at least the rows any selection for it admits. */
  lemma StartSelection(df: seq<Record>, fs: seq<Filter>, i: nat, values: seq<string>)
    requires i < |fs| && fs[i].1 == []
    ensures Subseq(ApplyFilters(df, fs[i := (fs[i].0, values)]), ApplyFilters(df, fs))
  {
    var gs := fs[i := (fs[i].0, values)];
    forall r | r in df && PassesAll(r, gs)
      ensures PassesAll(r, fs)
    {
      forall j | 0 <= j < |fs|
        ensures fs[j].1 == [] || Passes(r, fs[j])
      {
        if j != i {
          assert gs[j] == fs[j];
        }
      }
    }
    FiltersSelect(df, fs);
    FiltersSelect(df, gs);
    SelectMono(df, fs, gs);
  }

  /** Two images of different models, for the example below. */
  function RowA(): Record {
    Record("a.png", "d", "s", "ma", "20", "Euler", map[], [], [], "", "")
  }

  function RowB(): Record {
    Record("b.png", "d", "s", "mb", "20", "Euler", map[], [], [], "", "")
  }

  /** Within a facet a selection is a choice among values: selecting a second
      model brings back the rows of that model. */
  lemma MoreModelsMoreRows()
    ensures Filtered([RowA(), RowB()], [], [], ["ma"], []) == [RowA()]
    ensures Filtered([RowA(), RowB()], [], [], ["ma", "mb"], []) == [RowA(), RowB()]
  {
    Text.SplitAbsent("ma", Spacer);
    Text.SplitAbsent("mb", Spacer);
    assert DenumberList(["ma"]) == ["ma"];
    assert DenumberList(["ma", "mb"]) == ["ma", "mb"];
    var df := [RowA(), RowB()];
    var one := Selections([], [], ["ma"], []);
    var two := Selections([], [], ["ma", "mb"], []);
    FiltersSelect(df, one);
    FiltersSelect(df, two);
    assert PassesAll(RowA(), one) && !PassesAll(RowB(), one);
    assert PassesAll(RowA(), two) && PassesAll(RowB(), two);
    assert Select(df, one) == [RowA()] by {
      assert df[1..] == [RowB()];
    }
    assert Select(df, two) == [RowA(), RowB()] by {
      assert df[1..] == [RowB()];
    }
  }

  // ---------------------------------------------------------------------
  // Sampling
  // ---------------------------------------------------------------------

  /** The index the next draw picks among `n` rows; a missing draw picks the first. */
  function Pick(draws: seq<nat>, n: nat): nat
    requires n > 0
  {
    (if draws == [] then 0 else draws[0]) % n
  }

  /** `k` rows drawn without replacement from `pool`, each draw choosing among the
      rows still left. */
  function Draw(pool: seq<Record>, k: nat, draws: seq<nat>): seq<Record>
    decreases k
  {
    if k == 0 || pool == [] then []
    else
      var i := Pick(draws, |pool|);
      [pool[i]] + Draw(pool[..i] + pool[i + 1..], k - 1, if draws == [] then [] else draws[1..])
  }

  /** A draw of `k` rows takes min(k, |pool|) rows, none more often than the pool
      holds it; taking every row is a reordering of the pool. */
  lemma {:induction false} DrawFacts(pool: seq<Record>, k: nat, draws: seq<nat>)
    ensures |Draw(pool, k, draws)| == if k < |pool| then k else |pool|
    ensures multiset(Draw(pool, k, draws)) <= multiset(pool)
    ensures k >= |pool| ==> multiset(Draw(pool, k, draws)) == multiset(pool)
    decreases k
  {
    if k != 0 && pool != [] {
      var i := Pick(draws, |pool|);
      var rest := pool[..i] + pool[i + 1..];
      var more := if draws == [] then [] else draws[1..];
      DrawFacts(rest, k - 1, more);
      RemoveOne(pool, i);
      DrawStep(pool, i, rest, k, Draw(rest, k - 1, more));
    }
  }

  lemma DrawStep(pool: seq<Record>, i: nat, rest: seq<Record>, k: nat, d: seq<Record>)
    requires i < |pool| && k > 0 && |rest| == |pool| - 1
    requires multiset(rest) + multiset{pool[i]} == multiset(pool)
    requires |d| == (if k - 1 < |rest| then k - 1 else |rest|)
    requires multiset(d) <= multiset(rest)
    requires k - 1 >= |rest| ==> multiset(d) == multiset(rest)
    ensures |[pool[i]] + d| == if k < |pool| then k else |pool|
    ensures multiset([pool[i]] + d) <= multiset(pool)
    ensures k >= |pool| ==> multiset([pool[i]] + d) == multiset(pool)
  {
  }

  lemma RemoveOne(pool: seq<Record>, i: nat)
    requires i < |pool|
    ensures multiset(pool[..i] + pool[i + 1..]) + multiset{pool[i]} == multiset(pool)
  {
    assert pool == pool[..i] + [pool[i]] + pool[i + 1..];
  }

  /** sample_df: a shuffle of the whole table when it is smaller than `maxDisplay`,
      otherwise `maxDisplay` of its rows; `draws` stands for the random source. */
  function SampleDf(df: seq<Record>, maxDisplay: nat, draws: seq<nat>): seq<Record> {
    if |df| < maxDisplay then Draw(df, |df|, draws) else Draw(df, maxDisplay, draws)
  }

  /** The sample has min(|df|, maxDisplay) rows of the table, none of them more
      often than the table holds it, and is all of them when the table is smaller. */
  lemma SampleSize(df: seq<Record>, maxDisplay: nat, draws: seq<nat>)
    ensures var s := SampleDf(df, maxDisplay, draws);
      |s| == (if |df| < maxDisplay then |df| else maxDisplay) &&
      multiset(s) <= multiset(df) &&
      (|df| < maxDisplay ==> multiset(s) == multiset(df))
  {
    if |df| < maxDisplay {
      DrawFacts(df, |df|, draws);
    } else {
      DrawFacts(df, maxDisplay, draws);
    }
  }

  // ---------------------------------------------------------------------
  // The handler
  // ---------------------------------------------------------------------

  /** The full paths of the rows, in order (df["path_full"].tolist()). */
  function Paths(df: seq<Record>): seq<string> {
    seq(|df|, i requires 0 <= i < |df| => df[i].pathFull)
  }

  /** What the handler returns: the paths shown, the sampled table and the four
      dropdowns. */
  datatype Shown = Shown(paths: seq<string>, sampled: seq<Record>,
                         subFolder: Updates, date: Updates, model: Updates, prompt: Updates)

  /** The loop over the filters: the table narrowed facet by facet. */
  method Narrowed(dfInfos: seq<Record>, filters: seq<Filter>) returns (df: seq<Record>)
    ensures df == ApplyFilters(dfInfos, filters)
  {
    df := dfInfos;
    var i := 0;
    while i < |filters|
      invariant 0 <= i <= |filters|
      invariant ApplyFilters(df, filters[i..]) == ApplyFilters(dfInfos, filters)
    {
      var (column, values) := filters[i];
      assert filters[i..][1..] == filters[i + 1..];
      if values != [] {
        df := Keep(df, (column, values));
      }
      i := i + 1;
    }
    assert filters[i..] == [];
  }

  /** filter_df_image_infos. The dropdowns are recomputed on the filtered table
      before sampling; the first of them whose selection is no longer counted
      raises. */
  method FilterImageInfos(dfInfos: seq<Record>, subFolders: seq<string>, dates: seq<string>,
                          models: seq<string>, prompts: seq<string>, maxDisplay: nat,
                          draws: seq<nat>) returns (r: Lookup<Shown>)
    ensures var df := Filtered(dfInfos, subFolders, dates, models, prompts);
      var u1, u2 := CalcDropboxUpdates(df, SubFolder, subFolders), CalcDropboxUpdates(df, Date, dates);
      var u3, u4 := CalcDropboxUpdates(df, Model, models), CalcDropboxUpdates(df, Prompt, prompts);
      (r.Found? <==> u1.Found? && u2.Found? && u3.Found? && u4.Found?) &&
      (r.KeyError? ==> r.key == (if u1.KeyError? then u1.key else if u2.KeyError? then u2.key
                                 else if u3.KeyError? then u3.key else u4.key)) &&
      (r.Found? ==>
         r.value.sampled == SampleDf(df, maxDisplay, draws) && r.value.paths == Paths(r.value.sampled) &&
         r.value.subFolder == u1.value && r.value.date == u2.value &&
         r.value.model == u3.value && r.value.prompt == u4.value)
  {
    var filters := Selections(subFolders, dates, models, prompts);
    var df := Narrowed(dfInfos, filters);
    var sampled := SampleDf(df, maxDisplay, draws);
    var u1 := CalcDropboxUpdates(df, SubFolder, subFolders);
    if u1.KeyError? {
      return KeyError(u1.key);
    }
    var u2 := CalcDropboxUpdates(df, Date, dates);
    if u2.KeyError? {
      return KeyError(u2.key);
    }
    var u3 := CalcDropboxUpdates(df, Model, models);
    if u3.KeyError? {
      return KeyError(u3.key);
    }
    var u4 := CalcDropboxUpdates(df, Prompt, prompts);
    if u4.KeyError? {
      return KeyError(u4.key);
    }
    r := Found(Shown(Paths(sampled), sampled, u1.value, u2.value, u3.value, u4.value));
  }
}
