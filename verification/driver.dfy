/** The job driver and the per-dataset step of `scripts/project_from_psrc.py`:
    `main`'s length check and sentinel normalisation (`invoke_none`), and
    `project_prompt_dataset`'s selector default, output directory and export of
    every template. The template pool is replaced by running the exports one
    after another, in template order; `main`'s dispatch is left out. When the
    templates' shard file names differ, `ExportsCommute` shows the order does
    not matter; when two names collide, the pool's workers race on the same
    file and the template order used here is only one of the possible
    outcomes. */
module Driver {
  import opened Common
  import opened Text
  import opened Export

  /** The template selector actually used: the caller's, or the dataset name,
      followed by `/subset` when a subset is given. */
  function ResolveSelector(datasetName: string, subsetName: Option<string>, selector: Option<string>): (r: string)
    ensures selector.Some? ==> r == selector.value
    ensures selector.None? && subsetName.None? ==> r == datasetName
    ensures selector.None? && subsetName.Some? ==> r == datasetName + "/" + subsetName.value
  {
    match selector
    case Some(s) => s
    case None =>
      match subsetName
      case None => datasetName
      case Some(subset) => datasetName + "/" + subset
  }

  /** `raw_output_dir/dataset_name`, then `/subset_name` when a subset is given. */
  function OutputDir(rawOutputDir: string, datasetName: string, subsetName: Option<string>): string
  {
    var dir := Join(rawOutputDir, datasetName);
    if subsetName.Some? then Join(dir, subsetName.value) else dir
  }

  /** For ordinary names the output directory is the raw output directory
      joined with the default selector: the shard tree mirrors the selector. */
  lemma OutputDirFollowsSelector(rawOutputDir: string, datasetName: string, subsetName: Option<string>)
    requires |rawOutputDir| > 0 && rawOutputDir[|rawOutputDir| - 1] != '/'
    requires |datasetName| > 0 && datasetName[0] != '/' && datasetName[|datasetName| - 1] != '/'
    requires subsetName.Some? ==> !(|subsetName.value| > 0 && subsetName.value[0] == '/')
    ensures OutputDir(rawOutputDir, datasetName, subsetName)
      == Join(rawOutputDir, ResolveSelector(datasetName, subsetName, None))
    ensures subsetName.None? ==> OutputDir(rawOutputDir, datasetName, subsetName) == rawOutputDir + "/" + datasetName
    ensures subsetName.Some? ==>
      OutputDir(rawOutputDir, datasetName, subsetName) == rawOutputDir + "/" + datasetName + "/" + subsetName.value
  {
    var d := Join(rawOutputDir, datasetName);
    assert d == rawOutputDir + "/" + datasetName;
    if subsetName.Some? {
      var s := subsetName.value;
      assert d[|d| - 1] == datasetName[|datasetName| - 1];
      assert (datasetName + "/" + s)[0] == datasetName[0];
      assert rawOutputDir + "/" + (datasetName + "/" + s) == d + "/" + s;
    }
  }

  /** The command-line tokens that stand for a missing value. */
  predicate IsSentinel(s: string)
  {
    s == "None" || s == "none" || s == "null" || s == ""
  }

  /** One list element after `invoke_none`. */
  function Normalise(v: Option<string>): (r: Option<string>)
    ensures r.None? <==> v.None? || IsSentinel(v.value)
    ensures r.Some? ==> r == v
  {
    if v.Some? && IsSentinel(v.value) then None else v
  }

  /** `invoke_none`: replaces sentinel tokens by `None` in place and returns
      the same list. */
  method InvokeNone(lst: array<Option<string>>) returns (r: array<Option<string>>)
    modifies lst
    ensures r == lst
    ensures forall i :: 0 <= i < lst.Length ==> lst[i] == Normalise(old(lst[i]))
  {
    var idx := 0;
    while idx < lst.Length
      invariant 0 <= idx <= lst.Length
      invariant forall i :: 0 <= i < idx ==> lst[i] == Normalise(old(lst[i]))
      invariant forall i :: idx <= i < lst.Length ==> lst[i] == old(lst[i])
    {
      var val := lst[idx];
      if val.Some? && IsSentinel(val.value) {
        lst[idx] := None;
      }
      idx := idx + 1;
    }
    r := lst;
  }

  /** One (dataset, subset, selector) unit of work after normalisation. */
  datatype Job = Job(datasetName: Option<string>, subsetName: Option<string>, selector: Option<string>)

  /** `main` up to the dispatch: the three lists must have the same length
      (otherwise the assertion fails before any work starts); each list is
      normalised and they are zipped into jobs. */
  method PrepareJobs(names: seq<string>, configs: seq<string>, selectors: seq<string>)
    returns (r: Result<seq<Job>, string>)
    ensures r.Failure? <==> |names| != |configs| || |names| != |selectors|
    ensures r.Success? ==> |r.value| == |names|
    ensures r.Success? ==> forall i :: 0 <= i < |names| ==>
      && (r.value[i].datasetName.None? <==> IsSentinel(names[i]))
      && (r.value[i].subsetName.None? <==> IsSentinel(configs[i]))
      && (r.value[i].selector.None? <==> IsSentinel(selectors[i]))
      && (r.value[i].datasetName.Some? ==> r.value[i].datasetName.value == names[i])
      && (r.value[i].subsetName.Some? ==> r.value[i].subsetName.value == configs[i])
      && (r.value[i].selector.Some? ==> r.value[i].selector.value == selectors[i])
  {
    if |names| != |configs| || |names| != |selectors| {
      return Failure("AssertionError");
    }
    var a := new Option<string>[|names|](i requires 0 <= i < |names| => Some(names[i]));
    var b := new Option<string>[|configs|](i requires 0 <= i < |configs| => Some(configs[i]));
    var c := new Option<string>[|selectors|](i requires 0 <= i < |selectors| => Some(selectors[i]));
    a := InvokeNone(a);
    b := InvokeNone(b);
    c := InvokeNone(c);
    var xs, ys, zs := a[..], b[..], c[..];
    r := Success(seq(|names|, i requires 0 <= i < |names| => Job(xs[i], ys[i], zs[i])));
  }

  /** Exports every template in turn over the same splits. */
  function ExportAll<E>(fs: FileSystem, ctx: Context, prompts: seq<Prompt<E>>, splits: Splits<E>): FileSystem
    requires |splits| > 0 || |prompts| == 0
    decreases |prompts|
  {
    if |prompts| == 0 then fs
    else ExportDataset(ExportAll(fs, ctx, prompts[..|prompts| - 1], splits), ctx, prompts[|prompts| - 1], splits).fs
  }

  /** The completion markers the exports return, in template order. */
  function Markers<E>(fs: FileSystem, ctx: Context, prompts: seq<Prompt<E>>, splits: Splits<E>): (r: seq<string>)
    requires |splits| > 0 || |prompts| == 0
    ensures |r| == |prompts|
    ensures forall i :: 0 <= i < |prompts| ==>
      r[i] == Marker(ShardPath(ctx.outputDir, splits[|splits| - 1].0, ctx.promptTemplate, prompts[i].name))
  {
    seq(|prompts|, i requires 0 <= i < |prompts| =>
      ExportDataset(ExportAll(fs, ctx, prompts[..i], splits), ctx, prompts[i], splits).marker)
  }

  /** No two templates share a sanitized shard file name. */
  predicate DistinctFileNames<E>(ctx: Context, prompts: seq<Prompt<E>>)
  {
    forall i, j :: 0 <= i < j < |prompts| ==>
      ShardFileName(ctx.promptTemplate, prompts[i].name) != ShardFileName(ctx.promptTemplate, prompts[j].name)
  }

  /** When the templates' file names are distinct, template `i`'s shard of
      split `j` survives the whole run with that template's records (unless a
      later split of the same template writes the same path). */
  lemma {:induction false} ExportAllKeepsShard<E>(fs: FileSystem, ctx: Context, prompts: seq<Prompt<E>>, splits: Splits<E>, i: nat, j: nat)
    requires |splits| > 0
    requires DistinctFileNames(ctx, prompts)
    requires i < |prompts| && j < |splits| && LastWriter(ctx, prompts[i], splits, j)
    decreases |prompts|
    ensures var p := ShardPath(ctx.outputDir, splits[j].0, ctx.promptTemplate, prompts[i].name);
      p in ExportAll(fs, ctx, prompts, splits)
      && ExportAll(fs, ctx, prompts, splits)[p] == Project(ctx, prompts[i], splits[j].0, splits[j].1, 0)
  {
    var n := |prompts| - 1;
    var prefix := prompts[..n];
    var last := prompts[n];
    var prev := ExportAll(fs, ctx, prefix, splits);
    var p := ShardPath(ctx.outputDir, splits[j].0, ctx.promptTemplate, prompts[i].name);
    ExportContents(prev, ctx, last, splits);
    if i < n {
      assert prefix[i] == prompts[i];
      assert DistinctFileNames(ctx, prefix) by {
        forall a, b | 0 <= a < b < |prefix| ensures
          ShardFileName(ctx.promptTemplate, prefix[a].name) != ShardFileName(ctx.promptTemplate, prefix[b].name)
        {
          assert prefix[a] == prompts[a] && prefix[b] == prompts[b];
        }
      }
      ExportAllKeepsShard(fs, ctx, prefix, splits, i, j);
      forall k | 0 <= k < |splits|
        ensures ShardPath(ctx.outputDir, splits[k].0, ctx.promptTemplate, last.name) != p
      {
        JoinDistinctNames(Join(ctx.outputDir, splits[k].0), ShardFileName(ctx.promptTemplate, last.name),
                          Join(ctx.outputDir, splits[j].0), ShardFileName(ctx.promptTemplate, prompts[i].name));
      }
    }
  }

  /** `project_prompt_dataset` after the dataset is loaded: the selector is
      defaulted, the output directory derived, and every template the selector
      resolves to (the template catalogue is a parameter) is exported; the
      result is the new tree and the markers printed, in template order. */
  function ProjectPromptDataset<E>(
    fs: FileSystem,
    rawOutputDir: string,
    datasetName: string,
    subsetName: Option<string>,
    selector: Option<string>,
    splits: Splits<E>,
    templates: string -> seq<Prompt<E>>): (r: (FileSystem, seq<string>))
    requires |splits| > 0 || |templates(ResolveSelector(datasetName, subsetName, selector))| == 0
    ensures var sel := ResolveSelector(datasetName, subsetName, selector);
      && |r.1| == |templates(sel)|
      && forall i :: 0 <= i < |r.1| ==>
        r.1[i] == Marker(
          ShardPath(OutputDir(rawOutputDir, datasetName, subsetName), splits[|splits| - 1].0, sel, templates(sel)[i].name))
  {
    var sel := ResolveSelector(datasetName, subsetName, selector);
    var ctx := Context(OutputDir(rawOutputDir, datasetName, subsetName), datasetName, subsetName, sel);
    (ExportAll(fs, ctx, templates(sel), splits), Markers(fs, ctx, templates(sel), splits))
  }

  /** The tree `project_prompt_dataset` leaves behind: with distinct file
      names, every resolved template's shard of every split (that no later
      split overwrites) lies under the derived output directory, named after
      the resolved selector, and holds that template's records with the
      dataset, subset and selector as metadata. */
  lemma ProjectPromptDatasetKeepsShard<E>(
    fs: FileSystem,
    rawOutputDir: string,
    datasetName: string,
    subsetName: Option<string>,
    selector: Option<string>,
    splits: Splits<E>,
    templates: string -> seq<Prompt<E>>,
    i: nat, j: nat)
    requires |splits| > 0
    requires var sel := ResolveSelector(datasetName, subsetName, selector);
      var ctx := Context(OutputDir(rawOutputDir, datasetName, subsetName), datasetName, subsetName, sel);
      && DistinctFileNames(ctx, templates(sel))
      && i < |templates(sel)| && j < |splits|
      && LastWriter(ctx, templates(sel)[i], splits, j)
    ensures var sel := ResolveSelector(datasetName, subsetName, selector);
      var ctx := Context(OutputDir(rawOutputDir, datasetName, subsetName), datasetName, subsetName, sel);
      var r := ProjectPromptDataset(fs, rawOutputDir, datasetName, subsetName, selector, splits, templates);
      var p := ShardPath(OutputDir(rawOutputDir, datasetName, subsetName), splits[j].0, sel, templates(sel)[i].name);
      p in r.0 && r.0[p] == Project(ctx, templates(sel)[i], splits[j].0, splits[j].1, 0)
  {
    var sel := ResolveSelector(datasetName, subsetName, selector);
    var ctx := Context(OutputDir(rawOutputDir, datasetName, subsetName), datasetName, subsetName, sel);
    ExportAllKeepsShard(fs, ctx, templates(sel), splits, i, j);
  }
}
