/** The split exporter of `scripts/project_from_psrc.py`: for one template, every
    split of a loaded dataset is projected example by example and written to its
    own shard. A shard is a sequence of records and the output tree is a map from
    path to shard; opening a shard with mode "w" is a map update that replaces
    whatever the path held before. */
module Export {
  import opened Common
  import opened Text

  /** One JSONL line, with the fields in the order the source writes them. */
  datatype Record = Record(
    id: nat,
    source: string,
    target: string,
    promptTemplate: string,
    promptName: string,
    datasetName: string,
    subsetName: Option<string>,
    split: string)

  /** A resolved template: its `get_name()` and the rendering engine's `apply`,
      an oracle about which nothing is assumed. */
  datatype Prompt<!E> = Prompt(name: string, apply: E -> seq<string>)

  /** The loaded dataset: split names in the order the loader returns them,
      each with its examples. */
  type Splits<E> = seq<(string, seq<E>)>

  /** The output tree: shard path to shard contents. */
  type FileSystem = map<string, seq<Record>>

  /** What one export invocation shares across all of its splits. */
  datatype Context = Context(
    outputDir: string,
    datasetName: string,
    subsetName: Option<string>,
    promptTemplate: string)

  /** The tree after the export and the completion marker it returns. */
  datatype Outcome = Outcome(fs: FileSystem, marker: string)

  /** `(prompt_template + "." + prompt_name)` with every `/` and space made `_`. */
  function SanitizedStem(promptTemplate: string, promptName: string): (r: string)
    ensures '/' !in r && ' ' !in r
    ensures |r| == |promptTemplate| + 1 + |promptName|
    ensures forall i :: 0 <= i < |r| ==>
      var c := (promptTemplate + "." + promptName)[i];
      r[i] == (if c == '/' || c == ' ' then '_' else c)
  {
    ReplaceChar(ReplaceChar(promptTemplate + "." + promptName, '/', '_'), ' ', '_')
  }

  /** The shard's file name: the sanitized stem followed by `.jsonl`. */
  function ShardFileName(promptTemplate: string, promptName: string): (r: string)
    ensures '/' !in r && ' ' !in r
    ensures |r| >= 6 && r[|r| - 6..] == ".jsonl"
  {
    SanitizedStem(promptTemplate, promptName) + ".jsonl"
  }

  /** `os.path.join(os.path.join(dataset_output_dir, split), <file name>)`. */
  function ShardPath(outputDir: string, split: string, promptTemplate: string, promptName: string): string
  {
    Join(Join(outputDir, split), ShardFileName(promptTemplate, promptName))
  }

  /** The two names `"a/b"."c"` and `"a_b"."c"` land on the same file: the
      sanitization is not injective, so such templates overwrite each other. */
  lemma SanitizationCollides()
    ensures ShardFileName("a/b", "c") == ShardFileName("a_b", "c")
  {
    var s1, s2 := SanitizedStem("a/b", "c"), SanitizedStem("a_b", "c");
    assert s1 == s2 by {
      assert |s1| == 5 == |s2|;
      forall i | 0 <= i < 5 ensures s1[i] == s2[i] {}
    }
  }

  /** The skip rule: only a rendering with exactly two parts yields a record. */
  predicate Kept<E>(prompt: Prompt<E>, example: E)
  {
    |prompt.apply(example)| == 2
  }

  /** `rec` is the record the source writes for example `rec.id` of `split`. */
  ghost predicate Describes<E>(ctx: Context, prompt: Prompt<E>, split: string, examples: seq<E>, rec: Record)
  {
    && rec.id < |examples|
    && Kept(prompt, examples[rec.id])
    && rec.source == prompt.apply(examples[rec.id])[0]
    && rec.target == prompt.apply(examples[rec.id])[1]
    && rec.promptTemplate == ctx.promptTemplate
    && rec.promptName == prompt.name
    && rec.datasetName == ctx.datasetName
    && rec.subsetName == ctx.subsetName
    && rec.split == split
  }

  /** The records written for `examples[from..]`, where an example's id is its
      enumeration index in the whole split. Ids start at `from` and strictly
      increase, so skipped examples leave gaps and no id repeats. */
  function Project<E>(ctx: Context, prompt: Prompt<E>, split: string, examples: seq<E>, from: nat): (r: seq<Record>)
    decreases |examples| - from
    ensures forall k :: 0 <= k < |r| ==> from <= r[k].id < |examples|
    ensures forall k :: 0 <= k < |r| ==> Kept(prompt, examples[r[k].id])
    ensures forall k, l :: 0 <= k < l < |r| ==> r[k].id < r[l].id
  {
    if from >= |examples| then []
    else
      var parts := prompt.apply(examples[from]);
      var rest := Project(ctx, prompt, split, examples, from + 1);
      if |parts| != 2 then rest
      else
        [Record(from, parts[0], parts[1], ctx.promptTemplate, prompt.name,
                ctx.datasetName, ctx.subsetName, split)] + rest
  }

  /** Every record is the one the source writes for its example: that example
      renders into two parts, which become `source` and `target`, and the
      metadata is the export's own. */
  lemma {:induction false} ProjectSound<E>(ctx: Context, prompt: Prompt<E>, split: string, examples: seq<E>, from: nat)
    decreases |examples| - from
    ensures forall rec :: rec in Project(ctx, prompt, split, examples, from) ==>
      Describes(ctx, prompt, split, examples, rec)
  {
    if from < |examples| {
      ProjectSound(ctx, prompt, split, examples, from + 1);
    }
  }

  /** Every example from `from` on that renders into two parts has a record. */
  lemma {:induction false} ProjectComplete<E>(ctx: Context, prompt: Prompt<E>, split: string, examples: seq<E>, from: nat)
    decreases |examples| - from
    ensures forall j :: from <= j < |examples| && Kept(prompt, examples[j]) ==>
      j in Ids(Project(ctx, prompt, split, examples, from))
  {
    if from < |examples| {
      ProjectComplete(ctx, prompt, split, examples, from + 1);
      var rest := Project(ctx, prompt, split, examples, from + 1);
      var r := Project(ctx, prompt, split, examples, from);
      if Kept(prompt, examples[from]) {
        IdsCons(r, rest);
      }
    }
  }

  /** The ids present in a shard. */
  ghost function Ids(rs: seq<Record>): set<nat>
  {
    set k | 0 <= k < |rs| :: rs[k].id
  }

  /** Putting a record in front adds its id to the shard's ids. */
  lemma IdsCons(r: seq<Record>, rest: seq<Record>)
    requires |r| > 0 && r[1..] == rest
    ensures Ids(r) == {r[0].id} + Ids(rest)
  {
    forall j | j in Ids(rest) ensures j in Ids(r) {
      var k :| 0 <= k < |rest| && rest[k].id == j;
      assert r[k + 1].id == j;
    }
    forall j | j in Ids(r) ensures j in {r[0].id} + Ids(rest) {
      var k :| 0 <= k < |r| && r[k].id == j;
      if k > 0 { assert rest[k - 1].id == j; }
    }
  }

  /** The indices of a split's examples that the template renders into two parts. */
  ghost function KeptIndices<E>(prompt: Prompt<E>, examples: seq<E>): set<nat>
  {
    set j: nat | j < |examples| && Kept(prompt, examples[j])
  }

  lemma {:induction false} IdsCardinality(rs: seq<Record>)
    requires forall k, l :: 0 <= k < l < |rs| ==> rs[k].id < rs[l].id
    ensures |Ids(rs)| == |rs|
  {
    if |rs| > 0 {
      IdsCardinality(rs[1..]);
      assert Ids(rs) == {rs[0].id} + Ids(rs[1..]) by {
        forall x | x in Ids(rs) ensures x in {rs[0].id} + Ids(rs[1..]) {
          var k :| 0 <= k < |rs| && rs[k].id == x;
          if k > 0 { assert rs[1..][k - 1] == rs[k]; }
        }
        forall x | x in Ids(rs[1..]) ensures x in Ids(rs) {
          var k :| 0 <= k < |rs[1..]| && rs[1..][k].id == x;
          assert rs[k + 1].id == x;
        }
      }
      assert rs[0].id !in Ids(rs[1..]) by {
        forall k | 0 <= k < |rs[1..]| ensures rs[1..][k].id != rs[0].id {
          assert rs[1..][k] == rs[k + 1];
        }
      }
    }
  }

  /** A split's shard holds exactly one record per example whose rendering
      has two parts: the shard's ids are exactly those examples' indices, and
      there are as many records as such examples. */
  lemma RecordCount<E>(ctx: Context, prompt: Prompt<E>, split: string, examples: seq<E>)
    ensures Ids(Project(ctx, prompt, split, examples, 0)) == KeptIndices(prompt, examples)
    ensures |Project(ctx, prompt, split, examples, 0)| == |KeptIndices(prompt, examples)|
  {
    var rs := Project(ctx, prompt, split, examples, 0);
    ProjectSound(ctx, prompt, split, examples, 0);
    ProjectComplete(ctx, prompt, split, examples, 0);
    forall j | j in Ids(rs) ensures j in KeptIndices(prompt, examples) {
      var k :| 0 <= k < |rs| && rs[k].id == j;
      assert rs[k] in rs;
    }
    IdsCardinality(rs);
  }

  /** Writes each (path, contents) pair in order, as `open(path, "w")` does:
      a later write to the same path replaces an earlier one. */
  function WriteAll<T>(fs: map<string, T>, writes: seq<(string, T)>): map<string, T>
    decreases |writes|
  {
    if |writes| == 0 then fs
    else
      var last := writes[|writes| - 1];
      WriteAll(fs, writes[..|writes| - 1])[last.0 := last.1]
  }

  /** `p` is written by one of `writes`. */
  predicate Written<T>(writes: seq<(string, T)>, p: string)
  {
    exists i :: 0 <= i < |writes| && writes[i].0 == p
  }

  /** The written paths are added to the tree and nothing else is. */
  lemma {:induction false} WriteAllKeys<T>(fs: map<string, T>, writes: seq<(string, T)>)
    ensures forall p :: p in WriteAll(fs, writes) <==> p in fs || Written(writes, p)
  {
    if |writes| > 0 {
      var prefix := writes[..|writes| - 1];
      WriteAllKeys(fs, prefix);
      forall p | Written(writes, p) && p != writes[|writes| - 1].0 ensures Written(prefix, p) {
        var i :| 0 <= i < |writes| && writes[i].0 == p;
        assert prefix[i] == writes[i];
      }
      forall p | Written(prefix, p) ensures Written(writes, p) {
        var i :| 0 <= i < |prefix| && prefix[i].0 == p;
        assert writes[i] == prefix[i];
      }
    }
  }

  /** A path keeps the contents of the last write to it. */
  lemma {:induction false} WriteAllLast<T>(fs: map<string, T>, writes: seq<(string, T)>, i: nat)
    requires i < |writes|
    requires forall j :: i < j < |writes| ==> writes[j].0 != writes[i].0
    ensures writes[i].0 in WriteAll(fs, writes)
    ensures WriteAll(fs, writes)[writes[i].0] == writes[i].1
  {
    if i < |writes| - 1 {
      var prefix := writes[..|writes| - 1];
      assert prefix[i] == writes[i];
      forall j | i < j < |prefix| ensures prefix[j].0 != prefix[i].0 {
        assert prefix[j] == writes[j];
      }
      WriteAllLast(fs, prefix, i);
    }
  }

  /** A path no write touches keeps its old contents. */
  lemma {:induction false} WriteAllElsewhere<T>(fs: map<string, T>, writes: seq<(string, T)>, p: string)
    requires p in fs && !Written(writes, p)
    ensures p in WriteAll(fs, writes) && WriteAll(fs, writes)[p] == fs[p]
  {
    if |writes| > 0 {
      var prefix := writes[..|writes| - 1];
      assert forall i :: 0 <= i < |prefix| ==> prefix[i] == writes[i];
      WriteAllElsewhere(fs, prefix, p);
    }
  }

  /** A write followed by writes that end with another write to the same
      path, whatever that write's contents, is the same as leaving the first
      write out. */
  lemma {:induction false} WriteAllShadowed<T>(fs: map<string, T>, p: string, v: T, w: T, writes: seq<(string, T)>)
    ensures WriteAll(fs[p := v], writes)[p := w] == WriteAll(fs, writes)[p := w]
  {
    if |writes| > 0 {
      var last := writes[|writes| - 1];
      var prefix := writes[..|writes| - 1];
      WriteAllShadowed(fs, p, v, w, prefix);
      var a, b := WriteAll(fs[p := v], prefix), WriteAll(fs, prefix);
      assert WriteAll(fs[p := v], writes) == a[last.0 := last.1];
      assert WriteAll(fs, writes) == b[last.0 := last.1];
      if last.0 != p {
        assert a[last.0 := last.1][p := w] == a[p := w][last.0 := last.1];
        assert b[last.0 := last.1][p := w] == b[p := w][last.0 := last.1];
      } else {
        assert a[last.0 := last.1][p := w] == a[p := w];
        assert b[last.0 := last.1][p := w] == b[p := w];
      }
    }
  }

  /** A write to a path that later writes never touch can be made last. */
  lemma {:induction false} WriteAllUntouched<T>(fs: map<string, T>, p: string, v: T, writes: seq<(string, T)>)
    requires forall i :: 0 <= i < |writes| ==> writes[i].0 != p
    ensures WriteAll(fs[p := v], writes) == WriteAll(fs, writes)[p := v]
  {
    if |writes| > 0 {
      var prefix := writes[..|writes| - 1];
      WriteAllUntouched(fs, p, v, prefix);
    }
  }

  /** Replaying the same writes changes nothing more. */
  lemma {:induction false} WriteAllIdempotent<T>(fs: map<string, T>, writes: seq<(string, T)>)
    ensures WriteAll(WriteAll(fs, writes), writes) == WriteAll(fs, writes)
  {
    if |writes| > 0 {
      var last := writes[|writes| - 1];
      var prefix := writes[..|writes| - 1];
      WriteAllShadowed(WriteAll(fs, prefix), last.0, last.1, last.1, prefix);
      WriteAllIdempotent(fs, prefix);
    }
  }

  /** Writes to disjoint path sets can be applied in either order. */
  lemma {:induction false} WriteAllCommute<T>(fs: map<string, T>, a: seq<(string, T)>, b: seq<(string, T)>)
    requires forall i, j :: 0 <= i < |a| && 0 <= j < |b| ==> a[i].0 != b[j].0
    ensures WriteAll(WriteAll(fs, a), b) == WriteAll(WriteAll(fs, b), a)
  {
    if |a| > 0 {
      var last := a[|a| - 1];
      var prefix := a[..|a| - 1];
      WriteAllCommute(fs, prefix, b);
      WriteAllUntouched(WriteAll(fs, prefix), last.0, last.1, b);
    }
  }

  /** The path and contents of one split's shard. */
  function Shard<E>(ctx: Context, prompt: Prompt<E>, split: (string, seq<E>)): (string, seq<Record>)
  {
    (ShardPath(ctx.outputDir, split.0, ctx.promptTemplate, prompt.name),
     Project(ctx, prompt, split.0, split.1, 0))
  }

  function Shards<E>(ctx: Context, prompt: Prompt<E>, splits: Splits<E>): (r: seq<(string, seq<Record>)>)
    ensures |r| == |splits|
    ensures forall i :: 0 <= i < |splits| ==> r[i] == Shard(ctx, prompt, splits[i])
  {
    seq(|splits|, i requires 0 <= i < |splits| => Shard(ctx, prompt, splits[i]))
  }

  /** `p` is the shard path of some split. */
  predicate IsShardPath<E>(ctx: Context, prompt: Prompt<E>, splits: Splits<E>, p: string)
  {
    exists i :: 0 <= i < |splits| && ShardPath(ctx.outputDir, splits[i].0, ctx.promptTemplate, prompt.name) == p
  }

  /** No later split of `splits` writes to the same shard path as split `i`. */
  predicate LastWriter<E>(ctx: Context, prompt: Prompt<E>, splits: Splits<E>, i: nat)
    requires i < |splits|
  {
    forall j :: i < j < |splits| ==>
      ShardPath(ctx.outputDir, splits[j].0, ctx.promptTemplate, prompt.name)
        != ShardPath(ctx.outputDir, splits[i].0, ctx.promptTemplate, prompt.name)
  }

  /** The completion message naming the last shard written. */
  function Marker(path: string): string
  {
    "Completed:: " + path + "!"
  }

  /** `export_dataset`. A dataset without splits is excluded: the source then
      formats the marker from a variable it never bound. */
  function ExportDataset<E>(fs: FileSystem, ctx: Context, prompt: Prompt<E>, splits: Splits<E>): (r: Outcome)
    requires |splits| > 0
    ensures r.marker == Marker(ShardPath(ctx.outputDir, splits[|splits| - 1].0, ctx.promptTemplate, prompt.name))
  {
    var writes := Shards(ctx, prompt, splits);
    Outcome(WriteAll(fs, writes), Marker(writes[|writes| - 1].0))
  }

  /** What an export leaves in the tree: the paths are the old ones plus one
      shard per split; a split's shard holds that split's records unless a later
      split writes the same path; every other path keeps its old contents. */
  lemma ExportContents<E>(fs: FileSystem, ctx: Context, prompt: Prompt<E>, splits: Splits<E>)
    requires |splits| > 0
    ensures forall p :: p in ExportDataset(fs, ctx, prompt, splits).fs <==> (p in fs || IsShardPath(ctx, prompt, splits, p))
    ensures forall i :: 0 <= i < |splits| && LastWriter(ctx, prompt, splits, i) ==>
      var p := ShardPath(ctx.outputDir, splits[i].0, ctx.promptTemplate, prompt.name);
      p in ExportDataset(fs, ctx, prompt, splits).fs
      && ExportDataset(fs, ctx, prompt, splits).fs[p] == Project(ctx, prompt, splits[i].0, splits[i].1, 0)
    ensures forall p :: p in fs && !IsShardPath(ctx, prompt, splits, p) ==>
      p in ExportDataset(fs, ctx, prompt, splits).fs && ExportDataset(fs, ctx, prompt, splits).fs[p] == fs[p]
  {
    var writes := Shards(ctx, prompt, splits);
    WriteAllKeys(fs, writes);
    forall p ensures Written(writes, p) <==> IsShardPath(ctx, prompt, splits, p) {
      if IsShardPath(ctx, prompt, splits, p) {
        var i :| 0 <= i < |splits| && ShardPath(ctx.outputDir, splits[i].0, ctx.promptTemplate, prompt.name) == p;
        assert writes[i].0 == p;
      }
    }
    forall i | 0 <= i < |splits| && LastWriter(ctx, prompt, splits, i)
      ensures WriteAll(fs, writes)[writes[i].0] == writes[i].1
    {
      WriteAllLast(fs, writes, i);
    }
    forall p | p in fs && !IsShardPath(ctx, prompt, splits, p)
      ensures WriteAll(fs, writes)[p] == fs[p]
    {
      WriteAllElsewhere(fs, writes, p);
    }
  }

  /** Re-running an export over the same splits leaves the tree exactly as one
      run leaves it: every shard is truncated and rewritten, never appended to. */
  lemma ExportIdempotent<E>(fs: FileSystem, ctx: Context, prompt: Prompt<E>, splits: Splits<E>)
    requires |splits| > 0
    ensures ExportDataset(ExportDataset(fs, ctx, prompt, splits).fs, ctx, prompt, splits)
      == ExportDataset(fs, ctx, prompt, splits)
  {
    WriteAllIdempotent(fs, Shards(ctx, prompt, splits));
  }

  /** Two templates whose sanitized file names differ never write the same
      shard, so their exports give the same tree in either order: the order in
      which worker processes finish does not matter. */
  lemma ExportsCommute<E>(fs: FileSystem, ctx: Context, a: Prompt<E>, b: Prompt<E>, splits: Splits<E>)
    requires |splits| > 0
    requires ShardFileName(ctx.promptTemplate, a.name) != ShardFileName(ctx.promptTemplate, b.name)
    ensures ExportDataset(ExportDataset(fs, ctx, a, splits).fs, ctx, b, splits).fs
      == ExportDataset(ExportDataset(fs, ctx, b, splits).fs, ctx, a, splits).fs
  {
    var wa, wb := Shards(ctx, a, splits), Shards(ctx, b, splits);
    forall i, j | 0 <= i < |wa| && 0 <= j < |wb| ensures wa[i].0 != wb[j].0 {
      JoinDistinctNames(Join(ctx.outputDir, splits[i].0), ShardFileName(ctx.promptTemplate, a.name),
                        Join(ctx.outputDir, splits[j].0), ShardFileName(ctx.promptTemplate, b.name));
    }
    WriteAllCommute(fs, wa, wb);
  }

  /** With a plain output directory and a plain split name the shard lands at
      `dataset_output_dir/split/<sanitized stem>.jsonl`. */
  lemma ShardPathLayout(outputDir: string, split: string, promptTemplate: string, promptName: string)
    requires |outputDir| > 0 && outputDir[|outputDir| - 1] != '/'
    requires |split| > 0 && '/' !in split
    ensures ShardPath(outputDir, split, promptTemplate, promptName)
      == outputDir + "/" + split + "/" + SanitizedStem(promptTemplate, promptName) + ".jsonl"
  {
  }

  /** A two-example split where the first example renders into a (source,
      target) pair and the second into a single part: the shard holds one
      record, with id 0, and id 1 is absent. */
  lemma SkipScenario()
    ensures var prompt := Prompt("q", (text: string) => if text == "a" then ["Q: a", "A"] else ["only"]);
      var ctx := Context("raw/ds", "ds", None, "ds");
      Project(ctx, prompt, "train", ["a", "b"], 0)
        == [Record(0, "Q: a", "A", "ds", "q", "ds", None, "train")]
  {
  }
}
