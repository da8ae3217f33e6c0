# Prompt projection pipeline — a Dafny model

This project models the core of a batch tool that turns datasets into
prompted (source, target) pairs with PromptSource templates, together with the
catalogue helpers it relies on.

- **Export** (`scripts/project_from_psrc.py`, `export_dataset`). For one template,
  every split of a loaded dataset is rendered example by example. An example
  whose rendering does not have exactly two parts is skipped. Every other
  example becomes a JSONL record. The record carries the example's enumeration
  index as `id`, the two parts as `source`/`target`, and the template, prompt
  name, dataset, subset and split as metadata. Each split's records go to
  `dataset_output_dir/split/<template>.<prompt name>.jsonl`, with `/` and space
  in the stem made `_`. A shard is opened with mode `"w"`, so it replaces
  whatever the path held. The call returns `Completed:: <last shard path>!`.
  The output tree is a map from path to the records in that shard.
- **Driver** (`project_prompt_dataset`, `invoke_none`, `main`).
  - The template selector defaults to `dataset` or `dataset/subset`.
  - The output directory is `raw_output_dir/dataset[/subset]`.
  - Every template the selector resolves to is exported. Templates run one
    after another here, in template order. The source uses a process pool;
    `Export.ExportsCommute` shows the order does not matter when the shard
    file names differ.
  - Command-line lists are checked for equal length. The sentinels `None`,
    `none`, `null` and the empty string become missing values.
- **Catalog** (`promptsource/utils.py`).
  - `removeHyphen` rewrites dictionary keys from `-` to `_`; a later key wins a
    collision.
  - `filter_datasets` has a keep rule: ids without `/` are kept; community ids
    are kept only for included users. Its result is sorted.
  - `list_datasets` merges the filtered ids with the thirteen keys of
    `SERIES_A_DATASET_NAME_DICT`, removes duplicates, and orders the result
    case-insensitively.
- **Features** (`render_features`). A schema is rendered into nested plain
  values. Dictionaries keep their keys, class labels become their names, value
  types become their dtype, and sequences become `{"[]": ...}`. The inverse
  reading is proved to round-trip except on the one ambiguity the encoding has.

Modules:
- `Common`: Option and Result.
- `Text`:
  - single-character `str.replace`;
  - ASCII `str.lower`;
  - `split("/")[0]`;
  - POSIX two-argument `os.path.join`;
  - code-point lexicographic order.
- `Sorting`: insertion sort by key.
- `Export`, `Driver`, `Catalog`, `Features`: as above.

## Hazards in the code

- Two templates whose `template.prompt_name` stems match after sanitization share one shard path (`Export.SanitizationCollides`). In the source their workers open that path with mode `"w"` concurrently.
- A later split can reuse an earlier split's shard path, for example when a split name is absolute. `Export.ExportContents` therefore promises a split's records at its path only when no later split writes the same path.
- In `project_prompt_dataset` and `main`, the `try` around each result covers only the `print`. An exception raised in a worker is re-raised by the `executor.map` iterator in the `for` header, outside that `try`.

## Model

| member | source | states |
|---|---|---|
| Text.JoinShape | scripts/project_from_psrc.py:22-28 | `os.path.join` keeps the last part as a suffix. A relative last part is placed after the directory. A last part that has no separator of its own is preceded by a separator, unless it is the whole path (as in `Join("", name)`). |
| Text.JoinDistinctNames | scripts/project_from_psrc.py:24-28 | Two joins whose file names contain no `/` and differ are different paths, whatever the directories. |
| Text.FirstSegment | promptsource/utils.py:122 | `split("/")[0]` is the longest prefix without `/`. It is all of the string, or it stops right before a `/`. |
| Text.Lower | promptsource/utils.py:500 | The sort key keeps the length. Each capital becomes the small letter 32 code points above it, every other character is kept, and no capital is left. |
| Text.LowerIdempotent | promptsource/utils.py:500 | Lower-casing a lower-cased string changes nothing. |
| Text.LowerIgnoresCase | promptsource/utils.py:500 | Strings that differ only in letter case have the same sort key. |
| Text.ReplaceChar | scripts/project_from_psrc.py:26 | `str.replace` of one character keeps the length and replaces exactly the occurrences of that character. None is left when the replacement differs, and a string without it is unchanged. |
| Text.Join | scripts/project_from_psrc.py:22-28 | No contract; `os.path.join` for two parts, characterised by `Text.JoinShape` and `Text.JoinDistinctNames`. |
| Text.LexLeTotal | promptsource/utils.py:129 | Any two strings are comparable in the order `sorted` uses. |
| Text.LexLeTransitive | promptsource/utils.py:129 | The string order is transitive. |
| Text.LexLeAntisymmetric | promptsource/utils.py:129 | Strings that are mutually at most each other are equal. |
| Sorting.SortBy | promptsource/utils.py:129 | Sorting yields a permutation of the input, in ascending key order. |
| Sorting.SortKeepsTies | promptsource/utils.py:500 | Worked example: `["B", "b"]` sorted by lower-cased key stays `["B", "b"]`, as Python's stable sort leaves it. |
| Export.SanitizedStem | scripts/project_from_psrc.py:26 | The stem is `template.prompt_name` with each `/` and space replaced by `_`, character for character. No `/` or space is left. |
| Export.ShardFileName | scripts/project_from_psrc.py:24-28 | The shard file name contains no `/` or space and ends in `.jsonl`. |
| Export.SanitizationCollides | scripts/project_from_psrc.py:26 | Different (template, prompt name) pairs can share a shard file: `a/b`+`c` and `a_b`+`c`. |
| Export.ShardPath | scripts/project_from_psrc.py:22-28 | No contract; the two nested joins, characterised by `Export.ShardPathLayout` and `Text.JoinDistinctNames`. |
| Export.ShardPathLayout | scripts/project_from_psrc.py:22-28 | For a plain directory and split the shard is at `dir/split/<stem>.jsonl`. |
| Export.Kept | scripts/project_from_psrc.py:38-40 | No contract; the skip rule (exactly two rendered parts), characterised by `Export.ProjectSound`, `Export.ProjectComplete` and `Export.RecordCount`. |
| Export.Project | scripts/project_from_psrc.py:31-51 | Record ids lie within the split and strictly increase, so there are no duplicates. Every id is the index of an example that renders into two parts, so skipped examples leave gaps. |
| Export.ProjectSound | scripts/project_from_psrc.py:38-51 | Each record comes from an example that renders into two parts. Those parts are its source and target, and its metadata is the export's. |
| Export.ProjectComplete | scripts/project_from_psrc.py:38-41 | Every example that renders into two parts has a record. |
| Export.RecordCount | scripts/project_from_psrc.py:30-53 | A shard's ids are exactly the indices of the examples kept by the two-part rule. There is one record per such example. |
| Export.SkipScenario | scripts/project_from_psrc.py:38-40 | Worked example: a one-part rendering is dropped and the kept record keeps its index 0. |
| Export.WriteAll | scripts/project_from_psrc.py:29 | No contract; writes in order, each replacing the path's contents, characterised by the `Export.WriteAll*` lemmas below. |
| Export.WriteAllKeys | scripts/project_from_psrc.py:29 | Writing adds exactly the written paths to the tree. |
| Export.WriteAllLast | scripts/project_from_psrc.py:29 | A path holds the contents of its last write (mode `"w"` truncates). |
| Export.WriteAllElsewhere | scripts/project_from_psrc.py:29 | Paths that are never written keep their contents. |
| Export.WriteAllShadowed | scripts/project_from_psrc.py:29 | A write that a later write to the same path overrides, whatever that write's contents, has no effect. |
| Export.WriteAllUntouched | scripts/project_from_psrc.py:29 | A write to a path nothing else touches can be moved last. |
| Export.WriteAllIdempotent | scripts/project_from_psrc.py:29 | Replaying the same writes changes nothing. |
| Export.WriteAllCommute | scripts/project_from_psrc.py:29 | Writes to disjoint paths commute. |
| Export.ExportDataset | scripts/project_from_psrc.py:10-54 | The returned marker is `Completed:: <path>!` for the shard of the last split. |
| Export.ExportContents | scripts/project_from_psrc.py:18-53 | The paths afterwards are the old paths plus every split's shard path. A split's path holds that split's records unless a later split writes the same path. Every other path keeps its contents. |
| Export.ExportIdempotent | scripts/project_from_psrc.py:29 | Running an export twice leaves the same tree and marker as running it once. |
| Export.ExportsCommute | scripts/project_from_psrc.py:85-95 | Exports of two templates with different file names give the same tree in either order. |
| Driver.ResolveSelector | scripts/project_from_psrc.py:61-65 | The selector is the caller's, else the dataset name, else `dataset/subset` when a subset is given. |
| Driver.OutputDir | scripts/project_from_psrc.py:66-70 | No contract; characterised by `Driver.OutputDirFollowsSelector`. |
| Driver.OutputDirFollowsSelector | scripts/project_from_psrc.py:66-70 | For plain names (a raw directory and dataset name that do not end in `/`, and a dataset and subset name that do not start with `/`), the output directory is `raw/dataset` or `raw/dataset/subset`, which equals the raw directory joined with the default selector. |
| Driver.Normalise | scripts/project_from_psrc.py:106-107 | An element becomes missing exactly when it is one of the four sentinels. Anything else is unchanged. |
| Driver.InvokeNone | scripts/project_from_psrc.py:104-108 | Normalises every element in place and returns the same list. |
| Driver.PrepareJobs | scripts/project_from_psrc.py:149-154 | Fails exactly when the three lists differ in length. Otherwise each job field is missing exactly for a sentinel and is the input token otherwise. |
| Driver.Markers | scripts/project_from_psrc.py:84-101 | There is one marker per template, in template order. Each names that template's shard of the last split. |
| Driver.ExportAll | scripts/project_from_psrc.py:85-97 | No contract; the exports of all templates in template order, characterised by `Driver.ExportAllKeepsShard`. |
| Driver.ExportAllKeepsShard | scripts/project_from_psrc.py:85-97 | With distinct file names, a template's shard of a split, when no later split writes the same path, survives all the exports with that template's records. |
| Driver.ProjectPromptDataset | scripts/project_from_psrc.py:57-101 | There are as many markers as resolved templates. Each is built from the derived output directory, the last split and the resolved selector. The tree it returns is characterised by `Driver.ProjectPromptDatasetKeepsShard`. |
| Driver.ProjectPromptDatasetKeepsShard | scripts/project_from_psrc.py:61-97 | With distinct file names, the tree it returns holds, for each resolved template and each split that no later split overwrites, the shard at `ShardPath(OutputDir, split, selector, prompt name)`, which is `OutputDir/split/<stem>.jsonl` for plain names (`Export.ShardPathLayout`), with that template's records for the split, carrying the dataset, subset and resolved selector as metadata. |
| Catalog.GetFound | promptsource/utils.py:16-18 | A key is found exactly when present. With distinct keys, the value found is that key's entry. |
| Catalog.PutSpec | promptsource/utils.py:14-18 | Assignment adds the key and keeps keys distinct. A new key is appended. Any other entry is an old one. |
| Catalog.Dehyphen | promptsource/utils.py:14-15 | A rewritten key has no `-`. A key without `-` is unchanged. |
| Catalog.RemoveHyphen | promptsource/utils.py:11-20 | The result's keys are distinct and hyphen-free. |
| Catalog.RemoveHyphenKeys | promptsource/utils.py:11-20 | The result's keys are exactly the input keys with `-` made `_`. |
| Catalog.RemoveHyphenValues | promptsource/utils.py:13-18 | Each rewritten key holds the value of the last input entry that rewrites to it. |
| Catalog.RemoveHyphenEntriesFromInput | promptsource/utils.py:13-18 | Every result entry is an input entry with its key rewritten. Values are never invented. |
| Catalog.LaterKeyWins | promptsource/utils.py:13-18 | `{"a_b": 1, "a-b": 2}` becomes `{"a_b": 2}`. |
| Catalog.RemoveHyphenFixedPoint | promptsource/utils.py:11-20 | Distinct hyphen-free keys are left exactly as they are. |
| Catalog.RemoveHyphenIdempotent | promptsource/utils.py:11-20 | Applying it twice is the same as once. |
| Catalog.Keep | promptsource/utils.py:120-127 | No contract; the keep rule, characterised by `Catalog.KeepIds`, `Catalog.FilterDatasets` and `Catalog.ListDatasets`. |
| Catalog.KeepIds | promptsource/utils.py:119-127 | Each id is kept with its multiplicity when it has no `/` or its user is included, and dropped otherwise. |
| Catalog.FilterDatasets | promptsource/utils.py:103-129 | The result is sorted and holds exactly the kept ids with their multiplicities. |
| Catalog.Dedupe | promptsource/utils.py:499 | Each element of the input occurs exactly once. |
| Catalog.ListDatasets | promptsource/utils.py:493-501 | A name is listed exactly when it is a kept registry id or a custom dataset. No name repeats, and the list is in lower-cased order. |
| Catalog.ListsEverySeriesADataset | promptsource/utils.py:493-498 | Every key of the series-A dictionary is listed, whatever the registry returns. |
| Features.Render | promptsource/utils.py:83-95 | Dictionaries keep their keys in order. A class label becomes its names and a value its dtype. A sequence becomes a one-entry `[]` dictionary, and anything else is returned unchanged. |
| Features.Unrender | promptsource/utils.py:83-95 | The reading back maps names, dtypes and kept objects to their features. A dictionary reads as a sequence exactly when its only key is `[]`. |
| Features.RenderRoundTrip | promptsource/utils.py:83-95 | A schema with no dictionary keyed only by `[]` is recovered from its rendering. |
| Features.UnrenderRoundTrip | promptsource/utils.py:83-95 | Every well-formed rendered value is the rendering of its reading. |
| Features.RenderWellFormed | promptsource/utils.py:83-95 | Every rendering is well-formed. |
| Features.SequenceCollidesWithDict | promptsource/utils.py:92-93 | `Sequence(x)` and the dictionary `{"[]": x}` are different schemas with the same rendering. |

## Left out

- Loading datasets (`datasets.load_dataset`), creating directories, JSON serialisation, progress bars and printing are left out. The model keeps the records and paths, not bytes on disk.
- The process pools in `project_prompt_dataset` and `main` are left out. Work runs sequentially in template order. `Export.ExportsCommute` and `Driver.ExportAllKeepsShard` cover only templates with distinct shard file names, where order does not matter. Worker failures and exception messages are not modelled.
- Driver.ExportAll: templates whose file names collide race on the same file in the source, and the file's final contents depend on which worker writes last. The model writes in template order, so the last template wins; this is only one of the outcomes the source allows.
- `DatasetTemplates` and template rendering are left out. The template catalogue is a parameter (`templates`), and each template's `apply` is an oracle function. As in `prompt.apply(sample)`, it receives the example and nothing else.
- `main`'s argument parsing and the dispatch to `project_prompt_dataset` are left out. `Driver.PrepareJobs` ends with the zipped jobs.
- Export.ExportDataset: a dataset with no splits is excluded by a precondition. The source then formats the marker from a variable it never bound and fails.
- Driver.ProjectPromptDataset: it requires at least one split when the selector resolves to templates, for the same reason.
- Network paging in `filter_datasets` is left out. The registry ids are a parameter, and `INCLUDED_USERS` is a parameter set.
- Catalog.ListDatasets: does not fix an order among names whose lower-cased forms are equal. Python's `list(set(...))` order depends on string hashing; the model takes the first occurrence and then sorts.
- Text.Lower: lower-cases ASCII letters only, because full Unicode case mapping is out of scope.
- `get_dataset_builder`, `get_dataset`, `get_dataset_confs` and `renameDatasetColumn` are left out. They only call into the `datasets` library.
- The configuration lists in `SERIES_A_DATASET_NAME_DICT` are left out; only its keys are used.
- Features.Render: the source's `Other` kinds are collapsed into one opaque constructor.
