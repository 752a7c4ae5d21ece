# conda-kapsel project configuration core, modelled in Dafny

This project models the part of conda-kapsel that turns a project's
`kapsel.yml` into env specs, commands and a problem list:

- `EnvSpec`, the description of one conda environment. It has its own
  conda packages, channels and pip packages, and an optional parent named
  by `inherit_from`.
- How an env spec's effective lists are combined over its parent's, with
  the last duplicate winning.
- Its description, its content hash, its path under the project directory,
  and the project-file section it writes back.
- Importing an `environment.yml` (or `environment.yaml`) file as an
  EnvSpec, and the test for whether that file is out of sync with the
  project.
- The configuration cache `_ConfigCache`: its `_update_name`,
  `_update_env_specs` (with its inner parsers and its `make_env_spec`
  resolution), `_update_commands` and `_add_notebook_commands`; also
  `ProjectProblem.can_fix` and `_make_problems_into_objects`.

Inherited lists are modelled twice. As written, `_combine_keeping_last_duplicate`
adds the child's own stored tuple to a list (conda_kapsel/env_spec.py:29),
which raises `TypeError` for every env spec with a parent. The members whose
names end in `AsWritten` model that: they give `Raises` exactly where the
source raises. The rest of the model uses the evidently intended
combination, the parent's effective list with the child's entries winning.
"## Findings" shows both.

Parsed YAML is the `Values.Yaml` datatype. A mapping is an ordered list of
entries, and the model iterates a mapping in that order. Problems are
the structured `Problems.Issue` they report, not formatted message text. A
problem object records which fix it offers and what declining it does.

The modules follow the source:

| module | file | models |
|---|---|---|
| `Values` | `values.dfy` | YAML values, dictionary lookup, Python truthiness |
| `Text` | `text.dfy` | `str.strip`, `os.path.basename`, `os.path.join`, string order, `sorted(...)[0]` |
| `EnvSpecs` | `env_spec.dfy` | `EnvSpec` and `_combine_keeping_last_duplicate` |
| `EnvironmentYml` | `environment_yml.dfy` | `_load_environment_yml`, `_find_out_of_sync_environment_yml_spec` |
| `Problems` | `problems.dfy` | `ProjectProblem`, `_make_problems_into_objects` |
| `ProjectEnvSpecs` | `project_env_specs.dfy` | `_update_name`, `_update_env_specs` |
| `ProjectCommands` | `project_commands.dfy` | `_update_commands`, `_add_notebook_commands` |

Inputs the source obtains from its surroundings become parameters:

- the conda `meta.yaml` name and app entry;
- the project directory path and its file listing;
- the two environment files, each read and parsed or failed;
- SHA-1 as a function `digest` from the hashed text to its hex string;
- the conda and pip `parse_spec` validity tests as predicates.

## Model

| member | source | states |
|---|---|---|
| EnvSpecs.Combine | conda_kapsel/env_spec.py:21-30 | the overrides end the result in order; no earlier entry shares a key with an override; the earlier entries are the base's unclaimed entries in base order; an entry is in the result iff it is an override or a base entry whose key no override claims |
| EnvSpecs.CombineCounts | conda_kapsel/env_spec.py:21-30 | each value occurs as often as in the overrides, plus as often as in the base when no override claims its key |
| EnvSpecs.CombineIdempotent | conda_kapsel/env_spec.py:21-30 | combining the same overrides a second time changes nothing |
| EnvSpecs.CombineAbsorbsBase | conda_kapsel/env_spec.py:21-30 | combining a base over a result that already contains it changes nothing |
| EnvSpecs.CombineIdentities | conda_kapsel/env_spec.py:21-30 | an empty list on either side gives back the other list |
| EnvSpecs.CombineKeysDistinct | conda_kapsel/env_spec.py:21-30 | combining two duplicate-free lists gives a duplicate-free list |
| EnvSpecs.UnclaimedAppend | conda_kapsel/env_spec.py:26-29 | filtering out claimed keys distributes over concatenation |
| EnvSpecs.New | conda_kapsel/env_spec.py:36-68 | the constructor succeeds iff there is no parent or the parent's name is `inherit_from_name`; it stores its arguments; a well-formed parent gives a well-formed spec |
| EnvSpecs.Description | conda_kapsel/env_spec.py:76-81 | the given description when there is one, else the name |
| EnvSpecs.Effective | conda_kapsel/env_spec.py:102-123 | the intended combination: without a parent the own list; otherwise the own list ends the effective list (EffectiveAsWritten gives the code as written) |
| EnvSpecs.EffectiveFromRoot | conda_kapsel/env_spec.py:102-108 | the effective list folds `Combine` down the ancestor chain, from the root to the spec |
| EnvSpecs.ThreeGenerations | conda_kapsel/env_spec.py:102-108 | a grandchild's list is the grandparent's combined with the parent's, then with its own |
| EnvSpecs.EffectiveEntriesAreDeclared | conda_kapsel/env_spec.py:102-123 | every effective entry is declared by the spec or one of its ancestors |
| EnvSpecs.ChildEntryWins | conda_kapsel/env_spec.py:102-108 | an entry the child declares once occurs once in the effective list, inside the child's own part |
| EnvSpecs.CombineAsWritten | conda_kapsel/env_spec.py:21-30 | `list + items2` raises iff `items2` is a tuple; with a list it is the combine rule |
| EnvSpecs.CombineWithListAgrees | conda_kapsel/env_spec.py:21-30 | a list as `items2` gives the combine rule, a tuple raises |
| EnvSpecs.EffectiveAsWritten | conda_kapsel/env_spec.py:29 | reading an inherited list raises iff the spec has a parent; otherwise it is the own list, the same as Effective |
| EnvSpecs.InheritedListRaises | conda_kapsel/env_spec.py:102-108 | for `b` inheriting `[x]` from `a` and declaring `[y]`, the code as written raises while the intended list is `[x, y]` |
| EnvSpecs.HashInputIsOneRun | conda_kapsel/env_spec.py:83-100 | the hash digests the effective conda, pip and channel lists as one run of strings |
| EnvSpecs.ChannelsAndPackagesHash | conda_kapsel/env_spec.py:83-100 | over the intended lists: the digest of the effective conda packages, then the pip packages, then the channels, written one after another |
| EnvSpecs.HashAsWritten | conda_kapsel/env_spec.py:83-100 | raises iff the spec has a parent; otherwise the intended hash |
| EnvSpecs.HashSeesOnlyConcatenation | conda_kapsel/env_spec.py:83-100 | two specs whose concatenated entries agree have the same hash |
| EnvSpecs.SegmentationCollision | conda_kapsel/env_spec.py:92-98 | entries are joined without separators, so `[ab, c]` and `[a, bc]` hash alike, whatever their names |
| EnvSpecs.EmptyChildHashesLikeParent | conda_kapsel/env_spec.py:83-123 | a child that adds nothing hashes like its parent |
| EnvSpecs.Path | conda_kapsel/env_spec.py:151-153 | an absolute name is the path itself; otherwise the path is the project directory (with one `/` added unless it is empty or already ends in one), then `envs/`, then the name; a slash-free name is the base name of the path |
| Text.PathJoin | conda_kapsel/env_spec.py:151-153 | `os.path.join`: an absolute second part replaces the first; otherwise the result is the first part as a directory followed by the second; a slash-free second part is the base name of the result |
| Text.AsDirectory | conda_kapsel/env_spec.py:151-153 | the directory part `os.path.join` writes: the path itself when empty or ending in `/`, else the path and one `/` |
| Text.JoinBelow | conda_kapsel/env_spec.py:151-153 | for a non-empty sub-directory with no `/` at either end, the joined directory starts with `dir`, and joining a relative name below it gives `dir` as a directory, the sub-directory, one `/` and the name, which also starts with `dir` |
| EnvSpecs.SectionJson | conda_kapsel/env_spec.py:166-176 | `packages` holds the conda specs followed by one `pip` dictionary when there are pip specs; `channels`; `inherit_from` present iff there is a parent name |
| EnvSpecs.ToJson | conda_kapsel/env_spec.py:166-176 | over the intended lists: `packages` holds the effective conda packages followed by one `pip` dictionary when there are pip packages, `channels` the effective channels, and `inherit_from` the parent name, present iff there is one; no key twice |
| EnvSpecs.ToJsonAsWritten | conda_kapsel/env_spec.py:166-176 | raises iff the spec has a parent; otherwise the intended section |
| ProjectEnvSpecs.ToJsonReadsBack | conda_kapsel/env_spec.py:166-176 | reading the written section back with the project-file parsers gives the effective lists and parent name with no problems |
| EnvironmentYml.LoadEnvironmentYml | conda_kapsel/env_spec.py:179-229 | no spec iff the file could not be read or parsed; the name rule; the conda entries are the string dependencies in order, the pip entries the strings of the `pip` lists in order, the channels the string channels in order; no parent and no description |
| EnvironmentYml.EnvironmentName | conda_kapsel/env_spec.py:188-196 | a truthy `name`, else a non-empty base name of a truthy `prefix`, else the file's base name |
| EnvironmentYml.PipStrings | conda_kapsel/env_spec.py:216-222 | a string is collected iff it appears in the `pip` list of some dependency dictionary; a single dependency contributes exactly the strings of its `pip` list, in order |
| EnvironmentYml.PipStringsAppend | conda_kapsel/env_spec.py:216-222 | the pip strings of two dependency lists are those of the first followed by those of the second, so every `pip` list is taken in turn, duplicates kept |
| EnvironmentYml.LoadKeepsOrder | conda_kapsel/env_spec.py:207-229 | a file whose dependencies and channels are plain strings is imported with exactly those lists, in order with duplicates, and no pip packages |
| EnvironmentYml.LoadedSpecStandsAlone | conda_kapsel/env_spec.py:179-229 | a loaded spec's effective lists are the lists it read, and it is well formed |
| EnvironmentYml.LoadExample | conda_kapsel/env_spec.py:179-229 | a concrete file with a name, a conda package, a pip list and a channel |
| EnvironmentYml.PrefixNameExample | conda_kapsel/env_spec.py:188-196 | without a name, `prefix: /opt/envs/myenv` names the spec `myenv` |
| EnvironmentYml.HasSyncedCopy | conda_kapsel/env_spec.py:238-242 | true iff some known spec has the same name and the same hash |
| EnvironmentYml.FindOutOfSyncSpec | conda_kapsel/env_spec.py:232-243 | nothing iff loading failed or a known spec is in sync with the loaded one; otherwise the loaded spec |
| EnvironmentYml.SyncScanAsWritten | conda_kapsel/env_spec.py:238-242 | a search that completes answers whether some known spec is in sync; it raises only when some known spec of the name has a parent |
| EnvironmentYml.SyncScanRaises | conda_kapsel/env_spec.py:238-242 | with no known spec of the name that has a parent, the search answers as HasSyncedCopy; with one and no spec in sync, it raises |
| EnvironmentYml.FindOutOfSyncSpecAsWritten | conda_kapsel/env_spec.py:232-243 | raises only when the file loads and a known spec of its name has a parent, and always then if the file is out of sync; otherwise the same as FindOutOfSyncSpec |
| EnvironmentYml.SyncTestRaisesExample | conda_kapsel/env_spec.py:238-242 | with `b` inheriting from `a`, a loaded `b` makes the search raise |
| Problems.CanFix | conda_kapsel/project.py:52-55 | a problem can be fixed iff it offers a fix |
| Problems.MakeProblemsIntoObjects | conda_kapsel/project.py:74-81 | one object per entry in order, reporting the same issue; objects are kept unchanged; messages become problems with no fix and no decline action |
| ProjectEnvSpecs.UpdateName | conda_kapsel/project.py:144-164 | the project file's non-blank string name, else a string meta.yaml name, else the directory's base name; one problem for a present unusable name, which comes first; one for a non-string meta name when it is consulted, which comes last |
| ProjectEnvSpecs.SortItems | conda_kapsel/project.py:300-308 | every item is cleaned, special or a problem; the cleaned items are the stripped strings in order; the special items are the non-string items the filter accepts |
| ProjectEnvSpecs.SortItemsProblems | conda_kapsel/project.py:305-307 | each problem reports a list item that is neither a string nor special |
| ProjectEnvSpecs.SortItemsAppend | conda_kapsel/project.py:300-308 | sorting a concatenation concatenates the three results |
| ProjectEnvSpecs.ParseStringListWithSpecial | conda_kapsel/project.py:292-308 | a non-list value gives one problem and empty results; a list is sorted item by item; every cleaned item is stripped |
| ProjectEnvSpecs.InvalidSpecs | conda_kapsel/project.py:319-333 | no problems iff every spec is valid; every invalid spec is reported; no more problems than specs |
| ProjectEnvSpecs.InvalidSpecsSound | conda_kapsel/project.py:319-333 | every problem reports a rejected spec of the list, with the conda or pip message as the list is |
| ProjectEnvSpecs.InvalidSpecsOne | conda_kapsel/project.py:319-333 | a single spec gives no problem when it parses and exactly its own problem otherwise |
| ProjectEnvSpecs.InvalidSpecsAppend | conda_kapsel/project.py:319-333 | the problems of two spec lists are those of the first followed by those of the second; with the single-spec case, one problem per rejected spec, in spec order |
| ProjectEnvSpecs.PipFromDictsAppend | conda_kapsel/project.py:324-327 | the pip lists of several dictionaries are concatenated in order |
| ProjectEnvSpecs.ParsePackages | conda_kapsel/project.py:316-335 | the conda specs are the cleaned `packages` strings, after that list's problems; every invalid conda or pip spec is reported |
| ProjectEnvSpecs.ParsePackagesInOrder | conda_kapsel/project.py:316-335 | the pip specs are the `pip` lists of the set-aside dictionaries in order; the problems are, in order, the `packages` list's own, one per rejected conda spec, those of the `pip` lists, one per rejected pip spec |
| ProjectEnvSpecs.ParseChannels | conda_kapsel/project.py:310-314 | nothing is set aside; a non-list `channels` gives no channels and exactly its one problem; a list gives its stripped strings in order, and one problem for each other item |
| ProjectEnvSpecs.SortNothingSpecial | conda_kapsel/project.py:310-311 | the filter of `_parse_string_list` sets no item aside |
| ProjectEnvSpecs.PipFromOneDict | conda_kapsel/project.py:324-327 | one dictionary contributes exactly the cleaned strings and the problems of its own `pip` list |
| ProjectEnvSpecs.SectionJsonReadsBack | conda_kapsel/project.py:316-335 | parsing a written section gives back its conda specs, pip specs, channels and parent name |
| ProjectEnvSpecs.AcceptedEntries | conda_kapsel/project.py:347-360 | the kept entries, in order: non-blank name, mapping attributes, string or missing `description` and `inherit_from` |
| ProjectEnvSpecs.AcceptedNames | conda_kapsel/project.py:347-379 | a name is kept iff some entry with that name passes the checks |
| ProjectEnvSpecs.FirstAcceptedEntry | conda_kapsel/project.py:378-379 | the first kept entry is the earliest entry that passes the checks |
| ProjectEnvSpecs.EntryProblems | conda_kapsel/project.py:347-362 | a blank name, a non-string description or a non-string `inherit_from` is reported alone, checked in that order; a kept entry reports exactly its package problems followed by its channel problems |
| ProjectEnvSpecs.AttrsOf | conda_kapsel/project.py:361-376 | the stored lists are the shared top-level lists followed by the entry's own; description and parent name as written |
| ProjectEnvSpecs.CollectEnvSpecs | conda_kapsel/project.py:343-379 | one attribute record per kept entry, in order, each the attributes of that entry: the shared lists followed by its own, and its description and parent name as written |
| ProjectEnvSpecs.TableOf | conda_kapsel/project.py:370-376 | the table holds exactly the kept names, each with its own record |
| ProjectEnvSpecs.TableKeepsAccepted | conda_kapsel/project.py:370-376 | a record whose name no earlier record uses is the one stored under its name |
| ProjectEnvSpecs.KeptSpecsHoldAttrs | conda_kapsel/project.py:370-416 | once every kept name is resolved, the spec under each kept entry's name holds that entry's lists, description and parent name |
| ProjectEnvSpecs.MakeEnvSpec | conda_kapsel/project.py:387-412 | a built spec is returned as it is; a name already on the trail reports the cycle and builds without a parent; an unknown parent is reported and the spec has no parent; a known parent is built first and becomes the parent; earlier built specs are kept |
| ProjectEnvSpecs.MutualInheritanceExample | conda_kapsel/project.py:387-412 | with `a` and `b` inheriting from each other, resolving `a` reports one cycle; `b` keeps a parentless `a`, and `a` ends up with parent `b` |
| ProjectEnvSpecs.ResolveAll | conda_kapsel/project.py:414-416 | every kept name is built, earlier results are kept, and only table names are built |
| ProjectEnvSpecs.ParentIsNamedAcceptedSpec | conda_kapsel/project.py:399-410 | a built spec's parent is the spec its `inherit_from` names, and that name is kept |
| ProjectEnvSpecs.ResolveSection | conda_kapsel/project.py:341-416 | a non-mapping section gives its problem and no specs; otherwise the specs are exactly the kept names, each well formed, every parent is among them, and the spec under each kept entry's name holds that entry's attributes |
| ProjectEnvSpecs.BuildEnvSpecs | conda_kapsel/project.py:337-416 | the shared top-level packages are parsed first, then the section is resolved as above; the spec under each kept entry's name holds the top-level lists followed by the entry's own, and the entry's description and parent name |
| ProjectEnvSpecs.OutOfSyncEnvFile | conda_kapsel/project.py:422-428 | `environment.yml` is consulted first, `environment.yaml` only when the first yields nothing |
| ProjectEnvSpecs.OutOfSyncEnvFileAsWritten | conda_kapsel/project.py:422-428 | an answer is the one OutOfSyncEnvFile gives; with no known spec that has a parent it always answers; a raise needs a known spec with a parent |
| ProjectEnvSpecs.ImportProblems | conda_kapsel/project.py:430-471 | an import not skipped by its hash gives one problem that offers to overwrite the spec with the file's section and remembers the hash when declined; it reports "out of sync" iff a spec of that name exists; otherwise one "empty env_specs" problem iff the section is empty or missing |
| ProjectEnvSpecs.EnvFileProblems | conda_kapsel/project.py:422-471 | at most one problem; an empty or missing section always gives exactly one; no problem only when the section has entries or an out-of-sync environment file is found |
| ProjectEnvSpecs.EnvFileProblemsExact | conda_kapsel/project.py:422-471 | an out-of-sync file not skipped by its hash gives the one import problem, which overwrites the spec of that name with the file's section, remembers the hash when declined, and reports "out of sync" iff a spec of that name exists; otherwise an empty or missing section gives exactly the empty-section problem and anything else gives none |
| ProjectEnvSpecs.SkippedImport | conda_kapsel/project.py:431-432 | the value under `skip_imports` then `environment_yml`, or None when either level is missing or `skip_imports` is not a mapping |
| ProjectEnvSpecs.DefaultEnvSpecName | conda_kapsel/project.py:475-478 | `default` when such a spec exists, else the first kept name |
| ProjectEnvSpecs.DefaultNamesASpec | conda_kapsel/project.py:475-478 | the default names a spec, and there is none only when there are no specs |
| ProjectEnvSpecs.UpdateEnvSpecs | conda_kapsel/project.py:291-478 | the specs are exactly the kept names, each stored under its name and well formed, closed under parents; none for a non-mapping section; each kept entry's spec holds its lists (the top-level ones first), description and parent name; the section problems come first and at most one more follows |
| ProjectEnvSpecs.UpdateEnvSpecsAsWritten | conda_kapsel/project.py:422-428 | raises iff the environment-file check raises; otherwise the same outcome as UpdateEnvSpecs |
| ProjectEnvSpecs.UpdateEnvSpecsRaisesOnlyWithParents | conda_kapsel/project.py:291-478 | when no built env spec has a parent, the code as written gives exactly what UpdateEnvSpecs gives |
| ProjectEnvSpecs.UpdatedDefaultEnvSpec | conda_kapsel/project.py:378-379 | without a `default` spec the default is the first kept entry; it always names a spec; there is none iff there are no specs |
| ProjectEnvSpecs.UpdatedSpecContents | conda_kapsel/project.py:316-379 | the spec of a kept entry has the top-level conda packages, channels and pip packages followed by the entry's own, and the entry's `description` and `inherit_from` |
| ProjectEnvSpecs.UpdatedTrailingProblem | conda_kapsel/project.py:418-471 | the build problems come first; an empty or missing section adds exactly one more, the empty-section problem unless an import is offered, and an offered import is the one added problem and overwrites the spec with the file's section |
| ProjectCommands.WithEnvSpec | conda_kapsel/project.py:541-544 | `env_spec` is the command's own when given, else the default env spec's name; every other attribute is unchanged |
| ProjectCommands.CopiedCommandLine | conda_kapsel/project.py:541-559 | adding `env_spec` does not change whether the command line is valid |
| ProjectCommands.TypeProblems | conda_kapsel/project.py:548-556 | no problems iff every present command type holds a string; each problem names a present non-string type |
| ProjectCommands.TypesInNoDuplicates | conda_kapsel/project.py:546-559 | the collected command types never repeat |
| ProjectCommands.NoTypesIff | conda_kapsel/project.py:561-564 | no types are collected iff the command has no command line |
| ProjectCommands.MultipleIff | conda_kapsel/project.py:566-573 | the multiple-commands check fires iff `notebook` or `bokeh_app` appears with another type |
| ProjectCommands.RemoveFirst | conda_kapsel/project.py:568-569 | `list.remove` drops exactly one occurrence of a present value and keeps every other value |
| ProjectCommands.RemoveFirstDropsFirst | conda_kapsel/project.py:568-569 | the value dropped is its first occurrence: the result is the list with exactly that position cut out |
| ProjectCommands.FieldProblems | conda_kapsel/project.py:520-539 | no problems iff `description` is a string, `supports_http_options` a boolean and `env_spec` a known name, each when present; an unknown env spec is reported last |
| ProjectCommands.CommandLineProblems | conda_kapsel/project.py:546-573 | no problems iff the command line is valid; a missing command line is the one problem; an exclusive type with others is reported last |
| ProjectCommands.CheckEntry | conda_kapsel/project.py:507-573 | an entry adds no problems iff it is a valid command; a mapping stores its attributes with the defaulted `env_spec` |
| ProjectCommands.CheckEntryStopsEarly | conda_kapsel/project.py:507-518 | a blank name or non-mapping attributes are reported alone |
| ProjectCommands.ScanCommands | conda_kapsel/project.py:506-577 | failed iff some entry is invalid; the kept names are those before the first failure; each kept command comes from an entry of its name; problems only grow, and stay unchanged iff every entry is valid |
| ProjectCommands.AllValidKeepsEveryName | conda_kapsel/project.py:576-577 | when every entry is valid, every entry's name is kept |
| ProjectCommands.FirstCommandNameIsFirst | conda_kapsel/project.py:511-512 | the first name is the earliest non-blank name, and there is none iff every name is blank |
| ProjectCommands.FirstCommandName | conda_kapsel/project.py:507-512 | a name found is non-blank and names an entry of the section |
| ProjectCommands.AddNotebookCommands | conda_kapsel/project.py:606-627 | nothing changes when listing failed; otherwise the names grow by the listed non-hidden `.ipynb` files, existing commands are unchanged, and each new one is a generated notebook command |
| ProjectCommands.AddNotebooks | conda_kapsel/project.py:614-627 | existing commands are unchanged; the names grow by exactly the listed non-hidden `.ipynb` files; each new command is the generated notebook command |
| ProjectCommands.NotebookFileExamples | conda_kapsel/project.py:614-621 | only names starting with a dot are dropped: `sub/.draft.ipynb` is a notebook while `.draft.ipynb`, `.ipynb_checkpoints/a.ipynb` and `analysis.py` are not |
| ProjectCommands.NotebookCommand | conda_kapsel/project.py:621-627 | named after the file, with exactly three attributes: `notebook` the file, `auto_generated` true and `env_spec` the default env spec name (None when there is none) |
| ProjectCommands.MetaCommand | conda_kapsel/project.py:585-590 | named `default`, with exactly three attributes: `conda_app_entry` the entry, `auto_generated` true and `env_spec` the default env spec name |
| ProjectCommands.NotebookCommandHasOneType | conda_kapsel/project.py:621-627 | a generated notebook command names exactly the `notebook` type |
| ProjectCommands.MetaCommandHasOneType | conda_kapsel/project.py:585-592 | the command from the meta.yaml app entry names exactly the `conda_app_entry` type |
| ProjectCommands.ScanSection | conda_kapsel/project.py:490-577 | failed iff the app entry or the section fails a check; no problems iff nothing failed; a bad app entry is reported first, a non-mapping section last; without a failure the kept names are the section's names |
| ProjectCommands.UpdateCommands | conda_kapsel/project.py:487-604 | no problems iff nothing fails; no commands after a failure; `default` is the default command when it exists, else the first section name |
| ProjectCommands.UpdatedCommandNames | conda_kapsel/project.py:579-592 | without a failure the commands are the section's and the listed notebooks, or only the meta.yaml app entry's `default` when there are none of those |
| ProjectCommands.UpdatedCommandContents | conda_kapsel/project.py:576-627 | without a failure each section command comes from its entry and each unnamed listed notebook gets a generated command |
| ProjectCommands.MetaAppEntryIsDefault | conda_kapsel/project.py:585-604 | with only a string app entry, its command is the only command and the default |
| ProjectCommands.DefaultCommandIsACommand | conda_kapsel/project.py:594-604 | without a failure there is a default iff there is a command; it is a command; with no section names it is the least name in sort order |
| ProjectCommands.DefaultCommandAfterFailure | conda_kapsel/project.py:581-604 | after a failure the commands are dropped, but the first section name is still chosen as the default |
| Text.Strip | conda_kapsel/project.py:301-302 | the result has no surrounding whitespace, is empty iff the input is all whitespace, and leaves a stripped string unchanged |
| Text.StripIdempotent | conda_kapsel/project.py:301-302 | stripping twice is stripping once |
| Text.StripIsInfix | conda_kapsel/project.py:301-302 | the stripped string is an infix of the input, and only white space is cut off either end |
| Text.Basename | conda_kapsel/env_spec.py:192-196 | `os.path.basename`: the suffix after the last `/`; it contains no `/`, and a `/` precedes it when it is shorter than the path |
| Text.Least | conda_kapsel/project.py:594-597 | `sorted(names)[0]`: a name of the set that no other name precedes in string order |
| Text.BasenameOfLastComponent | conda_kapsel/env_spec.py:192-196 | the base name of a path is its last component |
| Text.LeastUnique | conda_kapsel/project.py:594-597 | the first element of the sorted names is the one name no other name precedes |

## Left out

- EnvSpecs.Effective: it is the intended combination. As written, reading an inherited list raises on every spec with a parent (EnvSpecs.EffectiveAsWritten; see "## Findings").
- EnvSpecs.EffectiveFromRoot: the fold it states is the intended combination; as written, a spec with a parent raises instead (EnvSpecs.EffectiveAsWritten).
- EnvSpecs.ThreeGenerations: states the intended lists of a grandchild; as written, reading them raises.
- EnvSpecs.EffectiveEntriesAreDeclared: states where the intended inherited entries come from; as written, a spec with a parent has no inherited list, because reading it raises.
- EnvSpecs.ChildEntryWins: states the intended list of a child; as written, reading it raises.
- EnvSpecs.ChannelsAndPackagesHash: the intended hash; as written it raises on a spec with a parent (EnvSpecs.HashAsWritten).
- EnvSpecs.EmptyChildHashesLikeParent: requires a parent, so it states intended behaviour only; as written, the child's hash raises.
- EnvSpecs.ToJson: the intended section; as written it raises on a spec with a parent (EnvSpecs.ToJsonAsWritten). Within this model it is applied only to a spec loaded from an environment file, which never has a parent.
- ProjectEnvSpecs.ToJsonReadsBack: for a spec with a parent it describes the intended section; as written, `to_json` raises on such a spec.
- EnvironmentYml.HasSyncedCopy: the intended sync test; as written, reaching a known spec of the same name with a parent raises (EnvironmentYml.SyncScanAsWritten).
- EnvironmentYml.FindOutOfSyncSpec: the intended search; as written it raises when a known spec of the loaded name has a parent (EnvironmentYml.FindOutOfSyncSpecAsWritten).
- ProjectEnvSpecs.UpdateEnvSpecs: the intended outcome; as written, the environment-file check raises when the file names an env spec with a parent (ProjectEnvSpecs.UpdateEnvSpecsAsWritten), and never in a project without inheritance (ProjectEnvSpecs.UpdateEnvSpecsRaisesOnlyWithParents).

- `EnvSpec.diff_from` and the diff text of the out-of-sync problem: these use `difflib` and only format a message.
- Problem message text, file names in messages and fix prompts: each problem is the `Issue` it reports.
- The fix and decline functions: a problem records which fix it offers, with the spec, section and hash these functions would write. The writes to the project file are not modelled.
- `conda_api.parse_spec` and `pip_api.parse_spec`: they are the validity predicates `validConda` and `validPip`. Name sets and the requirement classes built from env specs are not part of this model.
- SHA-1 and UTF-8 encoding: they are the `digest` parameter. Caching the hash on the object does not change a pure value.
- Reading and YAML-parsing the project file, `meta.yaml` and the environment files: these happen before the model starts. YAML floats and other scalar types beyond null, bool, int and string are not modelled.
- The directory listing behind `_add_notebook_commands` is an `Option` parameter. A failed listing is `None`, which adds no commands. The problems the lister itself reports are not modelled.
- EnvironmentYml.LoadEnvironmentYml: requires a truthy `name` to be a string, and a truthy `prefix` to be a string when it is consulted. The source would store a non-string name or raise inside `os.path.basename`. The document must be a mapping.
- ProjectEnvSpecs.UpdateEnvSpecs: requires each non-blank env spec name to map to a mapping, since the source raises on `attrs.get` otherwise. Section keys are strings.
- ProjectCommands.UpdateCommands: command names are strings, because the source raises on `name.strip()` otherwise.
- ProjectCommands.IsNotebookFile: an empty file name is never a notebook. The source would raise on `f[0]`, but a directory listing never yields one.
- Mapping iteration order: the model iterates the `env_specs` and `commands` sections, and every other mapping, in the order their entries are written. The source also runs on Python 2 (conda_kapsel/project.py:24 takes `is_string` from its `py2_compat` module), whose dictionaries iterate in an arbitrary order. There, which entry counts as first, and so the default env spec, the default command and the order of problems, may differ from the model.
- ProjectEnvSpecs.UpdateName, ProjectEnvSpecs.UpdateEnvSpecs, ProjectCommands.UpdateCommands: a problem is appended to a list passed in, which the model returns as a sequence the caller concatenates.
- The source and its English description disagree in two places, and the model follows the source:
  - `to_json` writes the effective lists, including inherited entries, rather than the own lists. ProjectEnvSpecs.ToJsonReadsBack shows that the written section parses back to those effective lists and the parent name. EnvSpecs.CombineAbsorbsBase shows that combining the parent's lists again over lists that already contain them adds nothing. So in a project without top-level packages or channels, re-reading the section under the same parent gives the same effective lists. With top-level lists, re-reading puts those lists in front of the written ones, and no lemma claims the effective lists come out unchanged.
  - The content hash covers the effective conda, pip and channel lists and not the name.

## Findings

| source | as written | input that shows it | evidently intended | confidence | as-written member | corrected member |
|---|---|---|---|---|---|---|
| conda_kapsel/env_spec.py:29 | `combined + items2` adds the child's own stored tuple (passed by `_get_inherited`, env_spec.py:102-108) to a list, which raises `TypeError` | `env_specs: {a: {packages: [x]}, b: {inherit_from: a, packages: [y]}}`, reading `b`'s `conda_packages` | `[x, y]`: the parent's entries the child does not override, then the child's own | high; not executed | EnvSpecs.EffectiveAsWritten, EnvSpecs.InheritedListRaises | EnvSpecs.Effective, EnvSpecs.EffectiveFromRoot |
| conda_kapsel/env_spec.py:238-242 | the sync test hashes every known spec with the file's name, so the same fault raises in `_update_env_specs` (project.py:423) when that spec has a parent | the project above with an `environment.yml` named `b` | the file is compared with `b`'s combined lists and offered for import when they differ | high; not executed | EnvironmentYml.SyncScanAsWritten, EnvironmentYml.SyncTestRaisesExample | EnvironmentYml.FindOutOfSyncSpec, ProjectEnvSpecs.OutOfSyncEnvFile |
