# dawgmon diff engine: a verified Dafny model

dawgmon is an attack-surface analyser and change monitor. It captures
snapshots of a host (each a dict from probe name to raw command output),
caches them, and reports the differences between two snapshots as anomalies
of kind CHANGE, WARNING or DEBUG. This project models the core of
`dawgmon.py`:

- `compare_output`, the diff engine. It walks the merged list of task names
  from the old and the new snapshot. An unknown name adds a WARNING. A name
  outside a non-empty `commandlist` is skipped. For every other name, both
  sides are parsed with the probe (`""` stands in for a missing old value),
  the probe's `compare` is called, and the anomalies it returns are
  appended. A non-list return aborts the whole call.
- The data `print_anomalies` prints: the anomalies grouped by kind, the
  counts, the pluralised summary line and the lines printed after it.
- The decisions `run` makes around the engine: the `-m` bound check,
  caching only on a full analysis, the default command list, the warnings
  placed before the comparison's results, and the cache lookups of `-C`.

Probes are values carrying two arbitrary functions, `parse` and `compare`.
Every property proved about the engine therefore holds for every probe.

Files, one module each:

- `commands.dfy` (module `Commands`): anomalies, probes and the registry.
  This is the interface the engine needs from the `commands` module.
- `utils.dfy` (module `Utils`): snapshots as insertion-ordered dicts, and
  `merge_keys_to_list`.
- `diff_engine.dfy` (module `DiffEngine`): `compare_output`, written as a
  loop method (`CompareOutput`) and proved against a specification function
  (`Diff`), with lemmas about that function.
- `presentation.dfy` (module `Presentation`): `print_anomalies`.
- `driver.dfy` (module `Driver`): the decisions inside `run`.

The code of the `commands`, `utils`, `cache` and `local` modules is not part
of this model; only the interface `dawgmon.py` uses from them is modelled.
`merge_keys_to_list` is defined here as "every key of `old` in order,
then the keys only in `new`, in order". That definition is not verified
against the real `utils` code.

`compare_output` looks the name up in the registry before it checks the
filter (dawgmon.py:20-25). So a name missing from the registry gets its
WARNING even when the filter excludes it. `UnknownTaskWarns` states this.

## Model

| member | source | states |
|---|---|---|
| `Commands.Names` | dawgmon.py:123-124 | the names of the built-in probes, one per probe, in list order |
| `Commands.W` | dawgmon.py:22 | `commands.W(msg)` is a WARNING anomaly carrying `msg` as its message |
| `Utils.EmptyIsEmptySnapshot` | dawgmon.py:15-17 | a dict is falsy exactly when it is the empty dict `{}` |
| `Utils.OnlyIn` | dawgmon.py:18 | the keys of the new snapshot kept by the merge are exactly those not in the old one |
| `Utils.OnlyInDistinct` | dawgmon.py:18 | the new-only keys contain no duplicates |
| `Utils.OnlyInAppend` | dawgmon.py:18 | dropping the old snapshot's keys from a concatenation drops them from each part, keeping the parts in order |
| `Utils.OnlyInKeepsOrder` | dawgmon.py:18 | two new-only keys come out in the order they have in the new snapshot |
| `Utils.MergeKeysToList` | dawgmon.py:18 | a task name is either a key of `old` or a key of `new` that `old` lacks, and every such key is a task |
| `Utils.MergeKeysToListSpec` | dawgmon.py:18-19 | the task list names every key of either snapshot and nothing else, has no duplicates, starts with the old keys in their order, and continues with the keys only in `new` (kept in their order by `OnlyInKeepsOrder`) |
| `Utils.MergeKeysToListExample` | dawgmon.py:18 | old keys `[a, b]` merged with new keys `[b, c]` give `[a, b, c]` |
| `DiffEngine.Baseline` | dawgmon.py:15-17 | `None` and `{}` both become the empty baseline; any other `old` is kept as given |
| `DiffEngine.UnknownMessage` | dawgmon.py:22 | the unknown-command warning text names the task |
| `DiffEngine.TaskResult` | dawgmon.py:20-34 | an unknown name contributes one WARNING; a task can fail only if its name is registered and selected, and the error names it; a `MissingNewValue` error means the name is absent from `new`; for a registered, selected name present in `new`, a list returned by the probe's `compare` on both parsed sides (`""` for a missing old value) is the task's result, and a non-list return is an `UnexpectedReturnType` error |
| `DiffEngine.Diff` | dawgmon.py:13-35 | `compare_output` raises only for a registered, selected task that is a key of the baseline or of `new`; with an empty registry it never raises |
| `DiffEngine.CompareOutput` | dawgmon.py:13-35 | the loop returns exactly `Diff`: the task results in merged-task order, or the first task's error |
| `DiffEngine.CompareTask` | dawgmon.py:20-34 | one loop pass gives exactly `TaskResult` for that task: one warning for an unknown name, nothing for a filtered-out one, otherwise the list the probe's `compare` returns on both parsed sides, or an error for a non-list return or a missing new value |
| `DiffEngine.SelectedTaskRunsProbe` | dawgmon.py:27-32 | a registered, selected task present in `new` yields the probe's list unchanged, or aborts with `UnexpectedReturnType` when `compare` returns a non-list |
| `DiffEngine.NonListAborts` | dawgmon.py:30-32 | one registered, selected task whose `compare` returns a non-list makes the whole comparison raise |
| `DiffEngine.ProcessedStopsAtFailure` | dawgmon.py:30-32 | once a task raises, no later task changes the outcome |
| `DiffEngine.NoBaselineIsEmptyDict` | dawgmon.py:15-17 | `compare_output(None, ...)` equals `compare_output({}, ...)` and any empty `old` |
| `DiffEngine.UnknownTaskWarns` | dawgmon.py:20-23 | an unregistered name adds exactly one WARNING naming it, whatever the filter |
| `DiffEngine.UnselectedTaskSilent` | dawgmon.py:24-25 | a registered name outside a non-empty `commandlist` adds nothing, and its probe is never consulted |
| `DiffEngine.EmptyFilterSelectsAll` | dawgmon.py:24 | a `None` or empty `commandlist` filters nothing |
| `DiffEngine.MissingOldParsesEmpty` | dawgmon.py:27-28 | a task absent from `old` has its old side parsed from `""` |
| `DiffEngine.ProcessedOkIff` | dawgmon.py:19-34 | a prefix of the tasks succeeds if and only if every task in it succeeds |
| `DiffEngine.AggregateOkIff` | dawgmon.py:19-34 | the comparison returns a list if and only if no task raises |
| `DiffEngine.ProcessedFailsAtFirst` | dawgmon.py:30-32 | a failing prefix fails with the error of its first failing task |
| `DiffEngine.AggregateFailsAtFirst` | dawgmon.py:30-32 | a failing call raises the first failing task's error, and no partial list is returned |
| `DiffEngine.ContributionsSnoc` | dawgmon.py:33-34 | one more successful task appends its anomalies at the end |
| `DiffEngine.ProcessedIsConcatenation` | dawgmon.py:19-34 | a successful prefix returns the concatenation of its tasks' anomalies |
| `DiffEngine.AggregateIsConcatenation` | dawgmon.py:19-34 | a successful call returns each task's anomalies, concatenated in task order, each in the probe's own order |
| `DiffEngine.EmptyRegistryWarnsEach` | dawgmon.py:19-23 | with no registered probes, the result is one unknown-command warning per task, in task order |
| `DiffEngine.UnselectedProbeIrrelevant` | dawgmon.py:24-25 | replacing the probe of a filtered-out name leaves the whole comparison unchanged |
| `DiffEngine.TaskFailsOnlyOnReturnType` | dawgmon.py:29-32 | a task whose new value is present can fail only through a non-list return |
| `DiffEngine.MergedTasksComeFromSnapshots` | dawgmon.py:18 | every task name is a key of `old` or of `new` |
| `DiffEngine.NoKeyErrorWhenNewCoversOld` | dawgmon.py:27-29 | if `new` has every key of `old`, the `new[task_name]` lookup never raises; only a non-list return can |
| `DiffEngine.UnknownProbeScenario` | dawgmon.py:13-35 | identical snapshots `{"foo": "x"}` with `foo` not in the registry (whatever else it holds) give exactly one WARNING about `foo` |
| `Presentation.OfKind` | dawgmon.py:38-40 | a kind filter keeps only anomalies of that kind |
| `Presentation.OfKindAppend` | dawgmon.py:38-40 | grouping keeps the input's relative order |
| `Presentation.OfKindCounts` | dawgmon.py:38-40 | a group holds every anomaly of its kind, as many times as it occurs, and nothing else |
| `Presentation.OfKindPartition` | dawgmon.py:38-40 | the three groups together are a rearrangement of the input |
| `Presentation.Plural` | dawgmon.py:47-48 | the suffix is `"s"` exactly when the count is not 1 |
| `Presentation.DigitChar` | dawgmon.py:47-48 | a digit is printed as the character of its value |
| `Presentation.Decimal` | dawgmon.py:47-48 | `%i` of a count is non-empty decimal digits with no leading zero |
| `Presentation.DecimalRoundTrip` | dawgmon.py:47-48 | a printed count reads back as the count |
| `Presentation.DebugClause` | dawgmon.py:47 | the debug clause is empty exactly when there are no debug messages to show |
| `Presentation.DebugClauseCounts` | dawgmon.py:47 | a non-empty debug clause reads `" and "`, then the debug count reading back as that count, then `" debug message"`, ending in `s` exactly when the count is not 1 |
| `Presentation.ClauseLayout` | dawgmon.py:47 | a clause laid out as `" and <n> debug message<s>"` has each part at its place, the count reading back, and a final `s` exactly when the count is not 1 |
| `Presentation.Header` | dawgmon.py:48 | the summary line opens with the decimal change count followed by a space, and closes with `)` |
| `Presentation.LayoutCounts` | dawgmon.py:48 | a line laid out as `<n> change<s> detected (<m> warning<s><rest>` has the change count, the word `change` and its plural `s` exactly when n != 1, then the warning count, the word `warning` and its plural `s` exactly when m != 1, each at its place, and both counts read back |
| `Presentation.HeaderCounts` | dawgmon.py:47-48 | the summary line carries both counts at their places, each reading back as its count, each followed by its noun, pluralised exactly when the count is not 1, and ends with the debug clause and `)` |
| `Presentation.HeaderOpensWithChangeCount` | dawgmon.py:48 | the digits the summary line opens with read back as the number of changes, and a space follows them (the short form of `HeaderCounts`) |
| `Presentation.Marked` | dawgmon.py:49-55 | one printed line per anomaly, with the marker before the message |
| `Presentation.Lines` | dawgmon.py:48-55 | the summary line comes first, then warnings, then changes, then debug messages |
| `Presentation.PrintAnomalies` | dawgmon.py:37-55 | the CHANGE and WARNING groups are the input filtered by kind, in input order; DEBUG is the filtered input when shown and empty otherwise; when shown, the three groups are a rearrangement of the input; the lines follow `Lines` |
| `Presentation.PrintAnomaliesAppend` | dawgmon.py:38-40 | each group of a concatenation is the first part's group followed by the second part's |
| `Driver.MaxCacheEntriesValid` | dawgmon.py:81-83 | `-m` is accepted exactly when 1 <= n <= 1024 |
| `Driver.DefaultMaxCacheEntriesValid` | dawgmon.py:59 | the default of 16 passes the bound check |
| `Driver.AddToCache` | dawgmon.py:118 | the snapshot is cached exactly on an analysis with no explicit `-e` list |
| `Driver.EffectiveCommandList` | dawgmon.py:121-124 | without `-e`, the filter is every built-in probe's name; otherwise it is the given list |
| `Driver.DefaultCommandList` | dawgmon.py:121-124 | the append loop builds exactly the built-in probe names, in order |
| `Driver.EarlierWarnings` | dawgmon.py:128-138 | a partial run adds the not-cached WARNING; a full run with no usable last entry adds the baseline WARNING; otherwise nothing |
| `Driver.EntryPresent` | dawgmon.py:141-147 | a `-C` cache entry counts as found exactly when the id is in the cache and its snapshot is a non-empty dict |
| `Driver.CompareAndReport` | dawgmon.py:149-155 | a raising comparison aborts; otherwise the earlier anomalies followed by the comparison's are handed to `print_anomalies` |
| `Driver.Run` | dawgmon.py:57-159 | the bound check comes first; no action and the listings stop early; `-C` reports a missing or empty entry, `id2` checked before `id1`; otherwise the earlier warnings come before the `compare_output` result, a raise aborts, caching happens only on a full analysis, and the purge bound is `-m` |
| `Presentation.OfKindKeepsUniform` | dawgmon.py:149-152 | filtering warnings by WARNING keeps them all, in order |
| `Presentation.OfKindKinds` | dawgmon.py:149-152 | a list of warnings holds no CHANGE or DEBUG items |
| `Driver.EarlierWarningsPrintedFirst` | dawgmon.py:149-155 | warnings added before the comparison are printed before every warning the comparison produced; the changes are the comparison's own |

## Left out

- Argument parsing, `$HOME` lookup and the interactive root prompt (dawgmon.py:62-96). These are CLI and user I/O. `Run` receives the parsed values and assumes the analysis goes ahead.
- Collecting a snapshot (`local_run`, the temporary directory; dawgmon.py:130, 161-163). This runs system commands, so the collected snapshot is a parameter of `Run`.
- The cache's `load`, `save`, `add_entry`, `get_last_entry`, `get_entry` and `purge` (dawgmon.py:99-100, 132-159). They are file persistence in a module not part of this model. The loaded cache appears only as its last entry and a map from id to entry. A `Reported` outcome records the snapshot that would be appended and the purge bound. Nothing is claimed about id assignment, purging or the file format.
- The listings of `-L` and `-E` (dawgmon.py:103-115) print only. `Run` ends in `Listed` without their content; the sorting of command names is not modelled.
- ANSI colour codes and the `print` calls (dawgmon.py:41-55). The model returns the lines printed when colour is off.
- The bodies of the individual probes' `parse` and `compare`, and `merge_keys_to_list`. They live in modules not part of this model. Probes are arbitrary functions, and `merge_keys_to_list` is defined as described above.
- Python truthiness of a probe object (`if not cmd`, dawgmon.py:21): every registered probe is treated as truthy.
- The last steps of `run` (dawgmon.py:149-155) are a separate method, `CompareAndReport`, called once after the `-A`/`-C` branch, where the source runs them inline.
- `compare_output`'s loop body is a separate method, `CompareTask`, with its early `return`s in place of `continue`. It keeps the same branches in the same order.
- A `KeyError` on `new[task_name]` (dawgmon.py:29) is modelled as the error outcome `MissingNewValue`, not as a precondition. `NoKeyErrorWhenNewCoversOld` states when it cannot happen.
- Python integers are unbounded like Dafny's, so no width is modelled for the counts or for `-m`.
