# timeload — a Dafny model of the timing harness

timeload measures how long each dependency of a project takes to `require`.
It reads the dependency names from `package.json`, loads each module
up to `numRuns` times, and prints a table sorted by average load time, with a
percentage column, the run count, the "average load time" and the total load
time. This project models the harness in `lib/index.js`:

- the run count taken from `--runs` (`options.dfy`);
- the selection of the module names into the `packages` Set (`deps.dfy`,
  with the insertion-ordered Set and Map helpers in `ordered.dfy`);
- the isolation decision of `isESM` and the outcome of one `requireTime`
  call (`loader.dfy`);
- the run loop of `timeload`, which updates `packages` and `timespans` in
  place (`harness.dfy`);
- the arithmetic and ordering of `summary` (`aggregate.dfy`).

The clock, `require`, and the forked child process are an oracle. For run `r`
and module `m`, it says what the probe `require` in `isESM` saw and whether
the timed load took `d` nanoseconds or threw. `harness.dfy` first states the
run loop as functions on values (`Pass`, `Runs`, `Session`). The class
`Harness.Harness` then keeps the two collections as fields and is proved
against those functions. Its `LoadAll` walks the live Set the way
`for ... of` does: when the current module is deleted, the next one moves into
its place. The proof shows that this is one pass over the modules present when
the run started.

Three behaviours of the code that the model keeps as written:

- A module whose in-process load fails is not dropped from the report.
  `requireTime` deletes its entry and returns `false`, and the loop then
  re-creates the entry as `[false]` (lib/index.js:66-67). The module keeps
  one sample that counts as 0. Its earlier samples are gone, and it moves to
  the end of the Map's order.
- The printed "average load time" is the sum of the per-module averages
  (lib/index.js:94), not their mean. So the percentages add up to 100.
- A rejection of the child's Promise is not caught. The Promise is returned
  without `await` inside the `try` (lib/index.js:117-126), so its rejection
  aborts `timeload` before `summary()` runs. The model ends such a session with
  `Rejected`.

## Model

| member | source | states |
|---|---|---|
| Options.NumRuns | lib/index.js:35-42 | 5 runs when `--runs` is absent or has no non-empty argument after it; otherwise max(1, k) for a parsed integer k, so at least one run; zero runs for an argument that parses as NaN |
| Ordered.IndexOf | lib/index.js:35 | the first position of the argument, or -1 exactly when it is absent |
| Ordered.Remove | lib/index.js:136-137 | `delete` keeps exactly the other elements and never grows the collection |
| Ordered.AddAllFirstSeen | lib/index.js:57 | adding names one by one to an empty Set keeps them in first-seen order |
| Ordered.RemoveAt | lib/index.js:136-137 | deleting the element at position j of a duplicate-free sequence closes the gap and keeps the order of the rest |
| Deps.DropTypesMembers | lib/index.js:56 | the filter keeps exactly the names that do not start with `@types/` |
| Deps.SelectedSpec | lib/index.js:55-57 | `packages` has no duplicates and holds exactly the non-`@types/` names of `dependencies`, plus those of `devDependencies` only with `--dev`; names are in first-seen order, with the `dependencies` names first |
| Harness.NothingToTime | lib/index.js:51-59 | the session takes the "No dependencies found." exit (`NoDependencies`) exactly when `package.json` was read and every eligible name is an `@types/` package |
| Loader.Isolated | lib/index.js:118 | the isolated path is taken iff `--esm` is set, the probe threw, or the probe's export is truthy with `type === 'module'`; a falsy export never isolates |
| Loader.RequireOutcome | lib/index.js:115-155 | a load that finishes gives its duration; a failed load is caught (`false`) exactly on the in-process path and escapes exactly on the isolated path |
| Harness.Harness.constructor | lib/index.js:27-42 | both collections start empty; the options are fixed, with the run count given by `NumRuns` |
| Harness.Harness.AddPackages | lib/index.js:55-57 | `forEach(packages.add)` leaves `packages` as the ordered Set of the names added, and leaves `timespans` unchanged |
| Harness.Harness.RequireTime | lib/index.js:115-141 | returns the outcome above; a caught failure deletes the module from `timespans` and `packages`, and an escaping one changes nothing |
| Harness.Harness.Append | lib/index.js:66-67 | creates a missing entry at the end of the Map's order, then appends the sample |
| Harness.Harness.LoadAll | lib/index.js:62-68 | iterating the live Set while entries are deleted is one pass over the modules present at the start of the run, stopped by an escaping rejection; the Map stays consistent |
| Harness.Harness.Measure | lib/index.js:61-71 | `numRuns` passes, each over the Set as it stands when the pass starts, then `summary()` unless a rejection escaped |
| Harness.Harness.Timeload | lib/index.js:50-75 | the whole session: unreadable manifest, no dependencies, rejected, or the report of the final `timespans`; the two early exits leave both collections empty |
| Harness.Harness.Summary | lib/index.js:80-103 | the `forEach` builds the averages in Map order and the total of all raw samples; the result is the report defined by `Summarize` |
| Harness.IteratorAdvance | lib/index.js:62 | after the current module is visited (and perhaps deleted), the live iterator's next position reaches the next module of the run-start snapshot |
| Harness.RecordConsistent | lib/index.js:63-67 | a loop step keeps both collections duplicate-free, keeps the Map's order and keys in step, and keeps every list non-empty; `packages` loses the module only on a caught failure |
| Harness.AllLoadsSucceed | lib/index.js:61-69 | when no load fails, `packages` is unchanged, the Map's order is the module order, and each list holds exactly one duration per run, in run order |
| Harness.CaughtFailure | lib/index.js:134-140 | after a caught failure the module is out of `packages`, its entry is exactly `[false]`, it is last in the Map's order, and no other entry changes |
| Harness.RunsKeepEvicted | lib/index.js:61-69 | a module outside `packages` is never loaded again, so later runs leave its entry as it is |
| Harness.FailureIsFinal | lib/index.js:61-69 | a module whose load is caught failing in run k ends the session outside `packages` with exactly `[false]`, whatever it recorded before |
| Harness.RejectionAborts | lib/index.js:117-126 | an isolated load that rejects in run k aborts the whole loop, so no summary is produced |
| Aggregate.Averages | lib/index.js:85-91 | one entry per module in Map order, each holding its list's sum divided by its length |
| Aggregate.SortSpec | lib/index.js:93 | the sort is ascending by average, is a permutation, and is stable (entries with equal averages keep their order); it keeps the sum of averages |
| Aggregate.SummaryRows | lib/index.js:93-103 | one row per module, in ascending order of average; the rows rearrange the `averages` entries and ties keep the `timespans` order |
| Aggregate.PercentColumn | lib/index.js:101 | against a positive sum of non-negative averages, every percentage lies in [0, 100] and they add up to 100; against a zero sum every cell is NaN |
| Aggregate.SummaryFigures | lib/index.js:81-109 | the "average load time" is the sum of the per-module averages; the percentages add up to 100 when it is positive; the total is the sum of every raw sample; the average line is shown only for more than one run |

## Left out

- Reading and parsing `package.json` (`fs`, `JSON.parse`, `niceTry`, lib/index.js:51-53): the manifest is an input, `None` when it could not be read, otherwise its two dependency key lists.
- `hasFlag('dev')` and `hasFlag('esm')` (lib/index.js:40-41): library code; the two answers are constructor parameters.
- `parseInt` (lib/index.js:42): a parameter that returns an optional integer. The NaN of a non-numeric argument is modelled as zero runs. That is what `i < NaN` does to the loop; the "Performed NaN run." text is not modelled.
- `process.hrtime.bigint`, `require`, `clear-module`, `require.resolve`/`unwin` and the forked child of lib/loader.js (lib/index.js:116-133): runtime calls, replaced by the oracle of durations and failures. The IPC, the child's `process.exit` and the "closed before result" rejection are all one escaping failure.
- The probe's side effects: the model records only what the probe saw, not that it ran the module's top-level code an extra time.
- Progress lines, `pretty-ms`, `text-table`, colours, `toFixed(2)` and cursor escape codes (lib/index.js:45, 64, 97-109): output formatting. A row keeps its exact average and percentage.
- IEEE doubles: averages and percentages are exact reals, and durations are unbounded naturals, so rounding and the 2^53 limit of `Number` are not modelled.
- `logger.error` and `logger.info` messages (lib/utils/logger.js): output. Their occasions appear as the `Unreadable`, `NoDependencies` and caught-failure outcomes.
- Harness.Harness.Timeload: models one call per process, starting from the empty module-level `packages` and `timespans` (lib/index.js:27-28). A second call of the exported function in the same process would add names to the leftover Set and append to the leftover lists; that is not modelled.
- A synchronous throw from `fork(...)` (lib/index.js:120): it happens inside the `try`, so line 134 would catch it and evict the module. The model treats every failure on the isolated path as a rejection of the child's Promise, which escapes.
- Loads are sequential; the `async`/`await` scheduling is modelled as plain sequencing, which is what `await` inside the loop gives.
