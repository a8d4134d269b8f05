# types-autoinstaller: manifest diffs and the typings batch

This project is a Dafny model of the core of types-autoinstaller. The system is a VS Code extension. It watches a project's `package.json` and installs or uninstalls the matching `@types/<name>` packages when dependencies are added or removed. The model covers three pieces of logic:

- `Packages` (src/Package.ts). A `Package` keeps the `dependencies` and `devDependencies` sections of a manifest. `GetDifferences` compares it with a changed package. For each section it reports:
  - the new or changed entries (`newDeps`): a name absent from the current section, or present there with another version string;
  - the removed entries (`removedDeps`): a current name absent from the changed section.

  The method runs the source's loops: one pass per section, then a `forOwn` pass over each side. It is proved equal to the specification function `Package.Differences`. Lemmas about that function cover the self-diff, each membership rule, disjointness, per-section independence, and completeness: applying the diff to the current section yields the changed section.
- `Watcher` (src/PackageWatcher.ts). This is the older diff, and the one the extension actually calls.
  - A `PackageWatcher` keeps the last manifest it saw in the mutable field `packageJson`.
  - `Changed` diffs three sections (`engines`, `dependencies`, `devDependencies`). It reports only added and deleted names, never version changes. It then replaces the kept manifest.
  - A section may be `undefined`, `null` or an object (`Section`).
  - The method runs the source's twelve passes, two helper methods per section. Within a section the passes keep the source's order. The source interleaves the passes of `dependencies` and `devDependencies`, which write to different result objects. `Changed` is proved equal to the reference definition `Detect`, which is written per section by case on the shapes of the two sections.
  - Lemmas relate this diff to `Package.getDifferences`. The scenarios of test/extension.test.ts are restated as lemmas.
- `Typings` (src/TypesService.ts). The `install` and `uninstall` batches run one `npm` command per key, in key order. Each next command starts only from the previous command's completion callback. The final callback receives the number of successes.
  - `RunBatch` is the loop that stands for the callback chain. It is proved equal to the fold `Batch`.
  - Lemmas state which commands run and in what order, when the final callback fires, and that its count is the number of `true` outcomes.

Modelling choices:

- `childProcess.exec` is an oracle: `results[i]` is the `(error, stdout, stderr)` triple that the command for `keys[i]` reports. `keys` is `Object.keys(dependency)`, in that order. Only the keys of a dependency section are used.
- `stateCallback` messages are returned as a sequence. The completion callbacks of a batch become the values a `BatchRun` holds. `Completion()` is `None` when the final callback is never called.
- The callback given to `PackageWatcher.changed` is called exactly once, after the snapshot is replaced. Its two arguments are the `Report` that `Changed` returns.
- `exisitsPackage` keeps the source's name. It returns true when the section is an object that *lacks* the key. It returns false for `null`, and also for `undefined`, because `undefined != null` is false in JavaScript. So a `null` section on either side reports nothing. An `undefined` section reports everything on the other side, because of the explicit `=== undefined` branches.
- An install of a key that contains `@types` sends no message, runs no command and never calls its callback (src/TypesService.ts:75-98). A batch that reaches such a key therefore never completes. The model represents this as it is written: `Completion()` is `None`, and `BatchCompletes` states exactly when that happens.
- Behaviour the code has that a reader might not expect, modelled as written:
  - src/Package.ts does not treat a missing section as empty: `hasOwnProperty` on a missing section throws as soon as the other side of that section has an entry. `Packages` therefore models only the typed `PackageJson` input, whose two sections are always objects.
  - The watcher the extension uses does not detect version changes; `AgainstGetDifferences` states exactly which entries it misses compared with `getDifferences`.
  - An install of a key containing `@types` is not skipped: it hangs the batch, as described above.
  - `TypingsService` builds only `npm` commands.

## Model

| member | source | states |
|---|---|---|
| Packages.FromObject | src/Package.ts:29-36 | the constructor's object branch keeps exactly the input's `dependencies` and `devDependencies` |
| Packages.Package.GetDifferences | src/Package.ts:39-63 | the diff it builds section by section is exactly `Differences`: removed entries by `isRemovedDep`, new or changed entries by `isNewOrChangedDep` |
| Packages.Package.CollectRemoved | src/Package.ts:47-51 | the `forOwn` pass over the current section yields exactly the entries `isRemovedDep` accepts, at their current versions |
| Packages.Package.CollectNewOrChanged | src/Package.ts:55-59 | the `forOwn` pass over the changed section yields exactly the entries `isNewOrChangedDep` accepts, at their changed versions |
| Packages.Package.IsNewDep | src/Package.ts:65-69 | a name is new exactly when no version of it would count as a change |
| Packages.Package.IsChangedDep | src/Package.ts:71-75 | a name has changed exactly when the old section has it and recording the given version would alter that section |
| Packages.Package.IsNewOrChangedDep | src/Package.ts:77-80 | a name and version are reported unless the old section already holds exactly that version for that name |
| Packages.Package.IsRemovedDep | src/Package.ts:82-86 | a name has been uninstalled exactly when dropping it from the changed section leaves that section unchanged |
| Packages.SelfDifferencesEmpty | src/Package.ts:44-60 | diffing a package against itself gives empty `newDeps` and `removedDeps` in both sections |
| Packages.NewDepReported | src/Package.ts:65-69 | a changed-section name missing from the current section is in `newDeps` with the changed version and not in `removedDeps` |
| Packages.ChangedDepReported | src/Package.ts:71-75 | a name in both sections with different versions is in `newDeps` with the new version and not in `removedDeps` |
| Packages.UnchangedDepNotReported | src/Package.ts:77-80 | a name in both sections with equal versions is in neither result |
| Packages.RemovedExactly | src/Package.ts:82-86 | `removedDeps[s]` holds exactly the current names absent from the changed section, at their current versions |
| Packages.NewOrChangedExactly | src/Package.ts:65-80 | `newDeps[s]` holds exactly the changed names that are new or whose version differs, at their changed versions |
| Packages.DifferenceKeys | src/Package.ts:47-58 | new names are changed-section names, removed names are current-section names, and the two key sets are disjoint |
| Packages.SectionsIndependent | src/Package.ts:41-44 | each section's results depend only on that section of the two packages |
| Packages.DifferencesApply | src/Package.ts:39-63 | removing `removedDeps[s]` from the current section and applying `newDeps[s]` gives the changed section: nothing is missed |
| Packages.VersionBumpScenario | src/Package.ts:71-75 | a bumped `json2ts` version is reported as new with the new version, and nothing is removed |
| Watcher.ExisitsPackage | src/PackageWatcher.ts:101-106 | true only for a key the section lacks, true for every missing key of an object section, and false for `null` and `undefined` |
| Watcher.CopyMissing | src/PackageWatcher.ts:24-28 | a `for...in` pass adds to the accumulator exactly the entries of `from` that `exisitsPackage(against, key)` accepts |
| Watcher.CopyAll | src/PackageWatcher.ts:30-34 | a `forOwn` pass adds every own entry of the section, and none for `null` or `undefined` |
| Watcher.AddedByLoops | src/PackageWatcher.ts:49-71 | the new-package passes of a section (`for...in`, then `forOwn` when the old section is `undefined`) yield `SectionAdded` |
| Watcher.DeletedByLoops | src/PackageWatcher.ts:73-95 | the deleted-package passes of a section (`forOwn` when the new section is `undefined`, then `for...in`) yield `SectionDeleted` |
| Watcher.NewInSection | src/PackageWatcher.ts:49-71 | the new-package passes of one section report exactly `SectionAdded` of the two snapshots' sections |
| Watcher.DeletedInSection | src/PackageWatcher.ts:73-95 | the deleted-package passes of one section report exactly `SectionDeleted` of the two snapshots' sections |
| Watcher.PackageWatcher.constructor | src/PackageWatcher.ts:16-17 | the watcher retains the given package |
| Watcher.PackageWatcher.Changed | src/PackageWatcher.ts:19-99 | the callback arguments are `Detect(old snapshot, changed)` over all three sections, and the retained snapshot becomes `changedPackage` |
| Watcher.ChangedTwice | src/PackageWatcher.ts:97 | after `changed`, a second call with the same package reports nothing in any section |
| Watcher.AddedWhenBothDefined | src/PackageWatcher.ts:49-59 | with both sections defined, a name only in the new section is reported new with its new value and not deleted |
| Watcher.DeletedWhenBothDefined | src/PackageWatcher.ts:85-95 | with both sections defined, a name only in the old section is reported deleted with its old value and not new |
| Watcher.PresentInBothNotReported | src/PackageWatcher.ts:49-53 | a name present in both sections is reported in neither, whatever its two versions are |
| Watcher.OldUndefinedAllNew | src/PackageWatcher.ts:61-71 | an `undefined` old section reports every entry of the new section as new and nothing as deleted |
| Watcher.NewUndefinedAllDeleted | src/PackageWatcher.ts:73-83 | an `undefined` new section reports every entry of the old section as deleted and nothing as new |
| Watcher.NullReportsNothing | src/PackageWatcher.ts:101-106 | a `null` section on either side reports nothing as new or deleted |
| Watcher.DetectSelfEmpty | src/PackageWatcher.ts:19-99 | diffing a package against itself reports nothing |
| Watcher.SelfEmptySection | src/PackageWatcher.ts:49-95 | a section compared with itself, whatever its shape, yields no new and no deleted entries |
| Watcher.AgainstGetDifferences | src/PackageWatcher.ts:49-95 | on defined sections the watcher's deletions equal `getDifferences`' removals, and it misses exactly the version changes `getDifferences` reports |
| Watcher.ZeroChangedScenario | test/extension.test.ts:7-35 | unchanged manifests report nothing |
| Watcher.OneNewDependencyScenario | test/extension.test.ts:37-67 | adding `jasmine` reports exactly `{jasmine: "*"}` as a new dependency |
| Watcher.TwoNewDependenciesScenario | test/extension.test.ts:69-101 | adding `jasmine` and `jasmine-node` reports exactly those two |
| Watcher.OneNewDevDependencyScenario | test/extension.test.ts:103-131 | adding `vscode` to devDependencies reports exactly that entry |
| Watcher.TwoNewDevDependenciesScenario | test/extension.test.ts:133-163 | adding `typescript` and `vscode` to devDependencies reports exactly those two |
| Watcher.OneDeletedDependencyScenario | test/extension.test.ts:165-191 | removing `json2ts` reports exactly that deletion |
| Watcher.TwoDeletedDependenciesScenario | test/extension.test.ts:193-221 | removing `json2ts` and `rxjs` reports exactly those two deletions |
| Watcher.OneDeletedDevDependencyScenario | test/extension.test.ts:223-251 | removing `vscode` from devDependencies reports exactly that deletion |
| Watcher.TwoDeletedDevDependenciesScenario | test/extension.test.ts:253-283 | removing `typescript` and `vscode` from devDependencies reports exactly those two deletions |
| Watcher.CrossScenario | test/extension.test.ts:285-319 | the cross change reports new `rxjs` and `gulp` and deleted `json2ts` and `typescript`, one entry per section |
| Watcher.CrossScenarioThroughWatcher | test/extension.test.ts:285-319 | a real watcher's `Changed` passes exactly the cross report to its callback |
| Shared.ContainsPrefix | src/TypesService.ts:85-86 | a stderr that matches `ERR! 404` also contains `ERR!` |
| Typings.SaveFlag | src/TypesService.ts:78-81 | the save flag always starts with `--save`, and differs from `--save` exactly for a dev dependency |
| Typings.Command | src/TypesService.ts:82 | a command line is the prefix, then the key, then a space, then the save flag, and nothing more |
| Typings.CommandFor | src/TypesService.ts:109-113 | every command is an `npm` command, an install command exactly for `Install` and an uninstall command exactly for `Uninstall` |
| Typings.InstallSucceeded | src/TypesService.ts:85 | an install succeeds exactly when stderr lacks `ERR!`; an empty stderr is always a success |
| Typings.UninstallSucceeded | src/TypesService.ts:116 | a non-null error, or a stdout too short to hold `@types`, is a failure; an error-free stdout that starts with `@types` is a success |
| Typings.CommandRoundTrip | src/TypesService.ts:78-82 | `npm install @types/<key> --save[-dev]` gives back its key and its save flag for every key |
| Typings.CommandsDistinct | src/TypesService.ts:109-113 | distinct operations, keys or save flags give distinct command lines |
| Typings.InstallDependency | src/TypesService.ts:67-99 | a key containing `@types` gets no callback; otherwise one `npm install @types/<key>` command, which succeeds exactly when stderr lacks `ERR!`, and a first "Installing" message |
| Typings.InstallMessages | src/TypesService.ts:85-96 | `ERR! 404` fails with a "not found" message, another `ERR!` fails and echoes stderr, and otherwise stdout and a success message are logged |
| Typings.UninstallDependency | src/TypesService.ts:101-125 | one `npm uninstall @types/<key>` command, which succeeds exactly when there is no error and stdout contains `@types`; stdout is always logged, and on success a third message "Successfully uninstalled Types for package '<key>'" |
| Typings.Step | src/TypesService.ts:75-98 | a key's command fails to call back exactly for an install of a key containing `@types`; otherwise its command line is the operation's command for that key |
| Typings.StalledStays | src/TypesService.ts:19-30 | once a command never calls back, later keys change nothing |
| Typings.ChainCommands | src/TypesService.ts:19-30 | the chain runs one command per step, in order, and stops exactly at the first command that never calls back |
| Typings.ChainMessages | src/TypesService.ts:19-30 | the chain has sent exactly the messages of the commands it ran, one command after the other, in order |
| Typings.ChainCount | src/TypesService.ts:20-23 | a chain that is not stuck has counted exactly its successful commands |
| Typings.RunBatch | src/TypesService.ts:19-31 | the index chain yields exactly `Batch`: each key's command, messages and success are taken in key order until a callback never comes |
| Typings.InstallAll | src/TypesService.ts:8-35 | `install` yields `Batch(Install, ...)`, and for no keys it calls back with 0 at once, with no message and no command |
| Typings.UninstallAll | src/TypesService.ts:37-65 | `uninstall` yields `Batch(Uninstall, ...)`, and for no keys it calls back with 0 at once, with no message and no command |
| Typings.BatchCommands | src/TypesService.ts:19-31 | the commands run are those of the first keys, in key order, one per key; the chain stops only at an install of a key containing `@types`, and otherwise covers every key; the `stateCallback` messages are those of the same keys' commands, in the same order |
| Typings.BatchCompletes | src/TypesService.ts:75-98 | the final callback is reached exactly when the batch is an uninstall or no key contains `@types` |
| Typings.BatchCount | src/TypesService.ts:20-27 | a completed batch calls back with exactly the number of `true` outcomes |
| Typings.AllOrNothing | src/TypesService.ts:20-27 | a completed batch of all failures calls back with 0, one of all successes with the number of keys |

## Left out

- src/extension.ts is not part of this model: VS Code activation, file-system watchers, the output channel, configuration reads, the global watcher variables, the 800 ms settle delay of `openDocument`, and `installPackages`/`uninstallPackages`, which chain three batches and add their counts.
- The `string` and `vscode.TextDocument` branches of the `Package` constructor. They call `JSON.parse` and an editor API.
- `childProcess.exec`, the working directory `rootPath` and `process.env`. The result triples are an input, and the `TypingsService` class, whose only field is `rootPath`, is not modelled as an object.
- Asynchrony. The callback chain is modelled as a loop: command `i + 1` is taken only once command `i` has produced its outcome.
- Inherited enumerable properties seen by `for...in`, and the iteration order of the diff loops. The loops visit a map's keys in an arbitrary order, and the diff results are maps, so the key order of the result objects is not modelled. In the program that order matters: it is the order of `Object.keys` in `install` and `uninstall` (src/TypesService.ts:14, 43), and so the order of the npm commands and messages. The batch model takes its key order as an input instead.
- Sections of src/Package.ts that are missing or `null`. The code throws on such a section only when the other package has an entry in that section; otherwise that section's results are empty. The `Packages` model takes sections that are always objects, so neither outcome is modelled.
- Yarn: `extension.ts` passes `useYarn`, but the `TypingsService` constructor shown ignores it and always builds `npm` commands.
