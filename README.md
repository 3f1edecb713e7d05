# readmeplz — a Dafny model of the seen-marker logic

readmeplz is a Nova editor extension that opens a workspace's `README.md`
the first time the workspace is seen, and offers a command to reset that.
"Seen" is recorded by a marker file whose name is a hash of the README's
path, kept in the extension's per-workspace storage directory, and is
mirrored into the workspace configuration flag `<prefix>.conf.seen`.

This project models the three parts of the extension whose behaviour can be
stated precisely, and proves their properties with Dafny:

- `readme.dfy` (module `Readme`, from `Scripts/main.js`): the seen-marker
  state machine. The class `ReadmeTracker` holds the filesystem, the `seen`
  flag and a counter of "open-readme" events; its methods step through the
  host calls as the script does, and each is proved equal to a pure
  specification function over a `State` value (`InitOutcome`,
  `RemoveOutcome`). The lemmas about those functions state the properties:
  no README means no effect, an existing marker means no event,
  idempotence, at most one event per two checks, reset followed by a check
  shows the README again, and the flag keeps mirroring the marker.
- `extension.js` → `extension.dfy` (module `Extension`): the prefix of the
  extension's keys, derived with a model of `split('.')` and proved to be
  the longest dot-free suffix of the identifier; the three namespaces; and
  `supportDir`, as a function of the filesystem state and as a method that
  performs the host calls.
- `utils.js` → `utils.dfy` (module `Utils`): the workspace-over-global
  configuration lookup, the workspace and folder guards, and
  `filterDuplicates` with its full characterisation (no duplicates, same
  elements, order of first occurrence, idempotence).
- `fs.dfy` (module `Fs`) is the abstract host filesystem: a map from paths
  to file or directory nodes with a `writable` flag, and a fixed set of
  paths on which `mkdir`, `open(…, "w+")` and `remove` fail. `results.dfy`
  (module `Results`) holds the option, result and error types: a promise
  that rejects, or a call that throws, becomes an `Err`/`Fail` value.

External parts become parameters: the workspace path, the workspace storage
path, `CMDS.stringToHash` (an arbitrary function `string -> string`, not
assumed injective) and the set of paths on which the filesystem refuses
writes. `CMDS.canAccessPath` is membership in the path map, and
`nova.path.join(dir, name)` is `dir + "/" + name`.

Two details of the code that the model keeps:

- Reset is conditional. The flag is cleared only after an existing marker
  has been removed. A missing marker leaves the flag alone
  (`Scripts/main.js:162-167`).
- Writing a marker creates no directories. Only `supportDir` creates the
  storage directory (`Scripts/lib/extension.js:48-50`).

Writing the flag from `initReferenceFile` and `removeReferenceFile` fires the
configuration listener, which calls `updateSeen` with the new value. That
runs the same operation a second time. When the two runs happen one after
the other, `InitIdempotent` and `RemoveIdempotent` show that the second run
changes nothing.

## Model

| member | source | states |
|---|---|---|
| `Extension.Split` | Scripts/lib/extension.js:13 | `split` yields at least one piece and no piece contains the separator |
| `Extension.JoinSplit` | Scripts/lib/extension.js:13 | joining the pieces of a split with the separator gives the original string back |
| `Extension.SplitJoin` | Scripts/lib/extension.js:13 | splitting a join of separator-free pieces gives the pieces back |
| `Extension.PrefixIsLastSegment` | Scripts/lib/extension.js:12-14 | the prefix has no `.`, is a suffix of the identifier, and is preceded by a `.` whenever it is shorter than the identifier (the last `.`-segment) |
| `Extension.PrefixOfPlainIdentifier` | Scripts/lib/extension.js:13 | an identifier without `.` is its own prefix |
| `Extension.PrefixNamespaces` | Scripts/lib/extension.js:20-38 | `prefixConfig`, `prefixCommand`, `prefixMessage` split into the prefix and `conf`, `cmd`, `msg` respectively, so they are pairwise distinct |
| `Extension.SupportDirOutcome` | Scripts/lib/extension.js:40-62 | on success the result is the store and it is a writable directory; a failure changes nothing; only the store may change, by being created; success exactly when the store is absent and creatable or already a writable directory |
| `Extension.SupportDirErrors` | Scripts/lib/extension.js:53-59 | an existing non-directory raises "not a directory", a non-writable directory raises "not writable", a failing mkdir propagates |
| `Extension.SupportDirIdempotent` | Scripts/lib/extension.js:46-62 | resolving the support directory a second time gives the same answer and changes nothing |
| `Extension.SupportDir` | Scripts/lib/extension.js:46-62 | the host calls (access, mkdir, stat, access) produce exactly the result and filesystem of `SupportDirOutcome` |
| `Utils.GetLocalConfig` | Scripts/lib/utils.js:16-20 | the value is a lookup in the global store overridden by the workspace store: the workspace value when set, else the global one, null only when neither is set |
| `Utils.IsWorkspace` | Scripts/lib/utils.js:42-48 | false exactly when the workspace path is null or undefined |
| `Utils.EnsureWorkspace` | Scripts/lib/utils.js:53-65 | rejects exactly when `isWorkspace` is false, with the `<prefix>.msg.not-workspace-error` message key |
| `Utils.EnsureFolder` | Scripts/lib/utils.js:68-96 | resolves exactly when the workspace path is present and non-empty and names a writable directory; a missing or empty path is reported as such |
| `Utils.IsProject` | Scripts/lib/utils.js:102-121 | resolves exactly when `.nova` is writable and a directory; a missing `.nova` fails the writability check |
| `Utils.EnsureNovaFolderExists` | Scripts/lib/utils.js:126-151 | creates `.nova` when absent and creatable, changes nothing else, and resolves with its path exactly when it is then a writable directory |
| `Utils.IndexOf` | Scripts/lib/utils.js:154 | `indexOf` gives the first index holding the value, or -1 exactly when the value is absent |
| `Utils.FilterFromMembers` | Scripts/lib/utils.js:154 | the filter pass from index `i` keeps exactly the values whose first occurrence is at `i` or later |
| `Utils.FilterFromOrdered` | Scripts/lib/utils.js:154 | the filter pass lists what it keeps in strictly increasing order of first occurrence |
| `Utils.FilterDuplicatesSpec` | Scripts/lib/utils.js:153-154 | the result has no element twice, has the same elements as the input, keeps them in the order of their first occurrence, and is no longer than the input |
| `Utils.FilterDuplicatesOfDistinct` | Scripts/lib/utils.js:153-154 | a sequence without duplicates is returned unchanged |
| `Utils.FilterDuplicatesIdempotent` | Scripts/lib/utils.js:153-154 | applying `filterDuplicates` twice gives the same as applying it once |
| `Readme.MarkerPathsCoincide` | Scripts/main.js:151-153 | the marker path is the support directory joined with the hash of the README path; two READMEs share a marker exactly when their hashes collide |
| `Readme.SeenKeyIsNamespaced` | Scripts/main.js:31-33 | the flag key splits into the prefix, `conf` and `seen` |
| `Readme.ResetCommandIsNamespaced` | Scripts/main.js:202 | the reset command splits into the prefix, `cmd` and `reset` |
| `Readme.InitOutcome` | Scripts/main.js:175-197 | at most one event; an event means the README existed, the marker did not, and afterwards the marker holds the fixed text and `seen` is true; no event means the flag and the marker's presence are unchanged; nothing is deleted and only the support directory and marker may change |
| `Readme.RemoveOutcome` | Scripts/main.js:156-172 | no event; an absent marker leaves the flag; a present marker is either removed with the flag cleared or left untouched with the flag; only the support directory and marker may change |
| `Readme.InitWithoutReadme` | Scripts/main.js:55-66 | without `<workspace>/README.md` the check changes nothing: no marker, no flag write, no event |
| `Readme.InitWithMarker` | Scripts/main.js:182-184 | with the marker present the check writes nothing, leaves the flag and emits no event |
| `Readme.InitFirstSight` | Scripts/main.js:175-194 | README present, store usable, marker absent: the marker is written with "Created by Nova README extension.", `seen` is set and exactly one event fires; if the marker cannot be opened, neither the flag nor the events change and no marker appears |
| `Readme.InitWithUnusableStore` | Scripts/main.js:178-184 | if the support directory cannot be resolved, the check changes nothing |
| `Readme.InitIdempotent` | Scripts/main.js:175-197 | running the check twice gives the same state as running it once |
| `Readme.InitTwiceEmitsAtMostOnce` | Scripts/main.js:182-190 | two checks emit at most one "open-readme" |
| `Readme.RemoveWithMarker` | Scripts/main.js:159-166 | a present, removable marker is removed and `seen` becomes false, with no event |
| `Readme.RemoveWithoutMarker` | Scripts/main.js:162-167 | without a marker, reset leaves the flag and every path except the support directory |
| `Readme.RemoveIdempotent` | Scripts/main.js:156-172 | running reset twice gives the same state as running it once |
| `Readme.ResetThenInitShowsAgain` | Scripts/main.js:156-197 | reset followed by a check removes and rewrites the marker, sets `seen` and emits one more event |
| `Readme.OperationsKeepConsistent` | Scripts/main.js:156-197 | if `seen` mirrors the marker's existence before the check or reset, it still does after |
| `Readme.ReadmeTracker.HasReadme` | Scripts/main.js:55-72 | resolves with `<workspace>/README.md` exactly when it is accessible, otherwise rejects |
| `Readme.ReadmeTracker.HashedReference` | Scripts/main.js:151-153 | resolves the support directory, with its effect on the filesystem, and on success returns the marker path of the README |
| `Readme.ReadmeTracker.WriteReference` | Scripts/main.js:75-89 | succeeds exactly when the marker can be opened for writing, and then holds the fixed text; on failure nothing changes |
| `Readme.ReadmeTracker.InitReferenceFile` | Scripts/main.js:175-197 | the new filesystem, flag and event count are `InitOutcome` of the old ones |
| `Readme.ReadmeTracker.RemoveReferenceFile` | Scripts/main.js:156-172 | the new filesystem, flag and event count are `RemoveOutcome` of the old ones |
| `Readme.ReadmeTracker.UpdateSeen` | Scripts/main.js:124-130 | `updateSeen(true)` is the check and `updateSeen(false)` is the reset |

## Left out

- `Readme.InitTwiceEmitsAtMostOnce`, `Readme.OperationsKeepConsistent`: both hold only for checks and resets that run one after the other. `activate` breaks both (`Scripts/main.js:219-221`). It sets `seen` to true without condition before the first check, so with no README, or with a marker that cannot be opened, the flag stays true with no marker. If that write changes the flag, the listener starts a second `initReferenceFile` chain beside the one at line 221. Both chains can find the marker absent at line 182 before either writes it, which gives two "open-readme" events. Interleaved promise chains are not modelled.
- `activate` and `deactivate` (`Scripts/main.js:210-231`) and `state.activated` are not modelled. This covers the `Promise.all` over the guards, the flag write before the first check, and the `reject(false)` at line 225, where `reject` is not defined.
- The event emitter, its listener, `nova.workspace.openFile` and `activeTextEditor` (`Scripts/main.js:39-49`, `95-119`) are not modelled. Emitting "open-readme" is a counter.
- Registering the command and the configuration listener is not modelled (`Scripts/main.js:135-148`, `202-204`). The listener's effect is `UpdateSeen`.
- `log` and `notify` (`Scripts/lib/utils.js:3-34`) and `nova.localize` are not modelled. The message of `ensureWorkspace` is its localisation key.
- Promise sequencing is not modelled. Each chain is a sequence of steps, and a rejection ends the chain. `removeReferenceFile` leaves its promise pending when the marker is absent; the model does not capture pending.
- `Scripts/core/commands.js` is not part of this model. `stringToHash` is an arbitrary function, and `canAccessPath` is existence in the path map.
- Host filesystem semantics are abstracted. Permissions are one `writable` flag per node. Failures of `mkdir`, `open` and `remove` are a fixed set of denied paths. Directories created by `mkdir` are writable. Paths are not normalised, and `nova.path.join` is concatenation with `/`.
- A `write` that throws after a successful `open` is not modelled. It would leave an empty marker with no flag write and no event.
- `Utils.EnsureFolder`: the `stat` check at `Scripts/lib/utils.js:81-83` is not a separate branch. In this filesystem a writable path always exists, so that check cannot fail.
- `Utils.GetLocalConfig`: the `type` coercion argument is not modelled. A key set to null in the workspace store counts as absent.
- `Utils.FilterDuplicates` uses Dafny equality. Unlike JavaScript's `===`, it treats NaN as equal to itself, so the model does not capture that `filterDuplicates` drops every NaN.
- The configuration flag is a boolean. The model does not capture values of other types that a user could write into the settings.
