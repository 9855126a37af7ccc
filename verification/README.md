# Verified model of an nginx control plane

The system keeps a desired nginx configuration in `state.json` and makes the running nginx follow
it. A daemon (Rust) stores the state with optimistic concurrency, renders it into a directory tree,
tests it, backs up, switches directories and reloads; a desktop application (TypeScript) reaches
remote machines over SSH and moves SSH secrets from an `.env` file into a credential store. This
project models the parts of both in which order, failure and concurrency matter, and proves what
they guarantee, including where a guarantee stops.

`dafny verify dfyconfig.toml` checks everything.

## The modules

- `Protocol` is the daemon's control loop as a transition system. One step is one lock-protected
  section or one fallible call. Puts, the one reconcile that holds the apply lock, failures of every
  call, partly done removals and renders, outside edits of the runtime directory, and crashes with
  restart interleave freely. `ProtocolInvariant` has what each step keeps; `ProtocolRuns`,
  `ProtocolPipeline`, `ProtocolStatus`, `ProtocolSyncState`, `ProtocolSwitch` and `ProtocolSkip` have
  the theorems about whole runs.
- `Deployment` puts the real renderer, validation and directory hash into the protocol. `Daemon` has
  the two objects themselves, `StateStore` and `ApplyService`, whose methods change fields and
  directories; each is shown to make a run of `Protocol` (`ProtocolPlay` replays the actions).
- `Validation`, `Renderer`, `RendererParser`, `RendererText`, `RendererOrder`, `RendererListing` and
  `ConfigHash` cover the checks, the compiler from states to file trees, the parser that inverts it, and the directory
  hash. The loops are methods, proved against declarative functions. A directory reaches the hash as
  a listing, in whatever order the system enumerates it.
- `Api` and `ShellQuoting` cover entity tags, conditional puts and the backup command line.
- `EnvFile`, `EnvMeaning`, `SecretsRepository` and `Migration` cover the secret migration; `SshConnection`,
  `SshCallers` and `SshExecutor` the SSH layer.

The hash function, nginx, tar and the JSON reader are not modelled: the hash is an arbitrary
function on the collected bytes, the others succeed or fail as they like. Revisions are 64-bit and
wrap as in a release build; theorems about histories say `NoWrap`, which `ShortRunsNeverWrap`
discharges for every run that cannot exhaust the counter and which is exactly what the order of the
revisions needs (`OrderedIffNoWrap`, `WrapBreaksOrder`).

## Where the code and its documents disagree

The model follows the code.

- docs/10-consistency-model.md:23 says that IN_SYNC means the runtime is the rendering of the current
  state. What it means is this. With a recorded hash, the last success wrote it, and the runtime
  directory holds the rendering of the state that success had read, or what the last edit since its
  switch left (`InSyncMeans`); without edits the document is right exactly when the current state
  renders like that one, and so whenever the observed revision is current (`InSyncIsTrueIff`).
  Without a recorded hash nothing has been applied since the start (`InSyncAtStart`). The document
  fails in three ways: every start says IN_SYNC whatever the directory holds (`StartSaysInSync`), also
  one after a crash between the two renames (`RestartSaysInSync`); an edit leaves the status alone
  (`EditGoesUnnoticed`); and `mark_in_sync` overwrites the desired revision with the one it applied,
  so a put that overtakes the apply is hidden (`PutCanBeHidden`), which happens exactly when a put
  installs a state during the apply (`StaleIff`). The next reconcile is then not skipped
  (`BehindNeverSkips`); if it succeeds with no further put or edit, it converges (`Convergence`).
- docs/10-consistency-model.md:41 promises an idempotent reconcile. Reconciling a converged daemon is a
  no-op exactly when the two hashes of the rendering agree (`IdempotentIff`). The hashes cover
  root-prefixed names, so they agree exactly when staging and runtime are the same directory or the
  hash collides (`HashesMeetIff`), and with separate roots every skip exhibits a collision
  (`NoDriftNeedsCollision`, `DaemonNeverSkips`). With root-relative names the promise would hold (`RelativeNamesAreRootFree`,
  `RootFreeHashIsIdempotent`).
- docs/11-failure-model.md:17 asks for a rollback when the reload fails; there is none
  (`ReloadFailureKeepsNewTree`). Line 16 asks for a restore when the switch fails; its own failure is
  ignored, and a later reconcile that finds the runtime directory missing first deletes `.previous`,
  the only copy of the old tree (`RecoverableIff`).
- The shutdown of the SSH manager does not stop an attempt in flight, whose client can become active
  right after it (`InFlightOutlivesShutdown`); and a second shutdown clears the flag of the first,
  which alone lets a client become active while a shutdown waits (`ActivationNeedsOverlap`,
  `OverlapReopens`).
- A caller can be handed an SSH client that has already closed (`HandsOutBrokenClient`): exactly when
  the client emitted an error or a close after ready and before the caller took it over
  (`HandedBrokenIff`). The active client is always sound (`ReusedIsSound`).
- The `.env` file is rewritten in place, so a crash during the cleanup can lose other variables
  (`TornLoadsExactly`, `TornCanLoseAll`), though it never brings a secret back (`TornLoads`).
- Names and contents are hashed without framing, so two different directories can have one hash
  whatever the hash function (`MergedFilesGoUnseen`); directories of one shape cannot, unless it
  collides (`SameShapeSameBytesIff`).
- Server ids are not checked for uniqueness, so the order of the servers can decide which text a
  file gets (`ServerOrderIrrelevantIff`, `OrderCanMatter`).
- A migration whose secrets come partly from the inherited environment and partly from the file can
  lose the file's part in a crash (`CrashSafeIff`, `MixedOriginsLoseSecrets`).

## Model

| member | source | states |
|---|---|---|
| ProtocolInvariant.StepInv | daemon/src/state_store.rs:62-138 | every step of every actor, crash and edit included, keeps the invariant on locks, revisions, status, staging tree and recorded hash |
| ProtocolRuns.RevisionsOrdered | daemon/src/state_store.rs:62-121 | in every reachable state observed <= desired <= memory <= disk, and disk is ahead by exactly one precisely between a put's file write and its memory write |
| ProtocolRuns.RevisionsMonotone | daemon/src/state_store.rs:62-121 | along any run the observed, memory and disk revisions never decrease and a revision never names two states |
| ProtocolRuns.GapFreeChain | daemon/src/state_store.rs:62-102 | the revision equals the starting revision plus the number of states adopted since: no gap, no duplicate |
| ProtocolRuns.OneWinnerPerRevision | daemon/src/state_store.rs:62-102 | two adopted states never get the same revision |
| ProtocolRuns.ConflictIffOvertaken | daemon/src/state_store.rs:62-74 | a put with a revision read earlier conflicts if and only if another state was adopted since |
| ProtocolRuns.AcknowledgedSurvives | daemon/src/state_store.rs:80-102 | after an acknowledged put every later disk and memory holds that state or a later revision, through crashes and failed writes, and is a valid state |
| ProtocolRuns.ShortRunsNeverWrap | daemon/src/state_store.rs:81 | a run shorter than the remaining counter never wraps, so the theorems apply to it |
| ProtocolRuns.WrapBreaksOrder | daemon/src/state_store.rs:81 | at the last revision every accepted put makes a run that ends with desired below observed |
| ProtocolRuns.OrderedIffNoWrap | daemon/src/state_store.rs:81 | in a run from a start the revisions are ordered in every state if and only if no put stores a wrapped revision |
| ProtocolPipeline.PipelineHistory | daemon/src/apply.rs:28-101 | whatever stage a reconcile is at, its earlier stages succeeded in the same reconcile, in order, on the tree rendered from the state it read |
| ProtocolPipeline.SwitchTestedAndBackedUp | daemon/src/apply.rs:67-85 | each directory switch installs exactly the tree tested earlier in that reconcile, after a backup taken when the disk was at least at the applied revision |
| ProtocolPipeline.ObservedNeedsFullPipeline | daemon/src/apply.rs:89-93 | between restarts the observed revision and the active hash change only after a successful test, backup, switch and reload of one reconcile, on the rendering of the state it read, and to that state's revision and hash |
| ProtocolPipeline.EarlyFailuresChangeNothing | daemon/src/apply.rs:67-101 | any number of reconciles that end by their backup leave runtime and previous trees, observed revision and hash unchanged, whatever puts interleave |
| ProtocolPipeline.Convergence | daemon/src/apply.rs:28-93 | a reconcile that reads the state after the last put and succeeds ends with all revisions equal, IN_SYNC, and the runtime tree equal to the rendering |
| ProtocolPipeline.OnlyOneStaleSuccess | daemon/src/apply.rs:28-93 | after the last put, every success but the first began after it and converges |
| ProtocolPipeline.StaysConverged | daemon/src/state_store.rs:112-121 | once the last put is observed, observed, desired and state revision stay equal through failures, edits and crashes |
| ProtocolPipeline.SettledStatus | daemon/src/state_store.rs:94-121 | outside a put's last step desired is observed or the current revision; IN_SYNC implies desired equals observed and no error |
| ProtocolPipeline.StaleMeansOvertaken | daemon/src/state_store.rs:112-121 | IN_SYNC on an old revision arises only at the end of an apply during which a put installed a newer state |
| ProtocolPipeline.PutCanBeHidden | daemon/src/state_store.rs:112-121 | from every state about to record success, any acceptable put yields a run that ends IN_SYNC with desired behind the state |
| ProtocolPipeline.BehindNeverSkips | daemon/src/apply.rs:44-51 | a reconcile that starts behind the state is never skipped, for any hash |
| ProtocolStatus.RecordedHash | daemon/src/state_store.rs:112-121 | a recorded hash and the observed revision beside it are those of the state that the last success since the last start had read |
| ProtocolStatus.InSyncMeans | docs/10-consistency-model.md:23 | IN_SYNC with a hash in any history: the runtime directory holds the rendering of the state the last success had read, or what the last edit since its switch left |
| ProtocolStatus.InSyncIsTrueIff | docs/10-consistency-model.md:23 | without edits since the switch, the runtime is the rendering of the current state iff that renders like the applied one; they are the same state if the observed revision is current |
| ProtocolStatus.InSyncAtStart | daemon/src/state_store.rs:38-45 | IN_SYNC without a hash is the status a start wrote; nothing succeeded since and the directory is as the start found it, but for edits |
| ProtocolStatus.StartSaysInSync | daemon/src/state_store.rs:38-45 | for every valid state and every content of the runtime directory there is a start that says IN_SYNC |
| ProtocolStatus.RestartSaysInSync | daemon/src/state_store.rs:38-45 | every history extends by a crash to one that says IN_SYNC with the runtime directory untouched, so also between the two renames |
| ProtocolStatus.EditGoesUnnoticed | daemon/src/apply.rs:31-43 | every history extends by any edit to one with the status unchanged |
| ProtocolStatus.StaleIff | daemon/src/state_store.rs:112-121 | a success leaves IN_SYNC behind the settled state if and only if a state was adopted while it was applying and no put is about to write its status |
| ProtocolSyncState.StatusAfter | daemon/src/state_store.rs:94-137 | the whole status after every step: PENDING_APPLY on an acknowledged put, OUT_OF_SYNC with the drift, APPLYING, IN_SYNC on what was applied, DEGRADED with the error, IN_SYNC without a hash on restart, and unchanged by every other step |
| ProtocolSyncState.StatusStays | daemon/src/state_store.rs:94-137 | between such writes the status never changes, in any history |
| ProtocolSyncState.ApplyingMeans | docs/10-consistency-model.md:24-25 | while a reconcile applies, the status carries no error and is APPLYING, or PENDING_APPLY iff a put was acknowledged since the apply began |
| ProtocolStatus.DesiredDropsIff | daemon/src/state_store.rs:112-121 | a success takes the desired revision back if and only if a put was acknowledged while it was applying |
| ProtocolStatus.DesiredDropsWhenOvertaken | daemon/src/state_store.rs:112-121 | and nothing else does: every decrease is such a success |
| ProtocolSwitch.CrashSafeSwitch | daemon/src/apply.rs:137-166 | if the runtime directory exists at the start, then at every step and after any failure or crash it holds the whole old or whole new tree, or is missing with the old tree in `.previous` |
| ProtocolSwitch.MissingOnlyIfRestoreFails | daemon/src/apply.rs:151-157 | a reconcile that found a runtime directory leaves one whatever fails, unless the process crashes or the old tree cannot be moved back |
| ProtocolSwitch.RecoverableIff | daemon/src/apply.rs:142-157 | the whole old or new tree can be found in every single-reconcile run if and only if the runtime directory exists at its start |
| ProtocolSwitch.LosingRun | daemon/src/apply.rs:142-157 | from every idle state without a runtime directory there is a run in which both directories are gone |
| ProtocolSwitch.LostOnlyIfMissingAtStart | daemon/src/apply.rs:137-166 | over any number of reconciles, puts, failures and crashes without edits, some whole tree is in place or in `.previous`, unless a reconcile began with the runtime directory missing |
| ProtocolSwitch.ReloadFailureKeepsNewTree | daemon/src/apply.rs:84-99 | in every history, once the error of a failed reload is recorded the switched-in tree is still in place but for edits, the status is degraded with that error, and observed revision and hash are unchanged |
| ProtocolSkip.SkipIff | daemon/src/apply.rs:33-51 | in any history a reconcile is skipped, changing nothing, if and only if the last success since the last start applied the very state it read and that state's staging hash is the runtime directory's hash |
| ProtocolSkip.DriftIff | daemon/src/apply.rs:34-66 | drift is reported if and only if the runtime directory does not have the hash of what the last success since the last start applied |
| ProtocolSkip.NeverSkips | daemon/src/apply.rs:33-51 | if no staging hash is ever a runtime hash, every comparison in every run reports drift |
| ProtocolSkip.NoSkipBeforeFirstSuccess | daemon/src/apply.rs:35-51 | after a start or restart no reconcile is skipped before the first success, for any hash |
| ProtocolSkip.IdempotentIff | docs/10-consistency-model.md:41 | reconciling a converged daemon changes nothing if and only if the staging hash and the runtime hash of the rendering are equal; otherwise it reports drift |
| ProtocolSkip.RootFreeHashIsIdempotent | docs/10-consistency-model.md:41 | with a hash that ignores the root, reconciling a converged daemon changes nothing at all |
| ProtocolSkip.SecondReconcileIff | docs/10-consistency-model.md:41 | the reconcile after a quiet success leaves the whole system as it was if and only if those two hashes are equal |
| Deployment.NoDriftNeedsCollision | daemon/src/renderer.rs:117-128 | with root-prefixed names and separate roots, in any history a comparison that reports no drift, so every skip, exhibits two different byte sequences with one hash |
| Deployment.DaemonNeverSkips | daemon/src/renderer.rs:117-128 | so without such a collision no history of the daemon reaches the skip branch |
| Deployment.HashesMeetIff | daemon/src/apply.rs:189-192 | for every hash, the daemon's two hashes of a rendering are equal if and only if the two roots are the same path or the hash collides on the two byte sequences |
| Deployment.ChangedContentIsSeen | daemon/src/apply.rs:179-194 | changing one runtime file leaves the runtime hash as it was if and only if the hash collides on the two byte sequences |
| Deployment.MergedFilesGoUnseen | daemon/src/apply.rs:188-192 | for every hash, merging two files can leave the runtime hash as it was |
| Deployment.DriftReasonExact | daemon/src/apply.rs:196-208 | the reason names the missing path, or the expected hash first and the found one last |
| Deployment.RelativeNamesAreRootFree | daemon/src/apply.rs:179-194 | hashing root-relative names would make the two hashes of a tree equal, for any hash and roots |
| Deployment.StatesAlwaysValid | daemon/src/state_store.rs:16-33 | in every history every state in memory and on disk meets the declarative specification of validation |
| ProtocolPlay.PlayIsRun | daemon/src/apply.rs:28-101 | actions that can be replayed one by one form a run of the protocol with the replayed end state |
| ProtocolPlay.PutOutcomeExact | daemon/src/state_store.rs:62-87 | the same of the protocol's put, with a conflict whenever the revision differs |
| Daemon.StateStore.LoadOrInit | daemon/src/state_store.rs:16-52 | starts exactly on a missing or valid file, in an initial state of the protocol, and otherwise leaves the file alone |
| Daemon.StateStore.PutState | daemon/src/state_store.rs:62-102 | succeeds exactly when the revision matches, the author is not blank, the new state is valid and the file is written; the new state on disk and in memory has the draft's author and servers, the old schema version and the next revision, and the status is pending on it; otherwise nothing changes and the error says why; makes exactly the put's actions of a protocol run beside any reconcile |
| Daemon.StateStore.MarkApplying | daemon/src/state_store.rs:104-110 | the status write of the protocol's applying step |
| Daemon.StateStore.MarkInSync | daemon/src/state_store.rs:112-121 | the status write of the protocol's success step, desired revision included |
| Daemon.StateStore.MarkDegraded | daemon/src/state_store.rs:123-129 | the status write of the protocol's failure step |
| Daemon.StateStore.MarkOutOfSync | daemon/src/state_store.rs:131-137 | the status write of the protocol's drift step |
| Daemon.ApplyService.Compare | daemon/src/apply.rs:34-70 | skips exactly when nothing is behind and no drift is seen; otherwise marks drift, if any, and applying, as the protocol does |
| Daemon.ApplyService.MoveIn | daemon/src/apply.rs:151-157 | a failed switch puts the old tree back, and leaves it in `.previous` only if that fails too; the first error is always the one reported |
| Daemon.ApplyService.CommitStaging | daemon/src/apply.rs:137-166 | fails with exactly the first fault it meets; success leaves the staged tree in place; if the runtime directory existed and is now missing, the old tree is in `.previous`; its steps are the protocol's |
| Daemon.ApplyService.Pipeline | daemon/src/apply.rs:67-85 | returns the rendering's hash with the rendering in place, or exactly the first fault in pipeline order |
| Daemon.PipelineFaultExact | daemon/src/apply.rs:67-85 | the pipeline meets no fault iff each call it makes succeeds, a dry run making neither test nor reload; an earlier fault hides later ones |
| Daemon.ApplyService.HashRuntime | daemon/src/apply.rs:33 | the hash of the runtime directory from any listing of it, or none if it is missing |
| Daemon.ApplyService.ReconcileOnce | daemon/src/apply.rs:28-101 | makes a protocol run of its own actions only; is skipped, converges, or records the first fault, each under its exact condition; a fault up to the switch leaves the old tree in place unless the restore fails, a later one the new tree |
| Api.EtagRoundTrip | daemon/src/api.rs:88-104 | parsing the entity tag of any 64-bit revision gives that revision |
| Api.EtagExact | daemon/src/api.rs:101-104 | the tag is the decimal revision in double quotes |
| Api.IfMatchIff | daemon/src/api.rs:88-99 | a header names revision n iff it is readable and is a numeral for n, with an optional plus sign, in any quotes in any spaces; a missing one is a required precondition, any other is invalid input |
| Api.PutNeedsPrecondition | daemon/src/api.rs:38-50 | a put without a readable precondition is refused for that, any other is decided by the store |
| Api.OptimisticConcurrency | daemon/src/api.rs:29-57 | in every history a draft sent with the tag of an earlier GET is refused as a conflict if and only if another state was adopted in between, and if accepted it becomes, author and servers, the next revision |
| Validation.CheckListens | daemon/src/state_store.rs:154-163 | the set-building loop accepts exactly lists of pairwise distinct defaulted listen tuples |
| Validation.CheckExtraDirectives | daemon/src/state_store.rs:166-175 | accepts exactly lists in which no directive is sensitive |
| Validation.CheckHeaders | daemon/src/state_store.rs:191-200 | accepts exactly lists in which no header is sensitive |
| Validation.CheckRoutes | daemon/src/state_store.rs:177-221 | the nested loops accept exactly routes with valid, pairwise distinct paths, clean headers and clean actions |
| Validation.ValidateState | daemon/src/state_store.rs:148-224 | accepts exactly the states that meet the declarative specification |
| Validation.ValidStateIff | daemon/src/state_store.rs:148-224 | the specification, flat: non-blank ids, distinct listens up to absent flags, distinct paths that begin with a slash, no sensitive directive or header, clean targets |
| Validation.SensitiveIff | daemon/src/state_store.rs:226-268 | a name or directive is sensitive iff one of the listed words stands somewhere in it, in any case |
| Validation.HasCredentialsIff | daemon/src/state_store.rs:245-255 | a target has credentials iff an at sign follows its first `://` before any slash, question mark or hash |
| Renderer.Sanitize | daemon/src/renderer.rs:143-147 | a file name as long as the id, of plain characters only |
| Renderer.SanitizeExact | daemon/src/renderer.rs:143-147 | exactly the plain ids stay as they are, changed characters become underscores, and sanitising twice is sanitising once |
| Renderer.PlainCharExact | daemon/src/renderer.rs:143-147 | the characters kept are the ASCII letters, digits, hyphen and underscore |
| Renderer.RenderServer | daemon/src/renderer.rs:44-100 | the buffer loops print exactly the lines of the server's projection, routes in path order |
| Renderer.PushServers | daemon/src/renderer.rs:37-102 | the loop leaves one include per enabled server and the file map of their projections |
| Renderer.RenderToStaging | daemon/src/renderer.rs:18-106 | the tree it writes is the rendering, whose contents the parser and file-map theorems fix |
| RendererParser.ParseServerText | daemon/src/renderer.rs:44-100 | a parser gives back everything a server's text was printed from |
| RendererParser.RenderRoundTrip | daemon/src/renderer.rs:25-106 | the rendered tree of a state with newline-free fields, no extra directives and distinct file names parses back to its projection |
| RendererParser.RenderExact | daemon/src/renderer.rs:25-106 | two such states render alike if and only if their projections are equal |
| RendererText.ExtraDirectivesExact | daemon/src/renderer.rs:92-100 | for every server: its text is that of the server without extra directives less the closing line, then one indented line per directive in order, then the closing line |
| RendererText.DirectivesMatterIff | daemon/src/renderer.rs:92-98 | servers that differ in newline-free directives only have equal texts iff the directives are equal |
| RendererText.TextLiteral | daemon/src/renderer.rs:44-100 | for all field values, the literal lines of a server with a listen, TLS, a static and a redirect route, a disabled route and a directive |
| RendererText.OneServerLiteral | daemon/src/renderer.rs:41-106 | for all servers, the literal tree of a state with one |
| RendererText.RootLiteral | daemon/src/renderer.rs:25-32 | the literal tree of a state without enabled servers |
| RendererListing.RenderCanBeListed | daemon/src/renderer.rs:22-23 | every rendered tree is the content of a real directory with distinct names |
| RendererOrder.FileMapExact | daemon/src/renderer.rs:37-106 | the root includes every enabled server in id order, each file holds the text of the last server with its sanitised id, nothing else exists, and files are as many as enabled servers iff sanitised ids are distinct |
| RendererOrder.FileCount | daemon/src/renderer.rs:41-101 | there are at most as many files as servers, and as many iff sanitised ids are distinct |
| RendererOrder.InOrderExact | daemon/src/renderer.rs:34-40 | the servers rendered are exactly the enabled ones, ascending by id |
| RendererOrder.InOrderCount | daemon/src/renderer.rs:34-40 | each enabled server is rendered as often as it is listed, a disabled one never |
| RendererOrder.RoutesExact | daemon/src/renderer.rs:67-90 | the printed routes are exactly the enabled ones, ascending by path (INV-4 of the domain model) |
| RendererOrder.SameIdOrder | daemon/src/renderer.rs:34-35 | permuting the servers never changes the order of ids |
| RendererOrder.RouteOrderIrrelevant | daemon/src/renderer.rs:67-90 | for every valid state, permuting the routes of all servers leaves every rendered byte unchanged |
| RendererOrder.ServerOrderIrrelevantIff | daemon/src/renderer.rs:34-42 | permuting servers never changes the tree if and only if no two enabled servers share the greatest id of a file and differ in text |
| RendererOrder.DistinctIdsUnambiguous | daemon/src/state_store.rs:149-152 | distinct ids rule that out |
| RendererOrder.OrderCanMatter | daemon/src/state_store.rs:149-152 | any valid server and a renamed copy form a valid state in which order matters |
| ConfigHash.CollectFiles | daemon/src/apply.rs:210-223 | the recursive collection appends exactly the files of the walk |
| ConfigHash.WalkIndependentOfEnumeration | daemon/src/apply.rs:210-223 | two listings of one directory, with entries in another order at any level, hold the same files and give the same sorted walk |
| ConfigHash.PermutedIsRelisted | daemon/src/apply.rs:211 | any permutation of a directory's entries is such a listing |
| ConfigHash.SortedWalk | daemon/src/apply.rs:184-186 | the sorted walk is the ascending listing of the files a directory holds |
| Ordering.PathLeIff | daemon/src/apply.rs:186 | a path precedes another iff it is a prefix of it or smaller in the first component that differs |
| Ordering.LexLeIff | daemon/src/renderer.rs:35 | a string precedes another iff it is a prefix of it or smaller at the first character that differs |
| ConfigHash.SameFilesSameBytes | daemon/src/apply.rs:184-192 | directories with the same files feed the same bytes to the hash |
| ConfigHash.HashDirectory | daemon/src/apply.rs:179-194 | the digest is the hash of the tree's bytes, whatever the enumeration order |
| ConfigHash.TreeBytesExact | daemon/src/apply.rs:188-192 | no file gives no bytes, and one more file, greater than all others, adds root, slash, name and content at the end: the two laws fix the bytes of every tree |
| ConfigHash.JoinedPathSplits | daemon/src/apply.rs:190 | the shown name splits back into the components of the path |
| ConfigHash.ContentIsHashed | daemon/src/apply.rs:191 | changing the content of one file always changes the bytes |
| ConfigHash.SameShapeSameBytesIff | daemon/src/apply.rs:188-192 | trees with the same files of the same sizes give the same bytes if and only if they are equal |
| ConfigHash.UnframedFilesMerge | daemon/src/apply.rs:188-192 | without that, for all contents: a file that ends with root, name and content of the next gives the bytes of the two files |
| ConfigHash.SeparateRootsDiffer | daemon/src/apply.rs:189-192 | under separate roots a non-empty tree never feeds the same bytes as any other tree |
| ConfigHash.SameBytesSameRoot | daemon/src/apply.rs:189-192 | a non-empty tree feeds the same bytes under two roots if and only if the roots are equal |
| ConfigHash.DefaultRootsSeparate | daemon/src/config.rs:24-26 | the default staging and runtime directories are separate |
| ShellQuoting.EscapedIsOneWord | daemon/src/apply.rs:247-250 | a POSIX tokenizer reads the escaped form of any string as one word equal to it, in any context |
| ShellQuoting.BackupCommandSplits | daemon/src/apply.rs:118-135 | for all paths the backup command splits into exactly its five words |
| EnvFile.LoadDesktopEnv | apps/desktop/src/main/main.ts:91-112 | the loading loop computes first-wins loading and counts exactly the variables it added |
| EnvFile.CleanupEnvFile | apps/desktop/src/main/secrets/migrateDesktopSecrets.ts:61-89 | leaves the cleaned text and writes exactly when it differs |
| EnvFile.CleanedLoads | apps/desktop/src/main/secrets/migrateDesktopSecrets.ts:61-89 | for every text and inherited environment, loading the cleaned file gives the original result minus the secrets it added |
| EnvFile.CleanedLoadsIntoEmpty | apps/desktop/src/main/secrets/migrateDesktopSecrets.ts:61-89 | into an empty environment: the original map minus the secret keys |
| EnvFile.TornLoads | apps/desktop/src/main/secrets/migrateDesktopSecrets.ts:87-88 | whatever prefix of the cleaned text reached the disk, loading it adds no secret |
| EnvFile.TornLoadsExactly | apps/desktop/src/main/main.ts:91-112 | any prefix of a text loads the variables of its whole lines, and at most the variable of the line it cuts, with a prefix of its value text |
| EnvFile.TornCanLoseAll | apps/desktop/src/main/secrets/migrateDesktopSecrets.ts:87-88 | a write cut off at once loses every variable that the cleaned file keeps |
| EnvFile.LoadOne | apps/desktop/src/main/main.ts:91-112 | a file of one plain assignment adds exactly that variable |
| EnvMeaning.FirstWins | apps/desktop/src/main/main.ts:93-112 | a variable already set keeps its value, any other gets that of the first line that assigns it, and is unset if none does |
| EnvMeaning.AssignmentExact | apps/desktop/src/main/main.ts:99-109 | a line assigns to the text before its first equals sign, without the spaces around it, the text after it |
| EnvMeaning.QuotedValue | apps/desktop/src/main/main.ts:43-57 | a value in matching quotes is what stands between them |
| EnvMeaning.PlainValue | apps/desktop/src/main/main.ts:43-57 | any other is itself without the spaces around it; a lone quote is empty |
| EnvMeaning.IgnoredLine | apps/desktop/src/main/main.ts:94-102 | blank lines, comments and lines without a key load nothing |
| EnvMeaning.SplitAtBreak | apps/desktop/src/main/main.ts:93 | a line feed ends a line, with or without a carriage return before it |
| EnvMeaning.CleanedUnchangedIff | apps/desktop/src/main/secrets/migrateDesktopSecrets.ts:66-85 | cleaning writes nothing iff no line assigns a secret and no line feed follows a carriage return |
| SecretsRepository.NormalizeHostSecrets | apps/desktop/src/main/secrets/SecretsRepository.ts:49-68 | the loop over the known keys keeps exactly the properties with non-empty text |
| SecretsRepository.MergeExact | apps/desktop/src/main/secrets/migrateDesktopSecrets.ts:121-130 | from the spread on own properties: the four environment fields replace the stored ones wholesale, undefined included, only the token survives, and verification cannot fail |
| SecretsRepository.ReplacementLosesIff | apps/desktop/src/main/secrets/migrateDesktopSecrets.ts:121-124 | dropping undefined properties before the spread would store another record if and only if a stored field is not set by the environment |
| SecretsRepository.StoreTwice | apps/desktop/src/main/secrets/migrateDesktopSecrets.ts:121-126 | storing a second collection changes nothing exactly when its four fields are the same |
| Migration.CleanupRemovesSecrets | apps/desktop/src/main/secrets/migrateDesktopSecrets.ts:132 | wherever the cleanup stops, the file is untouched or free of secrets |
| Migration.CrashSafeIff | apps/desktop/src/main/secrets/migrateDesktopSecrets.ts:91-142 | for every sequence of crash points the final record equals the uninterrupted one if and only if the secrets have one origin |
| Migration.FileOnlyIsCrashSafe | apps/desktop/src/main/secrets/migrateDesktopSecrets.ts:91-142 | secrets that all come from the file have one origin |
| Migration.MixedOriginsLoseSecrets | apps/desktop/src/main/secrets/migrateDesktopSecrets.ts:132-134 | with mixed origins a crash between cleanup and marker ends in a different record |
| Migration.TwoOriginsExist | apps/desktop/src/main/secrets/migrateDesktopSecrets.ts:132-134 | any inherited user name with a file that sets any plain password is such a case |
| Migration.NeverLost | apps/desktop/src/main/secrets/migrateDesktopSecrets.ts:126-134 | at every crash point after any number of restarts the secrets are in the untouched file or in the repository |
| Migration.CollectExact | apps/desktop/src/main/secrets/migrateDesktopSecrets.ts:22-53 | each field is the value of its own variable unless that is blank; the private key is the content of the file named by its path variable, which must exist, else of the file its text names, else that text |
| Migration.FieldsStored | apps/desktop/src/main/secrets/migrateDesktopSecrets.ts:121-126 | the stored record has exactly these fields, and the token of the old one |
| Migration.MarkerLast | apps/desktop/src/main/secrets/migrateDesktopSecrets.ts:126-134 | a launch that sets the marker has stored the record and cleaned the file, or found nothing to migrate and touched neither |
| Migration.StoreFirst | apps/desktop/src/main/secrets/migrateDesktopSecrets.ts:126-132 | a launch that touches the file has stored the record |
| Migration.Desktop.RunMigration | apps/desktop/src/main/secrets/migrateDesktopSecrets.ts:91-142 | the stateful migration cut off anywhere leaves what the launch function says; it reports a migration exactly when it was not cut off, the marker was unset and secrets were collected, and then every field of the record is said by its variable; a missing key file changes nothing; a finished one clears the secrets from the environment and nothing else |
| SshConnection.StepInv | apps/desktop/src/main/ssh/SSHConnectionManager.ts:28-157 | every event keeps: one unsettled attempt at most, none beside an active client or a set shutdown flag, none whose signal has fired, and a sound active client |
| SshConnection.AtMostOneInFlight | apps/desktop/src/main/ssh/SSHConnectionManager.ts:39-48 | over every order of events at most one attempt is unsettled; then no client is active, no shutdown flag is set, and every caller joins it |
| SshConnection.StartsOnlyWhenIdle | apps/desktop/src/main/ssh/SSHConnectionManager.ts:28-48 | an attempt starts only when none is unsettled, no client is active and no shutdown runs |
| SshConnection.SettledForGood | apps/desktop/src/main/ssh/SSHConnectionManager.ts:96-141 | an attempt settles once; an aborted or failed one never becomes active, a broken client never again |
| SshConnection.ActiveBecameReady | apps/desktop/src/main/ssh/SSHConnectionManager.ts:107-125 | the active client emitted ready while unsettled, and since then neither error nor close, and no shutdown was called |
| SshConnection.ActiveIff | apps/desktop/src/main/ssh/SSHConnectionManager.ts:107-128 | in every run a client is active iff it became ready in an unsettled attempt and since then emitted neither error nor close and no shutdown was called |
| SshConnection.AnswerExact | apps/desktop/src/main/ssh/SSHConnectionManager.ts:28-48 | a caller is refused iff the flag is set, else gets the active client if there is one, else joins the attempt in flight if there is one |
| SshConnection.NeverActivatesWhileShuttingDown | apps/desktop/src/main/ssh/SSHConnectionManager.ts:51-83 | in no run does a client become active while the shutdown flag is set |
| SshConnection.ShutdownMissesAttempt | apps/desktop/src/main/ssh/SSHConnectionManager.ts:51-60 | a shutdown that meets an unsettled attempt finds no active client, changes nothing and does not wait |
| SshConnection.ActiveAfterShutdown | apps/desktop/src/main/ssh/SSHConnectionManager.ts:51-83 | after a shutdown a client becomes active only from that attempt or from one started later outside a shutdown |
| SshConnection.InFlightOutlivesShutdown | apps/desktop/src/main/ssh/SSHConnectionManager.ts:51-60 | every run with an unsettled attempt extends by a shutdown and a ready event to one in which that client is active |
| SshConnection.ActivationNeedsOverlap | apps/desktop/src/main/ssh/SSHConnectionManager.ts:51-83 | a client becomes active while a shutdown call waits only if a shutdown was called while another waited |
| SshConnection.OverlapReopens | apps/desktop/src/main/ssh/SSHConnectionManager.ts:51-60 | conversely every run that ends with its first such overlap extends, with no shutdown called or ended, to one with a client active while a shutdown waits |
| SshConnection.FlagCanBeCleared | apps/desktop/src/main/ssh/SSHConnectionManager.ts:51-60 | every run with the flag set extends, with no shutdown ended, to such a state |
| SshConnection.UnsettledIff | apps/desktop/src/main/ssh/SSHConnectionManager.ts:96-157 | between any two points of a run an attempt stays unsettled if and only if its client emitted neither ready nor error and its signal did not fire; otherwise the first of these decides its outcome, and a close never does |
| SshCallers.AbortedByStarter | apps/desktop/src/main/ssh/SSHConnectionManager.ts:96-105 | an attempt is aborted if and only if the signal of the caller that started it had fired or fires first |
| SshCallers.FateDecided | apps/desktop/src/main/ssh/SSHConnectionManager.ts:159-185 | the first of its own abort and the take-over of the finished attempt settles what a caller receives, for good |
| SshCallers.DeniedByStarterIff | apps/desktop/src/main/ssh/SSHConnectionManager.ts:39-48 | a caller is denied by an abort if and only if it took over, its own signal not having fired, an attempt that its starter's signal ended; that signal is never its own |
| SshCallers.StarterDeniesOthers | apps/desktop/src/main/ssh/SSHConnectionManager.ts:39-48 | every run with an attempt unsettled under a signal goes on to one in which a later caller without a signal is denied because that signal fires |
| SshConnection.BrokenIff | apps/desktop/src/main/ssh/SSHConnectionManager.ts:114-125 | in every run a client is broken if and only if it emitted an error or a close at some point after it was ready |
| SshCallers.HandedBrokenIff | apps/desktop/src/main/ssh/SSHConnectionManager.ts:39-48 | a caller that takes over a successful attempt receives its client, which is broken if and only if it emitted an error or a close between ready and the take-over |
| SshCallers.ReusedIsSound | apps/desktop/src/main/ssh/SSHConnectionManager.ts:34-37 | a caller that is given the active client is given one that has emitted neither since it was ready |
| SshCallers.HandsOutBrokenClient | apps/desktop/src/main/ssh/SSHConnectionManager.ts:39-48 | whenever a client is active and its promise not yet done, a run goes on in which a later caller is handed that client already closed |
| SshConnection.SSHConnectionManager.GetClient | apps/desktop/src/main/ssh/SSHConnectionManager.ts:28-49 | the method takes the event machine's step and gives its answer |
| SshConnection.SSHConnectionManager.OnReady | apps/desktop/src/main/ssh/SSHConnectionManager.ts:107-128 | likewise for the ready callback |
| SshConnection.SSHConnectionManager.OnError | apps/desktop/src/main/ssh/SSHConnectionManager.ts:114-141 | likewise for the error callbacks |
| SshConnection.SSHConnectionManager.OnClose | apps/desktop/src/main/ssh/SSHConnectionManager.ts:120-125 | likewise for the close callback |
| SshConnection.SSHConnectionManager.OnAbort | apps/desktop/src/main/ssh/SSHConnectionManager.ts:96-105 | likewise for the abort listeners of all attempts on a signal |
| SshConnection.SSHConnectionManager.Shutdown | apps/desktop/src/main/ssh/SSHConnectionManager.ts:51-60 | likewise for the synchronous part of shutdown |
| SshConnection.SSHConnectionManager.FinishShutdown | apps/desktop/src/main/ssh/SSHConnectionManager.ts:62-82 | likewise for its end after waiting |
| SshExecutor.ExecOnClient | apps/desktop/src/main/ssh/SSHExecutor.ts:125-224 | an exec settles exactly by its first terminal event, with the output collected before it, and not at all without one |
| SshExecutor.ResultMeans | apps/desktop/src/main/ssh/SSHExecutor.ts:163-221 | by the event that ends it: exit code zero resolves with the trimmed standard output since the channel opened, any other close is rejected with the error parsed from standard error, else with that text or the code; abort, timer and open failure have their own codes |
| SshExecutor.OutputExact | apps/desktop/src/main/ssh/SSHExecutor.ts:193-202 | the collected output is the concatenation, in order, of the chunks after the first open |
| SshExecutor.ClosedAfterOpen | apps/desktop/src/main/ssh/SSHExecutor.ts:192-204 | an exec that a close ends had its channel opened before |
| SshExecutor.TerminalExact | apps/desktop/src/main/ssh/SSHExecutor.ts:163-221 | abort and timer end an exec at any time, a failed open only before the open, a close only after it, output never |
| SshExecutor.AttemptExact | apps/desktop/src/main/ssh/SSHExecutor.ts:92-117 | an attempt without a client, one aborted before and a silent one have their errors, and only a failed connection is retried |
| SshExecutor.ConnectFailedIsRemote | apps/desktop/src/main/ssh/SSHExecutor.ts:204-216 | an exec ends with the code of a failed connection only if the remote printed it and exited non-zero |
| SshExecutor.RetriedExecIsRemote | apps/desktop/src/main/ssh/SSHExecutor.ts:251-257 | an exec that is retried was one whose remote command claimed a failed connection |
| SshExecutor.ExecWithRetry | apps/desktop/src/main/ssh/SSHExecutor.ts:81-123 | at most maxRetries+1 attempts, all but the last retryable and not cancelled; the result is the last attempt's, or the abort of the delay exactly when that was retryable with attempts left; n attempts wait base*(2^(n-1)-1); the final throw needs a negative count; the hand-overs are counted, and each but in the last attempt had the remote claim a failed connection |
| SshExecutor.HandedAtMostOnce | apps/desktop/src/main/ssh/SSHExecutor.ts:92-95 | so the command is handed over at most once unless some remote command claims a failed connection |

## Left out

- Cancellation of an HTTP task in the middle of a put, and other writers of state.json or of the staging directory: the protocol assumes neither happens.
- Loss of power without fsync: a rename is atomic and durable, as the code assumes.
- JSON encoding, timestamps, log output and redaction: values are abstract; an error's text is whatever the failing call gives.
- Reading the runtime directory for its hash is one step, and so are a rename, the test, the backup and the reload; removals and rendering may stop part way.
- Paths are shown as root, slash, components; non-UTF-8 names and the lossy conversion are not modelled. Empty directories are not part of a tree.
- Validation.ValidateState: says which states are refused, not which message a refused route gets.
- Daemon.ApplyService.ReconcileOnce: takes the listings of the two directories it hashes as arguments, and is the reconcile alone; its interleaving with puts, edits and crashes is the subject of `Protocol`.
- RendererParser.RenderExact: extra directives are excluded because arbitrary lines can imitate any printed line.
- SshConnection: the one-second length of the shutdown timer; an abort signal fires at most once, as the platform guarantees.
- SshExecutor: reading the structured error from stderr is an arbitrary function; message redaction is left out; an exec without a terminal event ends by its timer.
- The choice of the `.env` file among candidates, host lists, keytar, Electron and ssh2 internals.
- HTTP serving, the Unix socket, the instance lock, signals, the Windows shell, and the desktop's pages, stores and adapters, which would only add easy members.
- Features that exist only in documents: rollback endpoint, overlay modes, blocking on recurrent drift.
