# Choros: verified models of four protocols

Four parts of the repository keep state that outlives a single call, and each makes a promise that no
finite set of cases settles. This project models them in Dafny and proves the promises.
`dafny verify dfyconfig.toml` checks everything.

**Releases** (`Release*.dfy`). The release scripts drive a remote store of tags, releases, bodies and
assets with single requests, each of which may be lost before or after it takes effect. A provenance
record in the release body works as a write-ahead log. `GitHub` is that store with its history; every
read or write of an operation lets the other actors run first (`Rely`), and every write must be one they
tolerate (`Permitted`). The cli publisher and the desktop publisher each run under a serial lock;
`dispatchLockstep` interleaves with both. The step relation `Advance` and the invariant `Consistent`
carry the results over whole runs: a versioned release never regresses, the pointer's version never
decreases, a record that says complete tells the truth, and any run can be cut anywhere and repeated.

**Port scanning** (`Port*.dfy`, `ProcessTree.dfy`, `InodeJoin.dfy`, `Limiter.dfy`). `PortManager` keeps an
index of detected ports in step with the events it emits. A scan suspends at two awaits, during which
sessions come, change and go; each synchronous block is one method, and a suspended scan is a value in
`suspended`. Below it are the traversal of the process table, the inode join whose writes arrive in any
order, and the concurrency limiter.

**The command line** (`Cli*.dfy`, `EditDistance.dfy`). The interactive form asks for a command's required
inputs, prints an argument list, and executes it: splitting, routing, parsing, positional assignment. The
round trip is proved from the keys pressed to the values the command runs with. Suggestions rest on a
restricted Damerau-Levenshtein distance, proved to be the cost of the shortest edit script.

**Config merges** (`Json*.dfy`, `Mcp*.dfy`, `ProfileShare.dfy`, `TomlBlock.dfy`, `HookLaws.dfy`,
`NestedHooks.dfy`). Three engines edit files that belong to the user: a map merge owned through a ledger
of written hashes or values, a marker-delimited text block, and a merge of event arrays. The results are
ownership over whole runs, idempotence, and the exact conditions under which uninstalling undoes
installing.

## Where the code does less than it means to

Each is a proved statement, with the exact condition under which the code does meet its promise.

- A build with an empty or nameless file is refused only after its draft is created; the draft's record
  cannot be read, and no later run for that tag succeeds (`ReleasePublish.UnreadableDraftBlocks`; an
  undisturbed run succeeds exactly for a `Publishable` inventory, in `ReleasePublish.PublishVersioned`).
  The publishing command lists real files, and for the cli only `*.tar.gz`
  (scripts/release/github-release.ts:633-635), so it can meet this with an empty file; a nameless one can
  only come from another caller of the exported `publishVersioned`.
- A cli release that itself holds a `version.txt` can be published but never served, because the pointer's
  inventory would name that file twice (`ReleasePointer.OwnVersionFileNeverServed`). Trying to serve it does
  lasting harm: the record left on the pointer cannot be read, so every later update, of any version, gives
  up (`ReleaseRecovery.UpdateUndisturbed` says exactly when, `ReleaseRecovery.PoisonIsForever` that nothing
  mends it). The publishing command takes only `*.tar.gz` for the cli, so this too needs another caller.
- The limiter does not bound how many callers run: a call that slips in between resolving a waiter and its
  resumption can put one more above the limit, and this can repeat without end (`Limiter.AnyNumberCanRun`).
  The callers running and resolved stay within the limit exactly in the runs without such a call
  (`Limiter.BoundedIffNoneLate`), the callers running exactly in those where nobody resumes while the limit
  is reached (`Limiter.ActiveBoundedIff`).
- The printed command line is not read back for an option named `help`, for a valued option whose name holds
  `=`, for a name `no-x` beside a boolean option `x`, and for a value or positional that starts with `-`, such
  as a negative number the form accepts. A yes to a boolean option whose name holds `=` is read back only if
  it happens to assign true to that option (`CliLimits` has each exact condition).
- Behind `--` the tokens are taken as they are exactly if no further `--` is among them: each is dropped
  (`CliDispatch.BehindDashes`).
- Uninstalling every MCP server leaves an empty `mcpServers` object behind in a file that had none
  (`McpRuns.UninstallRestoresFile`).
- When the user's part of a TOML file still holds a start marker, for example of a second block, merging
  eats into it each time: it settles, and removal undoes it, exactly when there is none
  (`TomlBlock.MergeSettlesIff`, `TomlBlock.RemoveUndoesIff`; `TomlBlock.MergeMayNotSettle` is such a text).
- An enforced profile key can make one more merge necessary (`ProfileShare.MergeTwiceIff` says when).
- Removing hooks does not bring back a value that was not an array under a managed event, nor a container
  that was not an object, nor the absence of a container an agent does not drop; and a root default set on
  merge, as Cursor's `version`, stays (`HookLaws.RemoveAfterMerge`).

## Model

| member | source | states |
|---|---|---|
| `ReleaseRuns.RunAdvances` | scripts/release/github-release.ts:239-530 | in every run of any operations by any actors, cut anywhere, any earlier store is related to any later one by `Advance`, and a consistent store stays consistent |
| `ReleaseRuns.FloorNeverDecreases` | scripts/release/github-release.ts:429-489 | the pointer release stays the one found, and the version it records never decreases, over every run |
| `ReleaseRuns.PointerNeverLies` | scripts/release/github-release.ts:466-529 | in every store of a run, a pointer that says complete holds exactly its recorded inventory with the manifest of its version, and both its tag and that of its version resolve to its recorded commit |
| `ReleaseRuns.CompleteNeverLies` | scripts/release/github-release.ts:308-337 | in every store of a run, a versioned release whose record says complete holds exactly its recorded inventory |
| `ReleaseRuns.VersionedNeverRegresses` | scripts/release/github-release.ts:308-337 | over every run a versioned release keeps its tag's commit, inventory, completeness, publication and uploaded bytes; once exact, its assets are frozen |
| `ReleaseRuns.ResolvesIffReaches` | scripts/release/github-release.ts:93-105 | a tag resolves to a commit exactly when its chain of annotations ends there: the cycle check rejects nothing else |
| `ReleaseLockstep.ShippedForever` | scripts/release/github-release.ts:341-393 | a shipped release stays shipped, and the pointer at or above it, in every later store |
| `ReleasePublish.PublishDespiteCrashes` | scripts/release/github-release.ts:239-339 | after any number of runs cut at any request, one undisturbed run with the same arguments succeeds and leaves exactly the release an uninterrupted run leaves: the notes given or else the generated ones, the complete record, exactly these files, published for the cli, a draft for the desktop |
| `ReleasePublish.PublishVersioned` | scripts/release/github-release.ts:239-339 | success means found, complete and exact, with the tag at the commit; a resumable store stays resumable and never makes the run throw; from a store without the release an undisturbed run succeeds exactly for a valid inventory, with the notes given or else the generated ones; malformed arguments and a release that is not this build's are refused with nothing changed; one already out is left as it is and reported; nothing but these files is ever uploaded |
| `ReleasePublish.UnreadableDraftBlocks` | scripts/release/github-release.ts:252-286 | an undisturbed first run for an inventory with an empty or nameless file throws and leaves a release whose record cannot be read; every later run for the tag, with whatever files and cut or not, fails |
| `ReleasePublish.UnreadablePersists` | scripts/release/github-release.ts:286-287 | no step of anybody mends an unreadable record of a versioned release |
| `ReleasePublish.PublishableIff` | scripts/release/github-release.ts:239-286 | of well-formed arguments exactly those with an empty or a nameless file are unpublishable |
| `ReleasePublish.FindOrCreate` | scripts/release/github-release.ts:258-285 | the found release, or a fresh pending draft recording this build's inventory |
| `ReleasePublish.CreateDraft` | scripts/release/github-release.ts:269-285 | the only effect is to append the pending draft; a lost reply may still have created it |
| `ReleasePublish.AcceptedIff` | scripts/release/github-release.ts:286-299 | a release found is accepted exactly when its record is of this tag and commit with the same asset names, and it is on the right channel |
| `ReleasePublish.FillRelease` | scripts/release/github-release.ts:300-327 | assets outside the record are refused; otherwise what is missing is filled in, and a partial release becomes exact |
| `ReleasePublish.CheckAssets` | scripts/release/github-release.ts:328-329 | the final verification: passing means an exact inventory and a tag at the commit; changes nothing of the release |
| `ReleasePublish.UploadMissing` | scripts/release/github-release.ts:308-327 | fills in what is missing without touching whole assets; resumable releases never make it throw |
| `ReleasePublish.FillOne` | scripts/release/github-release.ts:308-327 | one asset: kept if whole, replaced if a stub, refused if it conflicts |
| `ReleasePublish.Upload` | scripts/release/github-release.ts:324-326 | a cut upload leaves nothing, a stub or the whole asset, and nothing else changes |
| `ReleasePublish.MarkComplete` | scripts/release/github-release.ts:330-337 | asks for an exact inventory; the record is completed, and on the cli stream the release published, or nothing changes |
| `ReleasePublish.FinishRelease` | scripts/release/github-release.ts:286-338 | brings a found or created release to its complete form, throwing on no resumable release whose tag still points at the commit |
| `ReleasePublish.InventoryExact` | scripts/release/github-release.ts:220-237 | the final inventory of a record is exact for it |
| `ReleasePublish.ExactUnique` | scripts/release/github-release.ts:220-237 | an inventory leaves no freedom: two asset sets exact for it are equal |
| `ReleasePublish.FinalForm` | scripts/release/github-release.ts:328-338 | a fulfilled release that resumes this build is the one final release |
| `ReleasePublish.StillResumable` | scripts/release/github-release.ts:239-339 | no step of another actor takes a release out of its publisher's reach |
| `ReleaseClient.GitHub.constructor` | scripts/release/github-release.ts:39-45 | a connection to a store, with the run so far |
| `ReleaseClient.GitHub.Interfere` | scripts/release/github-release.ts:387-387 | between requests the others may do whatever leaves this actor's releases alone |
| `ReleaseClient.GitHub.Read` | scripts/release/github-release.ts:39-45 | a request without effect that may be lost on a faulty connection |
| `ReleaseClient.GitHub.Send` | scripts/release/github-release.ts:39-45 | a request takes effect or is lost before or after it does |
| `ReleaseClient.ResolveTag` | scripts/release/github-release.ts:82-106 | what is returned for a settled tag is what it resolves to; a throw means missing or broken |
| `ReleaseClient.AssertTag` | scripts/release/github-release.ts:108-120 | passing means the tag resolves to that commit; a throw means it did not |
| `ReleaseClient.ReleaseFor` | scripts/release/github-release.ts:160-183 | the published release of the tag, else the only draft, else none; a throw means several claim it |
| `ReleaseClient.TwoHolders` | scripts/release/github-release.ts:169-180 | two claims seen after no published one: a lookup of the tag has no answer |
| `ReleaseClient.Pigeonhole` | scripts/release/github-release.ts:225-235 | equal counts and every unique expected name found leave no extra and no missing asset |
| `ReleaseClient.VerifiedAssets` | scripts/release/github-release.ts:220-237 | passing means the release's assets are exactly the inventory; a throw means they are not |
| `ReleaseClient.ExactPersists` | scripts/release/github-release.ts:308-337 | a recorded inventory once exact stays exact under other actors' steps |
| `ReleasePointer.UpdateCliLatest` | scripts/release/github-release.ts:395-530 | true means the version is served; false means a strictly newer one is recorded; either means the release is out; a version served already is left as it is and answered with true; with a newer version that can be read off the pointer no run that is not cut answers otherwise than false; with a newer version recorded, or an unreadable record, nothing is changed; nothing is changed either unless the pointer passes every check; a ready store stays ready and never makes the run throw or decline; and all a run may have changed, wherever it was cut |
| `ReleasePointer.OutdatedIsDeclined` | scripts/release/github-release.ts:431-456 | in a consistent store an older tag gets its answer exactly unless the pointer's record cannot be read or it is off its channel |
| `ReleaseRecovery.RecoverDespiteCrashes` | scripts/release/github-release.ts:239-530 | however often and wherever runs for any tags up to the newest are cut, with releases published in between, the newest is ready to be served whenever its release is out |
| `ReleaseRecovery.ServeDespiteCrashes` | scripts/release/github-release.ts:395-530 | such cut runs and then an undisturbed one for the newest tag, which was in place at the start: if in the end its release is out, it is served and the run said so |
| `ReleaseRecovery.ReleaseDespiteCrashes` | scripts/release/github-release.ts:239-530 | a whole cli release: however often and wherever its publication and then its update are cut, an undisturbed run of each ends with it served |
| `ReleaseRecovery.PublishedIsSource` | scripts/release/github-release.ts:401-409 | what publishing leaves for the cli is what an update looks for |
| `ReleaseRecovery.Operate` | scripts/release/github-release.ts:239-530 | any sequence of updates and publications, each cut anywhere, leaves a version servable if no release moved to is newer than it or has its own `version.txt`; an unreadable pointer record stays as it is and no update succeeds |
| `ReleaseRecovery.ReadyIffOpen` | scripts/release/github-release.ts:429-485 | in a consistent store, what an update needs of the pointer depends on the version alone |
| `ReleaseRecovery.MovedStaysOpen` | scripts/release/github-release.ts:429-529 | whatever a cut update to a release up to the newest left of the pointer, the newest stays servable |
| `ReleaseRecovery.UpdateUndisturbed` | scripts/release/github-release.ts:417-428 | an undisturbed update leaves the newest version servable exactly when the release has no `version.txt` of its own or is outdated; otherwise the pointer's record can no longer be read |
| `ReleaseRecovery.PoisonIsForever` | scripts/release/github-release.ts:147-158 | once the pointer's record cannot be read, no later run changes the pointer and no update, for any version, succeeds |
| `ReleasePointer.ServedInventory` | scripts/release/github-release.ts:417-428 | what is served for a tag is exactly its release's assets and the manifest of its version |
| `ReleasePointer.OwnVersionFileNeverServed` | scripts/release/github-release.ts:417-428 | a release that itself holds a `version.txt` can never be served |
| `ReleasePointer.ReadSource` | scripts/release/github-release.ts:401-409 | the source is published, complete, exact and recorded for the tag and commit |
| `ReleasePointer.Serve` | scripts/release/github-release.ts:429-529 | from a verified source to a served pointer, whatever pointer there was |
| `ReleasePointer.InspectRecord` | scripts/release/github-release.ts:434-440 | a readable newer record declines; anything else goes on only if every check passes; an adoptable record is never rejected or declined |
| `ReleasePointer.InspectLegacy` | scripts/release/github-release.ts:441-464 | a legacy pointer is judged by an uploaded manifest of at most 100 bytes; a newer version in it declines; it is taken over only when its manifest and tags prove what it serves |
| `ReleasePointer.InspectServed` | scripts/release/github-release.ts:482-485 | an already complete pointer is verified before it is reported as served |
| `ReleasePointer.WriteRecord` | scripts/release/github-release.ts:486-490 | the newer version is recorded, or not, and nothing else changes |
| `ReleasePointer.CreatePointer` | scripts/release/github-release.ts:470-481 | a first pointer starts as a pending draft, and only when no orphan tag exists |
| `ReleasePointer.AdvancePointer` | scripts/release/github-release.ts:431-528 | an existing pointer is left to a newer version, which is answered with false, reported as served, or brought to this one; without passing every check it is not touched |
| `ReleasePointer.SyncAssets` | scripts/release/github-release.ts:491-509 | afterwards the pointer holds exactly the recorded inventory; throwing needs a repeated asset name |
| `ReleasePointer.FillOne` | scripts/release/github-release.ts:492-504 | the asset is in place and no other name was touched |
| `ReleasePointer.DropExtras` | scripts/release/github-release.ts:505-509 | afterwards no asset is outside the record |
| `ReleasePointer.CheckPointer` | scripts/release/github-release.ts:510-510 | passes exactly when the names are unique and the inventory exact |
| `ReleasePointer.MoveTag` | scripts/release/github-release.ts:511-522 | the tag is the old one or the new commit; afterwards it is the new commit |
| `ReleasePointer.TagBehindAssets` | scripts/release/github-release.ts:491-522 | whenever the rolling tag moves, in whatever run, the pointer already has every asset recorded for the commit it moves to |
| `ReleasePointer.MarkComplete` | scripts/release/github-release.ts:523-528 | the pointer is unchanged or completed, and the completed one is served |
| `ReleasePointer.FinishPointer` | scripts/release/github-release.ts:491-529 | from a recorded target to a served one |
| `ReleaseLockstep.DispatchLockstep` | scripts/release/github-release.ts:341-393 | both tags resolve to the commit; finished means shipped, dispatched means the publisher was just asked; with the tags at hand no run that is not cut ends otherwise than dispatched while the release is missing, a draft or pending, or while it is out and the pointer, left alone, is not there yet; with everything out and the pointer left alone none ends otherwise than finished |
| `ReleaseLockstep.FinishOrDispatch` | scripts/release/github-release.ts:360-392 | the same from both tags in place |
| `ReleaseLockstep.SettleTags` | scripts/release/github-release.ts:346-359 | both tags at the commit; no throw when the desktop tag is there and the cli tag is, or is missing and nobody else creates it |
| `ReleaseLockstep.UnfinishedBefore` | scripts/release/github-release.ts:360-367 | a release unfinished in the end was unfinished all along |
| `ReleaseLockstep.OutIsConfirmed` | scripts/release/github-release.ts:368-383 | in a consistent store a shipped release and a complete published pointer at or above it meet every condition of the verdict finished |
| `ReleaseLockstep.EnsureTag` | scripts/release/github-release.ts:348-359 | a missing cli tag is created; one at another commit is never moved; one at this commit, or one missing that nobody else creates, never makes the run throw |
| `ReleaseLockstep.CheckShipped` | scripts/release/github-release.ts:360-386 | true only when the release is out and the pointer at or above it, though every read may interleave with the publishers, and confirmed in full if it was left alone; true if it is out and the pointer confirmed; false if the release is unfinished or the pointer not there yet |
| `ReleaseLockstep.CheckPointer` | scripts/release/github-release.ts:368-383 | what the pointer check establishes still holds when the last read returns; left alone, a confirmed pointer passes it, one not there yet does not, and one that passes is confirmed |
| `ReleaseSteps.AdvanceTransitive` | scripts/release/github-release.ts:239-530 | steps compose: the relation of a run's stores is transitive |
| `ReleaseStore.VersionOrder` | scripts/release/github-release.ts:437-437 | versions are totally ordered part by part, the first differing part deciding |
| `ReleaseSteps.RelyTransitive` | scripts/release/github-release.ts:387-387 | what the others may do in two stretches they may do in one |
| `ReleaseSteps.FoundPersists` | scripts/release/github-release.ts:160-183 | a lookup's answer stays the answer |
| `ReleaseSteps.ResolvePersists` | scripts/release/github-release.ts:348-358 | a versioned tag keeps resolving to the same commit |
| `ReleaseSteps.ConsistentPersists` | scripts/release/github-release.ts:387-387 | a step that leaves the pointer alone cannot make it unsound |
| `ReleaseSteps.ReplaceVersioned` | scripts/release/github-release.ts:308-337 | a monotone change of an owned versioned release is tolerated by all others |
| `ReleaseSteps.AppendVersioned` | scripts/release/github-release.ts:276-284 | so is a new draft for an unclaimed tag |
| `ReleaseSteps.TagVersioned` | scripts/release/github-release.ts:354-358 | so is creating a missing versioned tag |
| `ReleaseSteps.DispatchPermitted` | scripts/release/github-release.ts:389-391 | so is a workflow dispatch |
| `ReleaseSteps.ReplacePointer` | scripts/release/github-release.ts:486-528 | so is a sound, non-decreasing change of the pointer |
| `ReleaseSteps.AppendPointer` | scripts/release/github-release.ts:470-481 | so is a first, pending pointer |
| `ReleaseSteps.TagPointer` | scripts/release/github-release.ts:512-522 | the pointer's tag may move only while its record does not say complete for another commit |
| `PortRuns.ListenersKnowTheIndex` | packages/port-scanner/src/port-manager.ts:396-522 | replaying the emitted events gives the index, and for each terminal and port additions and removals strictly alternate |
| `PortRuns.PerformAll` | packages/port-scanner/src/port-manager.ts:130-545 | over any run of operations and resumptions: the invariant holds, events only grow, and the run passes through states of which each follows from the last by exactly one operation |
| `PortRuns.ForcedUntilStarted` | packages/port-scanner/src/port-manager.ts:405-443 | over any run, aborts and errors included, a noted forced request stays noted until a forced scan begins or the scanner is stopped |
| `PortRuns.ForceHonoured` | packages/port-scanner/src/port-manager.ts:405-443 | a forced scan asked for while there is a session begins at the latest when the two reads of a scan next succeed with a session left, unless the scanner is stopped |
| `PortRuns.Perform` | packages/port-scanner/src/port-manager.ts:130-545 | one operation keeps the invariant, and its effect on the sessions, the suspended scan and the requests is the stated step |
| `PortRuns.FreshStep` | packages/port-scanner/src/port-manager.ts:284-327 | every operation of a prompt run keeps the bound on how old the last scan of a terminal was when the present one began |
| `PortRuns.NeverStale` | packages/port-scanner/src/port-manager.ts:284-316 | in a run whose reads succeed, with timer ticks at most `period` ms apart, scans of at most `scan` ms and table reads of at most `table` ms, a terminal that keeps its process is, from `table` ms after a scan it was due in began, never 30000 + max(`period`, `scan`) + `table` ms or more past its `lastScannedAt` |
| `PortRuns.OutputIsScanned` | packages/port-scanner/src/port-manager.ts:289-303 | over any run, a scan that begins within a minute of a terminal's output looks at the terminal |
| `PortRuns.QuietIsSkipped` | packages/port-scanner/src/port-manager.ts:289-303 | a terminal quiet for a minute and scanned in the last half minute is left alone unless the scan is forced |
| `PortIndex.MakeKeyInjective` | packages/port-scanner/src/port-manager.ts:505-507 | keys of different slots differ, even with a colon in the terminal id |
| `PortIndex.CoherentAlternates` | packages/port-scanner/src/port-manager.ts:445-522 | a coherent event sequence alternates per slot, starting with an addition |
| `PortIndex.AddKeepsFaithful` | packages/port-scanner/src/port-manager.ts:478-479 | announcing a new entry keeps events and index in step |
| `PortIndex.RemoveKeepsFaithful` | packages/port-scanner/src/port-manager.ts:399-400 | announcing a removal keeps events and index in step |
| `PortIndex.KeySlot` | packages/port-scanner/src/port-manager.ts:505-507 | a key tells its terminal and port |
| `PortManager.PortManager.constructor` | packages/port-scanner/src/port-manager.ts:145-148 | an empty, idle manager |
| `PortManager.PortManager.UpsertSession` | packages/port-scanner/src/port-manager.ts:155-174 | an unchanged pid keeps the idle clock; any other starts the session afresh |
| `PortManager.PortManager.UnregisterSession` | packages/port-scanner/src/port-manager.ts:179-183 | forgets exactly that terminal's session and ports, and stops with the last one |
| `PortManager.PortManager.CheckOutputForHint` | packages/port-scanner/src/port-manager.ts:189-195 | output refreshes activity; a hint schedules one scan at most |
| `PortManager.PortManager.StopPeriodicScan` | packages/port-scanner/src/port-manager.ts:232-251 | clears timers and requests, and touches no port |
| `PortManager.PortManager.Tick` | packages/port-scanner/src/port-manager.ts:201-213 | starts a scan of the due sessions or requests a follow-up |
| `PortManager.PortManager.FireHint` | packages/port-scanner/src/port-manager.ts:257-267 | the hint timer starts a scan of the due sessions or requests a follow-up, unless it was cleared |
| `PortManager.PortManager.ForceScan` | packages/port-scanner/src/port-manager.ts:543-545 | starts a scan of all sessions or requests a forced follow-up |
| `PortManager.PortManager.ScanAllSessions` | packages/port-scanner/src/port-manager.ts:405-415 | one scan at most; a second request is noted, with its force |
| `PortManager.PortManager.ResumeTrees` | packages/port-scanner/src/port-manager.ts:294-327 | stamps and reads exactly the due sessions still current; a failed read changes nothing but the scanning flag |
| `PortManager.PortManager.ResumePorts` | packages/port-scanner/src/port-manager.ts:405-443 | of each scanned terminal exactly the ports that are not ignored and that a process of it listens on are shown, with process, name and address of the least listener, keeping the time first seen; exited terminals show nothing, others are untouched; requests are carried into one follow-up, and survive an abort or error |
| `PortManager.ShowsEntries` | packages/port-scanner/src/port-manager.ts:363-372 | what a terminal shows, said of the listeners seen and the owners of their processes |
| `PortManager.OwnedHas` | packages/port-scanner/src/port-manager.ts:363-372 | a terminal gets exactly the listeners whose process it owns |
| `PortManager.LeastListener` | packages/port-scanner/src/port-manager.ts:87-98 | among listeners on a port there is a preferred one |
| `PortManager.PortManager.ApplyScan` | packages/port-scanner/src/port-manager.ts:424-429 | the same for the last block of a scan, with no orphan left although sessions may have gone meanwhile |
| `PortManager.PortManager.UpdatePortsFromScan` | packages/port-scanner/src/port-manager.ts:377-388 | each scanned terminal shows exactly its listeners; no other terminal changes |
| `PortManager.PortManager.UpdatePortsForTerminal` | packages/port-scanner/src/port-manager.ts:445-503 | the terminal shows one preferred listener a port; entries keep their workspace and the time first seen, new ones get theirs |
| `PortManager.PortManager.Show` | packages/port-scanner/src/port-manager.ts:463-495 | exactly what is announced: nothing for an unchanged entry, an addition for a new one, a removal and an addition for a changed one |
| `PortManager.PortManager.BuildPortsByTerminal` | packages/port-scanner/src/port-manager.ts:348-375 | listeners grouped by the terminal that owns their process |
| `PortManager.PortManager.ClearEmptyTreeTerminals` | packages/port-scanner/src/port-manager.ts:390-394 | drops exactly the ports of the exited terminals |
| `PortManager.PortManager.CleanupUnregisteredPorts` | packages/port-scanner/src/port-manager.ts:396-403 | drops exactly the ports of unregistered terminals |
| `PortManager.PortManager.RemovePortsForTerminal` | packages/port-scanner/src/port-manager.ts:509-522 | drops exactly that terminal's ports |
| `PortManager.Claim` | packages/port-scanner/src/port-manager.ts:329-346 | every process keeps its first owner |
| `PortManager.ReadsNext` | packages/port-scanner/src/port-manager.ts:310-327 | one due session more: noted if still current, skipped if replaced or gone |
| `PortManager.ChosenAreDeduped` | packages/port-scanner/src/port-manager.ts:456-459 | the listeners shown are the deduplicated ones without ignored ports |
| `PortOrder.CompareTotal` | packages/port-scanner/src/port-manager.ts:77-85 | the comparison is a total preorder, and zero only for equal listeners when collation ties only equal strings |
| `PortOrder.PreferenceOrder` | packages/port-scanner/src/port-manager.ts:77-85 | on a port the lower process wins, then the name, then the address: loopback, wildcard, other IPv4, then IPv6 likewise |
| `PortOrder.AddressRanks` | packages/port-scanner/src/port-manager.ts:51-69 | the rank of each kind of address |
| `PortOrder.DedupePortInfosByPort` | packages/port-scanner/src/port-manager.ts:87-98 | one entry a port, in increasing port order, each the least of its port |
| `PortOrder.DedupedUnique` | packages/port-scanner/src/port-manager.ts:87-98 | the result depends only on which listeners were seen, so not on their order |
| `PortOrder.OnePreferred` | packages/port-scanner/src/port-manager.ts:77-94 | a port has one preferred listener |
| `PortOrder.IncreasingUnique` | packages/port-scanner/src/port-manager.ts:97-97 | a strictly increasing list is determined by its members |
| `ProcessTree.GetProcessTreesForPids` | packages/port-scanner/src/scanner.ts:69-103 | for each live root exactly the processes reachable by parent links, each once; dead roots absent; terminates on cyclic tables |
| `ProcessTree.CollectTree` | packages/port-scanner/src/scanner.ts:88-98 | the stack walk visits exactly what is reachable, each once |
| `ProcessTree.IndexChildren` | packages/port-scanner/src/scanner.ts:77-84 | children by parent, in table order, and the live processes |
| `ProcessTree.ClosedHoldsPath` | packages/port-scanner/src/scanner.ts:91-98 | a set with the root and every child of a member holds everything reachable |
| `InodeJoin.BuildInodeToPid` | packages/port-scanner/src/procfs.ts:177-230 | each inode gets the least-ranked process seen holding it |
| `InodeJoin.JoinedUnique` | packages/port-scanner/src/procfs.ts:207-219 | every completion order of the same reads gives the same join |
| `InodeJoin.PidRankInjective` | packages/port-scanner/src/procfs.ts:254-255 | ranks are positions in the caller's list |
| `InodeJoin.GetListeningPorts` | packages/port-scanner/src/procfs.ts:265-287 | the listeners whose socket a listed process holds, in listing order |
| `InodeJoin.MatchMembers` | packages/port-scanner/src/procfs.ts:269-285 | a listener is reported exactly when its inode has a holder, with that holder |
| `InodeJoin.ScanOrderIndependent` | packages/port-scanner/src/procfs.ts:248-287 | for any completion orders and listing orders of the same facts the deduplicated scan results are equal |
| `Limiter.Limiter.constructor` | packages/port-scanner/src/procfs.ts:149-153 | an idle limiter |
| `Limiter.Limiter.Arrive` | packages/port-scanner/src/procfs.ts:155-162 | a caller starts at once below the limit and waits otherwise |
| `Limiter.Limiter.RunOn` | packages/port-scanner/src/procfs.ts:162-162 | a resolved caller resumes, whatever has happened since |
| `Limiter.Limiter.Done` | packages/port-scanner/src/procfs.ts:165-168 | a finished caller resolves the next waiter |
| `Limiter.NoneStranded` | packages/port-scanner/src/procfs.ts:149-170 | in every run, whoever waits has at least the limit of running or resolved callers ahead |
| `Limiter.BurstBounded` | packages/port-scanner/src/procfs.ts:149-170 | for a burst submitted before any completion the limit is never exceeded |
| `Limiter.FirstComeFirstServed` | packages/port-scanner/src/procfs.ts:155-168 | in every run waiting callers run on in the order they came, none lost and none served twice |
| `Limiter.BoundedIffNoneLate` | packages/port-scanner/src/procfs.ts:155-168 | throughout a run the callers running and resolved are within the limit exactly when no call slips in while they fill it |
| `Limiter.ActiveBoundedIff` | packages/port-scanner/src/procfs.ts:155-168 | throughout a run the callers running are within the limit exactly when no resolved caller resumes while the limit is reached |
| `Limiter.WithinUnlessLate` | packages/port-scanner/src/procfs.ts:155-168 | the limit is exceeded only after a call that slipped in |
| `Limiter.AnyNumberCanRun` | packages/port-scanner/src/procfs.ts:155-168 | for every positive limit and every number, some run reaches that number of callers running |
| `EditDistance.DistanceIsShortest` | packages/cli-framework/src/errors.ts:30-64 | the distance is the least cost of an edit script that edits no span twice |
| `EditDistance.EntryAchieved` | packages/cli-framework/src/errors.ts:46-61 | some script between the prefixes costs what the table entry says |
| `EditDistance.EntryLeast` | packages/cli-framework/src/errors.ts:46-61 | no script between the prefixes costs less |
| `EditDistance.DistanceSymmetric` | packages/cli-framework/src/errors.ts:30-64 | the distance is symmetric |
| `EditDistance.ZeroOnlyForEqual` | packages/cli-framework/src/errors.ts:30-64 | the distance is zero exactly for equal strings |
| `EditDistance.DamerauLevenshtein` | packages/cli-framework/src/errors.ts:30-64 | the in-place table computes the distance |
| `EditDistance.FillRow` | packages/cli-framework/src/errors.ts:46-61 | one row from the two before it |
| `EditDistance.SuggestSimilar` | packages/cli-framework/src/errors.ts:11-28 | the first candidate of least distance within the threshold, or none exactly when all exceed it |
| `CliRoundTrip.RoundTrip` | packages/cli-framework/src/runner.ts:220-400 | the line a filled form prints runs its command exactly if the options the form does not ask for do not stop it; then each option asked for holds its answer as a text, number, flag or list of these, each positional its own, and every other option its environment value or default |
| `CliRoundTrip.RunForm` | packages/cli-framework/src/runner.ts:240-257 | the same of the whole path: collect the fields, print the line, execute it |
| `CliRoundTrip.PrintedIsDispatched` | packages/cli-framework/src/runner.ts:285-310 | the printed line routes to the form's command, with positionals and flags apart |
| `CliRoundTrip.PrintedIsParsed` | packages/cli-framework/src/parser.ts:64-230 | the command's parser reads the printed flags as exactly the entered values, or rejects the line, exactly when the other options stop the command |
| `CliRoundTrip.PlainAssigned` | packages/cli-framework/src/runner.ts:341-372 | each positional gets its answer, in order, the variadic one all its words |
| `CliRoundTrip.AssignEntered` | packages/cli-framework/src/runner.ts:349-371 | from any point on, the assignment gives every positional what it must hold and raises no error |
| `CliRoundTrip.SplitPrinted` | packages/cli-framework/src/runner.ts:154-180 | everything before the first flag is for routing, everything from it on for the command |
| `CliRoundTrip.FilledAsAnswered` | packages/cli-framework/src/parser.ts:174-230 | filling in the other options leaves the entered ones as answered |
| `CliSessions.KeysRunAsEntered` | packages/cli-framework/src/interactive-help.ts:396-453 | keys that end in a run, with answers that fit, make the command run with exactly the values they gave, unless its other options stop it |
| `CliSessions.TypedRunsAsEntered` | packages/cli-framework/src/interactive-help.ts:396-453 | any fitting printable answers can be typed, and then the command runs with exactly those, unless its other options stop it |
| `CliSessions.PressAll` | packages/cli-framework/src/interactive-help.ts:396-453 | feeding the keys to a form is the run of its state machine |
| `CliSessions.VisitForm` | packages/cli-framework/src/runner.ts:240-257 | a visit executes a line exactly when the keys end in a run, and then the command runs with what they entered unless its other options stop it |
| `CliLimits.HelpNeverRuns` | packages/cli-framework/src/runner.ts:259-283 | a line with `--help` or `-h` runs no command, so an option named help cannot be filled in |
| `CliLimits.ValueReadBack` | packages/cli-framework/src/parser.ts:125-168 | a printed value is read back exactly when it does not look like a flag and suits the option |
| `CliLimits.NameReadBack` | packages/cli-framework/src/parser.ts:93-145 | a printed name is read back exactly when it holds no `=` and negates no boolean option |
| `CliLimits.PositionalReadBack` | packages/cli-framework/src/parser.ts:78-171 | a printed positional is read back exactly when it does not begin with a dash |
| `CliLimits.NegativeNumberRefused` | packages/cli-framework/src/parser.ts:110-135 | a negative number suits the form's field of a numeric positional, and its token is then refused as an unknown option |
| `CliLimits.YesReadBack` | packages/cli-framework/src/parser.ts:93-145 | a boolean option answered yes is read back exactly when its name negates no boolean option and, if it holds `=`, happens to assign true to itself |
| `CliLimits.NoReadBack` | packages/cli-framework/src/parser.ts:93-101 | a boolean option answered no is always read back |
| `CliLimits.AssignmentRead` | packages/cli-framework/src/parser.ts:104-123 | an assigned value is taken exactly if it suits the option, whatever it begins with, sets that option and is stored as what it says |
| `CliLimits.FlagForms` | packages/cli-framework/src/parser.ts:132-145 | a boolean option followed by true, 1, false or 0 takes it as its value |
| `CliLimits.ChildlessIffLast` | packages/cli-framework/src/router.ts:46-62 | a node has no children exactly when no registered path passes through it |
| `CliLimits.RegisteredLeaf` | packages/cli-framework/src/router.ts:46-62 | a command registered last under its path with nothing below it is where its path leads |
| `CliParser.ParseArgv` | packages/cli-framework/src/parser.ts:31-230 | the option table answers exactly the declared flags, and the result is the token fold with environment, defaults and checks |
| `CliParser.ParseTokens` | packages/cli-framework/src/parser.ts:64-172 | the index loop is the fold of single steps |
| `CliParser.BuildTable` | packages/cli-framework/src/parser.ts:43-62 | every flag of every option is in the table, and leads to an option that has it |
| `CliParser.CoerceIff` | packages/cli-framework/src/parser.ts:232-275 | a value is taken exactly if it is of the option's kind, integral and within bounds or among the choices, and is stored as what it says |
| `CliParser.FillSupplies` | packages/cli-framework/src/parser.ts:174-230 | an option not given has its environment value, or else its default, or is absent |
| `CliOptions.ParseOptions` | packages/cli-framework/src/parser.ts:93-168 | the printed flags of a list of options parse to exactly the entered values, from any state |
| `CliOptions.ParseOption` | packages/cli-framework/src/parser.ts:93-168 | the tokens of one answered option set that option and nothing else |
| `CliOptions.ParseVariadic` | packages/cli-framework/src/parser.ts:158-167 | a repeated flag collects its values in order |
| `CliOptions.ParsePlain` | packages/cli-framework/src/parser.ts:170-171 | plain tokens become positionals, in order |
| `CliOptions.ReadAsFlag` | packages/cli-framework/src/parser.ts:78-123 | a fitting flag is taken for neither help, version, negation nor assignment |
| `CliOptions.StepNo` | packages/cli-framework/src/parser.ts:93-101 | `--no-x` sets x to false |
| `CliOptions.StepYes` | packages/cli-framework/src/parser.ts:132-145 | a flag before another flag or the end sets its option to true and takes one token |
| `CliOptions.FlagAnswers` | packages/cli-framework/src/parser.ts:43-62 | with distinct flags `--name` leads to its own option only |
| `CliOptions.EnteredMeans` | packages/cli-framework/src/parser.ts:232-275 | what an answer is read back as: its flag, its text, its number, or the list for its words in order |
| `CliForm.CollectRequiredFields` | packages/cli-framework/src/interactive-help.ts:56-87 | required positionals, then visible required options, in declaration order |
| `CliForm.AskedExactly` | packages/cli-framework/src/interactive-help.ts:56-87 | the inputs asked for are exactly the required visible ones without a default |
| `CliForm.BuildRunArgs` | packages/cli-framework/src/interactive-help.ts:95-128 | the path, then the tokens of each answered field in order |
| `CliForm.WordsOfJoined` | packages/cli-framework/src/interactive-help.ts:90-92 | any list of words can be typed into a variadic field and comes back in order |
| `CliForm.WordsLoseNothing` | packages/cli-framework/src/interactive-help.ts:90-92 | the words hold every visible character of the text, in order |
| `CliForm.TrimTwice` | packages/cli-framework/src/interactive-help.ts:436-444 | a trimmed answer is trimmed |
| `CliForm.Form.constructor` | packages/cli-framework/src/interactive-help.ts:498-505 | an empty form |
| `CliForm.Form.Commit` | packages/cli-framework/src/interactive-help.ts:387-394 | stores the answer, moves on, and asks for confirmation after the last field |
| `CliForm.Form.Handle` | packages/cli-framework/src/interactive-help.ts:396-453 | each key is one step of the form's state machine; only a full form of suitable answers runs |
| `CliForm.Form.Confirm` | packages/cli-framework/src/interactive-help.ts:404-416 | enter runs the printed line; left or backspace reopens the last field |
| `CliForm.Form.Choose` | packages/cli-framework/src/interactive-help.ts:420-429 | arrows wrap around the choices; enter commits the chosen one |
| `CliForm.Form.Input` | packages/cli-framework/src/interactive-help.ts:430-452 | yes or no, or trimmed text that a number field only takes if it is a number |
| `CliForm.KeysWhileTyping` | packages/cli-framework/src/interactive-help.ts:430-452 | what each key does in a text field |
| `CliForm.KeysWhileChoosing` | packages/cli-framework/src/interactive-help.ts:420-429 | the arrows wrap around, enter takes the choice they stand on |
| `CliForm.KeysWhileFlagging` | packages/cli-framework/src/interactive-help.ts:430-434 | yes, no, and nothing else |
| `CliForm.KeysWhileConfirming` | packages/cli-framework/src/interactive-help.ts:404-416 | back to the last field with its text, or run |
| `CliFormRuns.RunIsComplete` | packages/cli-framework/src/interactive-help.ts:396-453 | whatever keys are pressed, a command runs only when every field holds an answer that suits it |
| `CliFormRuns.AnyAnswersCanBeGiven` | packages/cli-framework/src/interactive-help.ts:396-453 | every list of suitable printable answers can be typed, and then exactly it is printed |
| `CliRouter.BuildTree` | packages/cli-framework/src/router.ts:16-65 | the tree and the command map are those of the registered entries, in order |
| `CliRouter.TreeHoldsEntries` | packages/cli-framework/src/router.ts:30-62 | a path is in the tree exactly when it is a prefix of a registered one, and marked exactly when it is a command |
| `CliRouter.InsertAt` | packages/cli-framework/src/router.ts:46-60 | inserting a path changes the nodes on it and nothing else |
| `CliRouter.InsertKeepsNames` | packages/cli-framework/src/router.ts:46-60 | siblings keep distinct names |
| `CliRouter.CommandFound` | packages/cli-framework/src/router.ts:61-61 | a path leads to the command registered last under it |
| `CliRouter.JoinInjective` | packages/cli-framework/src/router.ts:61-61 | joined paths of slash-free segments are distinct |
| `CliRouter.RouteCommand` | packages/cli-framework/src/router.ts:67-109 | the walk is the recursive routing |
| `CliRouter.PathRoutes` | packages/cli-framework/src/router.ts:67-109 | the path of a childless node routes to that node and leaves the rest, aliases notwithstanding |
| `CliRouter.RouteIsSpelled` | packages/cli-framework/src/router.ts:67-109 | what is routed is a path of the tree that the leading tokens spell by name or alias |
| `CliRunner.IndexGlobals` | packages/cli-framework/src/runner.ts:148-152 | every name and alias of every global is known, and nothing else |
| `CliRunner.SplitArgsForRouting` | packages/cli-framework/src/runner.ts:144-182 | the loop is the recursive split |
| `CliRunner.AssignPositionals` | packages/cli-framework/src/runner.ts:341-372 | the loop is the recursive assignment, with its errors |
| `CliRunner.Execute` | packages/cli-framework/src/runner.ts:220-400 | help, version, unknown command or the command's own result, as dispatch decides |
| `CliDispatch.RouteEnds` | packages/cli-framework/src/router.ts:67-109 | routing goes as far down as the tokens name a child, by name or alias, and refuses a token that names none where there are some |
| `CliDispatch.SplitKeepsAll` | packages/cli-framework/src/runner.ts:144-182 | splitting loses no token and routes by no flag |
| `CliDispatch.LeadingGlobal` | packages/cli-framework/src/runner.ts:137-182 | a global flag in front of a command does not stop routing and reaches the command's parser with its value |
| `CliDispatch.FlagNames` | packages/cli-framework/src/runner.ts:158-167 | the bare name of a flag, in its three spellings |
| `CliDispatch.VersionShown` | packages/cli-framework/src/runner.ts:290-300 | a bare version flag shows the version |
| `CliDispatch.HelpShown` | packages/cli-framework/src/runner.ts:259-283 | a help flag behind a path shows its help; a path that is no command does too |
| `CliDispatch.UnknownRefused` | packages/cli-framework/src/router.ts:88-103 | a line whose first word names nothing is refused |
| `CliDispatch.OptionsOfCommand` | packages/cli-framework/src/runner.ts:314-330 | a command takes the global options and its own, which win |
| `CliDispatch.BehindDashes` | packages/cli-framework/src/parser.ts:64-76 | behind a double dash every token is a positional, whatever it looks like; only further double dashes are dropped |
| `CliDispatch.AssignIff` | packages/cli-framework/src/runner.ts:341-372 | a line is refused exactly for a missing required positional or a token too many |
| `Json.CanonicalMeansEqual` | packages/agent-setup/src/managed-mcp-servers.ts:84-100 | canonical forms agree exactly when the values agree up to key order, at every depth |
| `Json.SortKeeps` | packages/agent-setup/src/managed-mcp-servers.ts:90-100 | sorting the keys makes a value canonical and keeps its meaning |
| `Json.CanonicalUnique` | packages/agent-setup/src/managed-mcp-servers.ts:90-100 | each meaning has one canonical form |
| `McpServers.ClaudeConfig.constructor` | packages/agent-setup/src/managed-mcp-servers.ts:48-52 | the state file and its ledger record |
| `McpServers.ClaudeConfig.Sync` | packages/agent-setup/src/managed-mcp-servers.ts:130-254 | name by name: the user's entry stays and is forgotten, a desired one is there and recorded, any other of ours is gone; other keys stay; a file that cannot be read, or that changes meanwhile, is left as it is |
| `McpServers.EnteredAt` | packages/agent-setup/src/managed-mcp-servers.ts:180-214 | the same of the container and the record computed |
| `McpServers.Reap` | packages/agent-setup/src/managed-mcp-servers.ts:180-189 | drops exactly the entries of ours that are no longer desired |
| `McpServers.Apply` | packages/agent-setup/src/managed-mcp-servers.ts:191-214 | the container and the ledger record, name by name |
| `McpServers.MutatedMeans` | packages/agent-setup/src/managed-mcp-servers.ts:177-213 | the mutation flag is set exactly when the container changed |
| `McpServers.HashMatches` | packages/agent-setup/src/managed-mcp-servers.ts:84-88 | a recorded hash is matched exactly by values equal to the written one up to key order |
| `McpRuns.UsersForever` | packages/agent-setup/src/managed-mcp-servers.ts:180-214 | an entry that is the user's stays as others last wrote it, over every run of syncs, lost ledger writes and edits that keep it |
| `McpRuns.ChangedBecomesUsers` | packages/agent-setup/src/managed-mcp-servers.ts:201-208 | an entry found changed from its recorded hash keeps its value and becomes the user's |
| `McpRuns.SyncTwice` | packages/agent-setup/src/managed-mcp-servers.ts:130-254 | a second sync with the same servers changes neither file nor ledger |
| `McpRuns.SyncConverges` | packages/agent-setup/src/managed-mcp-servers.ts:180-214 | desired servers are there, as desired or as the user's own; reaped ones are gone |
| `McpRuns.UninstallRestores` | packages/agent-setup/src/managed-mcp-servers.ts:130-254 | after any syncs from an empty ledger, syncing nothing restores the server map and empties the ledger |
| `McpRuns.UninstallRestoresFile` | packages/agent-setup/src/managed-mcp-servers.ts:246-252 | the file itself comes back exactly when it had a server map or nothing was ever desired |
| `McpRuns.UninstallAfterEdits` | packages/agent-setup/src/managed-mcp-servers.ts:130-254 | after any run of syncs and edits, uninstalling empties the ledger, brings an entry that was never desired back as the others last left it, and takes away one that only a sync ever wrote |
| `McpRuns.UninstallLeavesTheirs` | packages/agent-setup/src/managed-mcp-servers.ts:130-254 | from whatever state of file and ledger, any syncs and then syncing nothing leave exactly the entries that were not ours in it |
| `McpRuns.NeverTakenOver` | packages/agent-setup/src/managed-mcp-servers.ts:180-214 | a name never desired is never recorded, and its entry is always as the others last left it |
| `McpRuns.StaysOurs` | packages/agent-setup/src/managed-mcp-servers.ts:180-214 | an entry that others only leave alone or delete stays absent or as recorded, over every run with a saved ledger |
| `ProfileShare.Profile.constructor` | packages/agent-setup/src/profile-sharing.ts:217-237 | a profile file and its ledger record |
| `ProfileShare.Profile.MergeSharedJsonKeys` | packages/agent-setup/src/profile-sharing.ts:246-298 | file, ledger record and outcome, for every state of the file: an absent or unreadable one is left alone; otherwise every enforced key holds its value, no key is lost, and unchanged means unchanged |
| `ProfileShare.Share` | packages/agent-setup/src/profile-sharing.ts:268-284 | the shared keys and the record, key by key |
| `ProfileShare.Enforce` | packages/agent-setup/src/profile-sharing.ts:286-290 | the enforced keys override, and drift is reported exactly when there is some |
| `ProfileShare.AlteredExactly` | packages/agent-setup/src/profile-sharing.ts:272-284 | outside the enforced keys a value changes exactly when the source offers another and it is still the one written; an absent key comes back |
| `ProfileShare.AdoptedExactly` | packages/agent-setup/src/profile-sharing.ts:275-280 | a key set in the profile becomes shared exactly when its value coincides with the source's |
| `ProfileShare.TheirsForever` | packages/agent-setup/src/profile-sharing.ts:268-292 | a value set in the profile survives every run until the source coincides with it |
| `ProfileShare.MergeTwiceIff` | packages/agent-setup/src/profile-sharing.ts:246-298 | a second merge finds nothing to do, exactly unless an enforced key that the profile had set otherwise now holds the source's or the last written value |
| `TomlBlock.TomlFile.constructor` | packages/agent-setup/src/managed-toml-block.ts:11-31 | a file under a spec |
| `TomlBlock.TomlFile.Ensure` | packages/agent-setup/src/managed-toml-block.ts:102-114 | the user's part, a blank line and the block, or whichever of the two there is; nothing is written for neither |
| `TomlBlock.FirstBlockCut` | packages/agent-setup/src/managed-toml-block.ts:74-84 | the first block of a text is cut out, and all before and behind it is kept |
| `TomlBlock.TomlFile.Remove` | packages/agent-setup/src/managed-toml-block.ts:121-135 | the user's part, or no file when nothing else is left |
| `TomlBlock.StripManagedBlock` | packages/agent-setup/src/managed-toml-block.ts:74-84 | the text without the block, or recovered from an unterminated one |
| `TomlBlock.StripOrphanedManagedBlock` | packages/agent-setup/src/managed-toml-block.ts:41-72 | the loops compute the recovery cut |
| `TomlBlock.RecoveryKeeps` | packages/agent-setup/src/managed-toml-block.ts:36-72 | recovery keeps all before the block, drops our tables up to the first foreign one, and keeps that table, the blank and comment lines before it and all behind it verbatim |
| `TomlBlock.MergeTwice` | packages/agent-setup/src/managed-toml-block.ts:90-100 | merging again changes nothing, when the base holds no start marker and the block fits its markers |
| `TomlBlock.RemoveAfterMerge` | packages/agent-setup/src/managed-toml-block.ts:90-135 | removing after merging is removing alone, under the same conditions |
| `TomlBlock.RemoveRestores` | packages/agent-setup/src/managed-toml-block.ts:90-135 | a text without markers comes back up to trailing white space |
| `TomlBlock.MergeSettlesIff` | packages/agent-setup/src/managed-toml-block.ts:74-100 | with a fixed block, merging again changes nothing exactly when the user's part holds no start marker |
| `TomlBlock.RemoveUndoesIff` | packages/agent-setup/src/managed-toml-block.ts:74-135 | removing after merging is removing alone exactly then, whatever block was built |
| `TomlBlock.SecondBlockStays` | packages/agent-setup/src/managed-toml-block.ts:74-84 | of a file that holds the block twice, stripping removes the first only |
| `TomlBlock.MergeMayNotSettle` | packages/agent-setup/src/managed-toml-block.ts:74-135 | a concrete text on which merging again changes the file and removal does not undo it |
| `TomlBlock.BaseKeptIff` | packages/agent-setup/src/managed-toml-block.ts:74-100 | the user's part survives a merge exactly when it holds no start marker |
| `TomlBlock.NoRotation` | packages/agent-setup/src/managed-toml-block.ts:80-82 | cutting a marked region out and appending a block behind never gives the text back |
| `TomlBlock.BaseOfAssembled` | packages/agent-setup/src/managed-toml-block.ts:90-100 | whatever was merged, the user's part is still what it was |
| `JsonHooks.StripManagedEntries` | packages/agent-setup/src/managed-json-hooks.ts:69-92 | the in-place edit strips each event, keeping key order |
| `JsonHooks.AppendDesired` | packages/agent-setup/src/managed-json-hooks.ts:118-124 | our entries are appended event by event |
| `JsonHooks.HooksFile.constructor` | packages/agent-setup/src/managed-json-hooks.ts:12-35 | a file under a spec |
| `JsonHooks.HooksFile.Ensure` | packages/agent-setup/src/managed-json-hooks.ts:100-141 | the merged root; an unusable file is left alone |
| `JsonHooks.HooksFile.Remove` | packages/agent-setup/src/managed-json-hooks.ts:147-191 | the root with our entries removed; an unusable or absent file is left alone |
| `HookLaws.MergeTwice` | packages/agent-setup/src/managed-json-hooks.ts:100-127 | merging a merged file changes nothing, not even key order |
| `HookLaws.MergedEvent` | packages/agent-setup/src/managed-json-hooks.ts:116-124 | each event holds the user's entries as cleaned, in order, and then exactly ours |
| `HookLaws.RemoveAfterMerge` | packages/agent-setup/src/managed-json-hooks.ts:100-191 | removing after a merge is removing alone exactly when the merge replaced no value of the user's, an added container is dropped again, and no root default was set |
| `HookLaws.EventsRestored` | packages/agent-setup/src/managed-json-hooks.ts:69-124 | at the level of events, exactly when every managed event held an array or nothing |
| `HookLaws.UserEntriesKept` | packages/agent-setup/src/managed-json-hooks.ts:76-82 | entries the cleaner leaves alone are all kept, in order |
| `HookLaws.CleanedInOrder` | packages/agent-setup/src/managed-json-hooks.ts:69-92 | item by item and in order, what is no object or array stays, and the rest is what the cleaner makes of it |
| `HookLaws.RootKept` | packages/agent-setup/src/managed-json-hooks.ts:100-191 | merging and removing touch no other key of the file |
| `HookLaws.DefaultSet` | packages/agent-setup/src/managed-json-hooks.ts:100-105 | a root default is set where there is none or an empty one, never over a value of the user's |
| `HookLaws.RemovedEvent` | packages/agent-setup/src/managed-json-hooks.ts:69-92 | after a removal an event holds the user's entries as cleaned, and is gone if there are none |
| `HookLaws.RemovedRoot` | packages/agent-setup/src/managed-json-hooks.ts:165-182 | removal rewrites the event map, or drops it where an agent wants no empty one |
| `NestedHooks.NestedSpecFits` | packages/agent-setup/src/managed-json-hooks.ts:193-228 | the shared cleaner and the entries built for it meet what the merge laws ask of a spec |
| `NestedHooks.CleanKeepsForeign` | packages/agent-setup/src/managed-json-hooks.ts:198-208 | exactly our inner hooks are dropped from a definition, and it goes only when nothing else was in it |
| `JsonObject.PutLooksUp` | packages/agent-setup/src/managed-json-hooks.ts:123-123 | assignment keeps a key's position or appends it |
| `JsonObject.DropLooksUp` | packages/agent-setup/src/managed-json-hooks.ts:87-87 | deletion removes one key and no other |

## Left out

Releases

- The HTTP client, hashing of local files and the command-line entry (scripts/release/github-release.ts:532-683): SHA-256 is taken as injective, so a digest is represented by the bytes it stands for.
- The text of the provenance marker: a body is its notes and its records. Notes are taken to form no marker of their own, and the parsed record to have the declared shape.
- ReleaseClient.ReleaseFor: the listing is one read, where the source fetches pages of 100. A release created while the pages are fetched shifts the entries, so one may appear on two pages; the source then throws "Multiple releases claim" although only one release does. What is said here of runs that never throw holds of listings that do not shift.
- Version and tag syntax: tags are a datatype, so a tag that is not a version is rejected as `Unrelated`.
- Asset ids: names are unique within a release, as the server guarantees.
- Edits by people during a run (publishing a desktop draft, changing notes, deleting a release): no actor does them.
- Release notes generated by the server are a fixed function of the tag. Error messages are a list of reasons; that a run throws is stated, not with which reason.

Port scanning

- Reading and parsing `/proc`, `lsof`, `netstat` and `wmic`: their results are inputs. So are the port-hint expressions and the clock.
- The abort controller and the timers themselves: an abort is one possible result of a suspended read, a timer one possible next step.
- `killPort`, the listings and the workspace filters, which only read the index.
- The order of a Map's entries: loops over maps pick in any order. Listeners are taken not to call back into the manager while it emits.
- `localeCompare` is the order of an abstract key. Order-independence needs that only equal strings tie.

Command line

- Help text, terminal painting, raw mode, middleware, output and signals. Browsing the tree up to the leaf is left out; the form and everything after it are modelled.
- Error messages and suggestions inside them; `coerce` errors of environment variables are one reason.
- `Number()` is a parameter, the same for form and parser; infinities are not modelled. Case folding of `true` and `false` covers ASCII letters.
- Property names inherited by JavaScript objects, and options whose key is `_help` or `_version`.
- The order of an options object decides only which option wins a flag two of them claim; the table is any that the declared flags allow.
- CliRouter.BuildTree: the tree is a value rebuilt along each inserted path, where the source changes shared nodes in place; nothing else refers to those nodes while it is built.
- Strings are sequences of Unicode characters, where the source counts UTF-16 units.

Config merges

- `toClaudeServerValue` and the rendering of Codex tables: desired values and blocks are inputs. `isServerSatisfiedExternally` and the reader of external servers are not part of this model.
- `syncSharedFile` (packages/agent-setup/src/profile-sharing.ts:182-215): the same rule as one key of the merge, on whole files.
- Reading and writing the ledger files and file modes. A ledger write that fails after the file was written is an event of the runs in `McpRuns`.
- Names inherited by JavaScript objects, such as a server called `constructor`.
- The key order of `mcpServers` and of profile files; hook files keep theirs.
- JavaScript keeps integer-like keys in front; a new key is appended here. JSON objects are values, so edits of nested objects in place are updates of the enclosing one.
- A null inner hook, on which the source's cleaner throws, counts as the user's.
- Stringified JSON text: values are compared as values, which `JSON.stringify` keeps apart.
- TomlBlock.MergeTwice: the converse is proved for a fixed block (`MergeSettlesIff`); a block computed from the base could repeat the text by design.
