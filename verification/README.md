# A verified model of roksbnkctl

roksbnkctl is a command-line tool that builds and tears down a BIG-IP Next for
Kubernetes installation on an IBM Cloud OpenShift cluster, by driving terraform
phase by phase. This project models its decision-making code in Dafny and proves
what that code keeps, round-trips, bounds and detects. `dafny verify dfyconfig.toml`
checks everything.

## The parts

**The applied-tfvars snapshot** (`BracketScanner`, `BracketText`, `TFVars`, `TFVarsText`,
`AppliedSnapshot`, `SnapshotRoundTrip`, `ReplayFile`). After an apply the tool writes every assignment
terraform was given into one sectioned file, with secrets redacted and unbalanced
values left out, and later reads it back as a var-file. The reader is a line-oriented
scanner whose index jumps over multi-line blocks. The scanner is proved against a
one-character automaton, the reader against a recursive parse, the writer against the
text it should produce; then reading is proved to undo writing. `BracketText` and
`TFVarsText` say, from the shape of a text alone, what is counted in it and read from it.

**`tfx wait`** (`PollWait`, `WatchWait`, `WaitDispatch`, `StallWatchdog`). A wait reads
the object, watches it from the version it read, watches again when a watch closes,
reads again when a version has expired, and falls back to polling once. The server is
an arbitrary version history with arbitrary closings, errors and expiries; the
watchdog's timer tick is interleaved step by step with the watch.

**The phases** (`Phases`, `PhaseCommands`, `PhaseEffects`, `PhaseSafety`, `PhaseTeardown`). Six phases
with their own terraform states, thirteen commands. Terraform is an adversary that may
leave anything behind after an apply and any subset after a destroy. Safety, the
teardown theorem and the rest are about every run of every command.

**Smaller cores.** `ArgShift` (a value lost from a flag list), `Bom` and `BomContents` (the bill of
materials), `AdvancedEnv` (computed environment overrides), `MirrorRecord` (the registry
mirror's record), `ShellQuote` (values written for a shell and read back), `SelfHeal`
(the bounded kubeconfig repair), `BinarySwap` (replacing the running binary).

`Text`, `Ordering` and `Wrappers` hold strings, sorting and optional values.

Where the source changes something step by step, the model is a method or a class with
loops and fields, proved equal to a function; the theorems are about that function. What
such a function comes to is also stated on its inputs alone, without its name or its helpers'.

## Where the code is not what it is said to be

Each of these is a lemma, with the condition under which the code does what it should.

- A value whose first line ends in whitespace that Go's `TrimSpace` removes and the
  assignment pattern does not (a vertical tab or a no-break space before a comment)
  changes in the snapshot; all others come back (`SnapshotRoundTrip.RoundTrip`,
  `SnapshotRoundTrip.UnprintableValueIsReached`).
- The later-wins merge happens after unbalanced values are filtered, so an unbalanced
  later value lets an earlier, stale one through (`SnapshotRoundTrip.RecordsWhatTerraformUsed`).
- The reader counts brackets line by line and the writers over the whole value. They
  agree on a closed block exactly if the lines that start inside an open string count the
  same there as on their own (`ReplayFile.ClosedBlockIsBalancedIff`), and can disagree
  (`ReplayFile.ReaderAndWriterCanDisagree`).
- The comment on the DNS limit speaks of consecutive failures. The count is since the
  last successful GET (`PollWait.FailuresNeedNotBeConsecutive`).
- A stall is reported as a stall only if the cancellation meets the loop while it drains
  a watch: in a GET it reads as a timeout, while a watch is being opened it starts the
  poll (`WaitDispatch.StallIsReportedIff`). The watch's own verdict that an object cannot
  become ready is not final either (`WaitDispatch.TerminalDiagnosisFallsBack`).
- The wait's own deadline is meant to end it as a timeout. If it passes while a watch is being
  opened, the raw error starts the poll, on a second full timeout
  (`WaitDispatch.DeadlineIsReportedIff`).
- A tick can trip on a state that has already moved on (`StallWatchdog.TripCanBeStale`), so a
  change does not always restart the clock: the watchdog can trip at the very moment of the
  change (`StallWatchdog.PromptTicksTripInTime`, `StallWatchdog.TripsAtTheChange`).
- Versions that come and go between an Expired and the fresh GET, or between a NotFound and
  the first delivery of the next watch, are never looked at; all others are
  (`WatchWait.PassedOverIff`, `WatchWait.GapAfterExpired`, `WatchWait.GapAfterNotFound`).
- The Gateway guard of `bnk down` lets the destroy through when presence cannot be read
  (`PhaseSafety.BnkGuardHoldsIff`).
- `flp up` and `tgw connect <name>` dereference a workspace that was never initialised
  (`PhaseSafety.CrashesIff`), and three of the six down commands report success on one
  (`PhaseSafety.UninitialisedDowns`).
- Recording a cluster without a VPC over a good record makes a teardown impossible while
  another phase needs the record (`PhaseTeardown.ReadyStepIff`, `PhaseTeardown.EmptyVpcStrands`).
- An apply that fails half way through a replacement can leave a Gateway without cluster
  or BNK (`PhaseSafety.HostedStepIff`, `PhaseSafety.FailedReplacementUnhosts`).
- An environment override does not override a value that config.yaml already holds
  (`AdvancedEnv.YamlBeatsEnvironment`).
- Converting an environment file takes the names of these overrides from the process
  environment and only their values from the file, so the ones that are in the file alone are
  dropped (`AdvancedEnv.FileOverrideIsAppliedIff`).
- A value with a newline, and some with quotes or a space-hash, does not come back from the
  environment file that was written for it (`ShellQuote.FileReadsBackIff`).
- A partial `registry delete` leaves the missing count alone, so the guard before an
  install passes a mirror with holes (`MirrorRecord.GuardAfterDeletes`).

## Model

| member | source | states |
|---|---|---|
| BracketScanner.BlockDepthDelta | internal/config/applied_tfvars.go:462-496 | the index-jumping counter computes the automaton's depth, for every text with strings, escapes, both comment forms and newlines |
| BracketScanner.HCLValueIsUnbalanced | internal/config/applied_tfvars.go:411-413 | a value is refused exactly if its brackets do not balance |
| BracketScanner.Compose | internal/config/applied_tfvars.go:462-496 | scanning a concatenation is scanning the second part in the mode the first one left |
| BracketScanner.DeltaAddsAtNewline | internal/config/applied_tfvars.go:399-413 | counts add at a newline when the text before it does not end in a string, whatever comment, escape or slash stands there |
| BracketScanner.DeltaAtNewline | internal/config/applied_tfvars.go:462-496 | the general law at a newline, strings left open included |
| BracketText.DeltaCountsCode | internal/config/applied_tfvars.go:462-496 | for a text made of code characters, quoted strings with escapes, comments and perhaps an unclosed string, the count is the openers less the closers of its code |
| BracketText.PlainTextCounts | internal/config/applied_tfvars.go:487-494 | without quotes and comments that is all openers of the three kinds less all closers |
| BracketText.PiecesOf | internal/config/applied_tfvars.go:462-496 | every text is made of such pieces |
| TFVars.MatchIsComplete | internal/config/applied_tfvars.go:224-226 | every line of the assignment shape matches, with its name and trimmed value |
| TFVars.MatchIsSound | internal/config/applied_tfvars.go:224-226 | only such lines match |
| TFVars.ConsumeBlock | internal/config/applied_tfvars.go:432-452 | a block is closed exactly if its depth reaches zero before falling below; it ends at the first such line; otherwise parsing resumes after the opener |
| TFVars.BlockLengthIsFirstZero | internal/config/applied_tfvars.go:415-452 | the length of a block is the first line at which the running depth is zero, with no negative depth before |
| TFVars.ReadAssignments | internal/config/applied_tfvars.go:320-397 | the loop that jumps its index reads what the recursive parse of the lines reads, and terminates |
| TFVars.DamagedBlockIsIsolated | internal/config/applied_tfvars.go:352-393 | an opener that never closes, or closes too hard, adds nothing, and the following lines add what they would on their own |
| TFVars.ParseIsOverlay | internal/config/applied_tfvars.go:335-396 | parsing overlays a file's own assignments on what was there, later lines winning |
| TFVars.ScanSplits | internal/config/applied_tfvars.go:337-396 | a file can be cut wherever the top-level scan passes |
| TFVarsText.CutAtLeftmostComment | internal/config/applied_tfvars.go:228-230 | a value is cut at the leftmost run of blanks that leads to a `#`, and nowhere else |
| TFVarsText.ReadLineIff | internal/config/applied_tfvars.go:338-350 | name and value are taken from a line exactly if the line spells them, whatever whitespace and comment go with it; a `#` that follows no blank belongs to the value |
| TFVarsText.SaidLinesAreEntries | internal/config/applied_tfvars.go:352-394 | such a line is an entry, with the lines of its block if it opens one; if nothing closes the block the line alone is dropped |
| TFVarsText.OtherLinesAddNothing | internal/config/applied_tfvars.go:338-347 | any other line adds nothing |
| AppliedSnapshot.RenderAppliedTFVars | internal/config/applied_tfvars.go:260-312 | the writer produces the specified snapshot text, or fails exactly if some source cannot be read |
| AppliedSnapshot.RenderEntries | internal/config/applied_tfvars.go:284-308 | one entry a key, in sorted order, whatever order the map yields |
| AppliedSnapshot.RenderEntry | internal/config/applied_tfvars.go:290-308 | redacted, skipped or written, in that order of precedence |
| AppliedSnapshot.ReadReplayAssignments | internal/config/applied_tfvars.go:108-124 | the replay is the parse of the snapshot without the redacted names |
| SnapshotRoundTrip.ParseIsWellFormed | internal/config/applied_tfvars.go:335-396 | everything the reader records has a name of the identifier shape and a value it would record again |
| SnapshotRoundTrip.RereadIsIdentity | internal/config/applied_tfvars.go:307-350 | a value comes back unchanged exactly if its first line does not end in whitespace foreign to the pattern |
| SnapshotRoundTrip.ReadWrittenValue | internal/config/applied_tfvars.go:320-397 | a written entry, multi-line blocks with assignment-like inner lines included, is read as one entry and the rest of the file after it |
| SnapshotRoundTrip.SnapshotReadsBack | internal/config/applied_tfvars.go:260-397 | reading a snapshot gives the later-wins merge of what its sources read back as |
| SnapshotRoundTrip.RoundTrip | internal/config/applied_tfvars.go:108-124 | replaying a snapshot gives exactly the later-wins merge of its sources restricted to names not redacted and values that balance, if and only if the winning values are printable |
| SnapshotRoundTrip.UnprintableValueIsReached | internal/config/applied_tfvars.go:338-350 | a source for which the replay is not the merge: a vertical tab before a comment |
| SnapshotRoundTrip.RecordsWhatTerraformUsed | internal/config/applied_tfvars.go:267-310 | the record is the recordable part of what terraform used exactly if no unbalanced last value hides an earlier recordable one |
| SnapshotRoundTrip.StaleValueIsKept | internal/config/applied_tfvars.go:301-308 | two one-line sources for which a stale value is recorded |
| SnapshotRoundTrip.RerenderIsFixedPoint | internal/config/applied_tfvars.go:260-312 | the snapshot of any snapshot, of whatever sources, is its own snapshot, character for character, and replays as the first one does |
| SnapshotRoundTrip.SecretsDoNotShow | internal/config/applied_tfvars.go:185-208 | sources that differ only in the values of redacted names give the same snapshot, character for character |
| ReplayFile.BlockCountsItsLines | internal/config/applied_tfvars.go:432-452 | the whole-value count of a block is the sum of its line counts when no line ends in a string |
| ReplayFile.ClosedBlockIsBalanced | internal/config/applied_tfvars.go:399-452 | a block the reader closes, with no line ending in a string, is never refused by a writer |
| ReplayFile.ClosedBlockIsBalancedIff | internal/config/applied_tfvars.go:399-452 | a closed block balances exactly if the lines that start inside an open string count the same, in sum, inside it as on their own |
| ReplayFile.ReaderAndWriterCanDisagree | internal/config/applied_tfvars_unterminated_test.go:164-180 | a text whose value the reader records although no writer would write it, against the name of the cited check |
| ReplayFile.ReaderAndWriterCanAgreeInStrings | internal/config/applied_tfvars.go:399-452 | a block whose lines end inside strings and that balances all the same |
| ReplayFile.WriteAppliedReplayFile | internal/orchestration/applied_replay.go:190-229 | the replay file has the specified text: header, then one entry a key in sorted order, unbalanced values commented out |
| ReplayFile.ReplayFileReadsBack | internal/orchestration/applied_replay.go:190-229 | reading a replay file gives back the assignments it was written from, and its entries, in order, are one for each name, multi-line values included |
| ReplayFile.ReplayIsEmittable | internal/orchestration/applied_replay.go:206-227 | nothing that comes out of a snapshot is skipped by the second guard |
| ReplayFile.ReplayFileIsFaithful | internal/orchestration/applied_replay.go:116-165 | from snapshot to replay file terraform gets exactly the replayed assignments, in name order and no name twice, none of them skipped |
| PollWait.RunPoll | internal/cli/tfx_wait.go:267-330 | the loop stops at the first turn that matched, was the third resolution failure since the last success, hopeless or stuck, or at the deadline, and its verdict is that reason; satisfied exactly if that turn got a matching object |
| PollWait.VerdictsMean | internal/cli/tfx_wait.go:283-325 | each verdict by what its turn was |
| PollWait.FailuresAreTurns | internal/cli/tfx_wait.go:283-303 | the counter's value means that many failed turns since the last success |
| PollWait.RememberedDecides | internal/cli/tfx_wait.go:273-316 | the remembered instant decides whether the description has been unchanged for the window |
| PollWait.FailuresNeedNotBeConsecutive | internal/cli/tfx_wait.go:98-102 | NotFound and other errors do not reset the count, a success does |
| WatchWait.ConsumeWatch | internal/cli/tfx_wait.go:223-262 | the drain loop computes the specified outcome and resource version |
| WatchWait.DrainEndsAtFirstStop | internal/cli/tfx_wait.go:223-262 | it ends with the first stopping event, and otherwise stands at the last version seen |
| WatchWait.RunWatch | internal/cli/tfx_wait.go:157-217 | the re-watching loop computes the specified verdict and resource version |
| WatchWait.WatchIsContinuous | internal/cli/tfx_wait.go:157-217 | against every history, expiries included: whenever a resource version is held, also at the end in a stall or at the deadline, every version from the one last obtained by a GET, or delivered first after a NotFound, up to that one was looked at, and none matched |
| WatchWait.PassedOverIff | internal/cli/tfx_wait.go:157-217 | of the versions since the wait began, up to the one held, or held at the end in a stall or at the deadline, precisely those strictly between the version an Expired or NotFound left the loop with and the one it started over from are not looked at; a matching version passed over is one of them |
| WatchWait.UnseenIsInGap | internal/cli/tfx_wait.go:157-217 | nothing else is passed over, even by a server whose GETs answer from the past |
| WatchWait.SatisfiedIff | internal/cli/tfx_wait.go:157-262 | against every history the watch is satisfied exactly if some version it looked at matches, whichever way it ended |
| WatchWait.ExpiredForcesGet | internal/cli/tfx_wait.go:219-241 | an expired version always leads to a fresh GET, which sees the object as it then is |
| WatchWait.GapAfterNotFound | internal/cli/tfx_wait.go:181-202 | after a NotFound a matching version can come and go unseen |
| WatchWait.GapAfterExpired | internal/cli/tfx_wait.go:233-241 | after an Expired a matching version can come and go before the fresh GET |
| WatchWait.VerdictsAreGrounded | internal/cli/tfx_wait.go:157-217 | success needs a matching object from a GET or an event; a stall verdict needs a tripped watchdog at the end of a drain |
| WaitDispatch.RunWait | internal/cli/tfx_wait.go:122-148 | it polls, on a second timeout budget, exactly if told to or if in the first round that ends the watch a GET failed, a watch could not be opened, or the drain broke or came to a hopeless object, and the caller still waits; success, stall, timeout and poll failures are reported exactly for what ended the watch or, if it polled, the poll |
| WaitDispatch.WatchMeans | internal/cli/tfx_wait.go:174-216 | what the watch comes to, read off the fields of its rounds: when a round asks with a GET, when it goes on, and how the first that does not ends it |
| WaitDispatch.VerdictOfFirst | internal/cli/tfx_wait.go:174-216 | the watch has the verdict of its first round that has one |
| WaitDispatch.StallIsReportedIff | internal/cli/tfx_wait.go:181-213 | a stall is reported as one exactly if the cancellation reaches the loop while draining; otherwise it is a timeout or a fallback to the poll |
| WaitDispatch.DeadlineIsReportedIff | internal/cli/tfx_wait.go:203-214 | the wait's own deadline is reported as a timeout exactly if it does not pass while a watch is being opened; there it starts the poll |
| WaitDispatch.TerminalDiagnosisFallsBack | internal/cli/tfx_wait.go:256-258 | the watch's terminal diagnosis leads to the poll |
| StallWatchdog.Watchdog.constructor | internal/cli/tfx_wait.go:664-674 | a new watchdog has observed nothing and its timer counts a quarter window |
| StallWatchdog.Watchdog.Observed | internal/cli/tfx_wait.go:678-688 | a description unlike the last one is noted with its time; a repeated one changes nothing |
| StallWatchdog.Watchdog.TimerFires | internal/cli/tfx_wait.go:669-674 | a timer that has run out no longer counts |
| StallWatchdog.Watchdog.TickRead | internal/cli/tfx_wait.go:694-696 | the first lock reads description and instant together and changes nothing |
| StallWatchdog.Watchdog.TickAct | internal/cli/tfx_wait.go:698-713 | the second lock trips on the pair read, or sets the timer again unless stopped |
| StallWatchdog.Watchdog.Stop | internal/cli/tfx_wait.go:734-744 | stops the timer for good |
| StallWatchdog.Execute | internal/cli/tfx_wait.go:652-744 | every interleaving of timer, tick and watch takes the object through the states of the specified system |
| StallWatchdog.FieldsAreTrue | internal/cli/tfx_wait.go:676-688 | in every interleaving the fields are the last observation and the time of the change to it |
| StallWatchdog.TripIsSound | internal/cli/tfx_wait.go:690-713 | in every interleaving a trip is on a registering licence state, unchanged up to the read, at least a window after its change |
| StallWatchdog.TripIsCurrent | internal/cli/tfx_wait.go:690-713 | it is about the present state exactly if nothing else was observed between read and act |
| StallWatchdog.TripCanBeStale | internal/cli/tfx_wait.go:694-706 | an interleaving in which the licence became active before the trip |
| StallWatchdog.StoppedStaysQuiet | internal/cli/tfx_wait.go:734-744 | no tick is scheduled after stop, and none trips after it but one that was already launched |
| StallWatchdog.TripIsFinal | internal/cli/tfx_wait.go:699-707 | a trip is never undone, its cancel is done or owed, and no tick follows |
| StallWatchdog.TripsAreExclusive | internal/cli/tfx_wait.go:690-713 | no cancel without a trip, and the timer never counts during a tick |
| StallWatchdog.PromptTicksTripInTime | internal/cli/tfx_wait.go:664-713 | in every run in which no tick is overdue by more than a given lateness, a registering licence that stops changing makes some tick trip, before window, quarter and lateness are over; no earlier than the window after the change exactly if no tick that had read before the change trips after it |
| StallWatchdog.TripsAtTheChange | internal/cli/tfx_wait.go:690-713 | a run with nothing late in which the watchdog trips at the instant a new registering state is observed |
| StallWatchdog.RegularTicksTrip | internal/cli/tfx_wait.go:664-713 | with ticks at every multiple of the interval a licence that stays registering is tripped in that time, by one of the first six |
| PhaseCommands.Store.DetectPresence | internal/config/tfstate.go:166-248 | presence is known exactly if all six state files can be read, and is then what they hold |
| PhaseCommands.Store.DetectShape | internal/config/tfstate.go:90-125 | needs two of the files only: split if BNK has resources, else cluster-only or empty |
| PhaseCommands.Store.Destroy | internal/orchestration/gateway_phase.go:134-161 | a phase is destroyed exactly if what its destroy asks for is there |
| PhaseCommands.Store.GatewayDown | internal/cli/gateway_phase.go:90-113 | refused while presence cannot be read; nothing to do is a success; else destroys its own state, given the recorded VPC, and touches nothing else |
| PhaseCommands.Store.TestingDown | internal/cli/testing_phase.go:79-105 | as for the gateway, on the testing state |
| PhaseCommands.Store.FlpDown | internal/cli/flp_phase.go:149-170 | as for the gateway, on the proxy state; a standalone proxy needs no recorded VPC |
| PhaseCommands.Store.TgwDisconnect | internal/cli/tgw_phase.go:118-138 | refused on a workspace never initialised; else as for the gateway, given also a named gateway |
| PhaseCommands.Store.BnkDown | internal/cli/bnk_phase.go:120-179 | refused while Gateway has resources, if presence can be read; looks at two state files only to decide whether there is anything to do |
| PhaseCommands.Store.ClusterDown | internal/cli/cluster_phase.go:513-638 | refused while any dependent phase has resources or another cluster uses the VPC; resumes on residual network; forgets the recorded cluster only after a destroy that succeeded |
| PhaseCommands.Store.Attach | internal/orchestration/tgw_phase.go:109-161 | an attached VPC is only recorded; else needs a named gateway and the recorded VPC, and writes the connection state only |
| PhaseCommands.Store.AutoConnect | internal/cli/cluster_phase.go:498-511 | attaching on the side never fails the cluster command and touches the connection only |
| PhaseCommands.Store.ClusterRegister | internal/cli/cluster_phase.go:130-230 | records a cluster only if it has a VPC and a registry; then tries to attach |
| PhaseCommands.Store.ClusterUp | internal/cli/cluster_phase.go:385-465 | builds, or registers the named cluster when it is not to create one; records what was built on a best effort and tries to attach |
| PhaseCommands.Store.BnkUp | internal/cli/bnk_phase.go:81-112 | builds the cluster first exactly when neither state has resources, and stops if that fails |
| PhaseCommands.Store.GatewayUp | internal/cli/gateway_phase.go:73-86 | refused without cluster or BNK resources, or without a recorded VPC |
| PhaseCommands.Store.TestingUp | internal/orchestration/testing_phase.go:90-207 | refused without a recorded VPC |
| PhaseCommands.Store.FlpUp | internal/cli/flp_phase.go:98-146 | refused without a cluster of any kind unless the proxy stands alone; stores the given node-port flags before the apply |
| PhaseCommands.Store.TgwConnect | internal/cli/tgw_phase.go:82-116 | refused without a cluster of any kind; stores a given gateway before the attach, and reuses the stored one otherwise |
| PhaseEffects.GatewayUpApplies | internal/orchestration/gateway_phase.go:87-132 | with presence readable, something to stand on, a workspace and a recorded VPC, terraform runs on the gateway state alone, and the verdict is terraform's; else refused |
| PhaseEffects.TestingUpApplies | internal/orchestration/testing_phase.go:129-207 | the same for the testing state, with a workspace and a recorded VPC |
| PhaseEffects.FlpUpApplies | internal/orchestration/flp_phase.go:141-173 | the same for the proxy, whose success also needs the result recorded |
| PhaseEffects.TgwConnectApplies | internal/orchestration/tgw_phase.go:109-161 | the same for the connection, unless the VPC is attached already |
| PhaseEffects.RegisterRecords | internal/cli/cluster_phase.go:130-230 | a found cluster with VPC and registry is recorded, and an attach is tried exactly when an existing gateway is named |
| PhaseEffects.ClusterUpApplies | internal/cli/cluster_phase.go:385-465 | the cluster state is what terraform left, success is terraform's, and what was built is recorded if found and saved |
| PhaseEffects.BnkUpApplies | internal/cli/bnk_phase.go:81-112 | BNK's state is what terraform left; on a bare workspace only after `cluster up` succeeded |
| PhaseEffects.SuccessIsEarned | internal/orchestration/lifecycle.go:1269-1277 | no up command reports success unless terraform succeeded on its phase, which then holds what terraform left |
| PhaseEffects.DownDestroysIff | internal/orchestration/gateway_phase.go:134-161 | what is left of a phase is destroyed exactly when its guards and inputs allow it; the record of the cluster goes with the cluster |
| PhaseEffects.DownOfNothing | internal/cli/gateway_phase.go:90-113 | a phase that holds nothing is never touched, and when that is a success |
| PhaseEffects.HasClusterIff | internal/config/tfstate.go:395-434 | a state has a cluster exactly with a managed cluster resource that has an instance, in or inside a cluster module |
| PhaseSafety.DownIsRespectful | internal/cli/cluster_phase.go:540-585 | a down command writes its own phase only; the cluster's only when every dependent phase is empty, BNK's only when Gateway is, as far as presence can be read |
| PhaseSafety.EveryDownIsRespectful | internal/cli/bnk_phase.go:139-164 | over every run: no down step takes cluster resources from under a dependent phase, nor BNK's from under Gateway |
| PhaseSafety.BnkGuardHoldsIff | internal/cli/bnk_phase.go:158-161 | with BNK and Gateway both there, `bnk down` destroys BNK exactly if presence cannot be read |
| PhaseSafety.BnkGuardBypassed | internal/cli/bnk_phase.go:158-164 | a workspace that loses BNK under a live Gateway |
| PhaseSafety.HostedStepIff | internal/cli/gateway_phase.go:82-107 | Gateway present implies cluster or BNK present: every command keeps that, except exactly an apply of `cluster up` or `bnk up` that does away with the last host |
| PhaseSafety.GatewayAlwaysHosted | internal/cli/gateway_phase.go:73-113 | over every run a Gateway is hosted at every point, exactly if no command takes its last host |
| PhaseSafety.FailedReplacementUnhosts | internal/cli/cluster_phase.go:455-458 | an apply that dies half way through a replacement leaves Gateway without a host |
| PhaseSafety.UninitialisedDowns | internal/cli/cluster_phase.go:527-535 | cluster, bnk and tgw refuse a workspace that was never initialised, gateway, testing and flp report success |
| PhaseSafety.CrashesIff | internal/cli/flp_phase.go:113-130 | exactly which commands dereference a workspace that is not there, and when |
| PhaseSafety.FlpUpStoresIntent | internal/cli/flp_phase.go:124-143 | a flag that is given is stored before terraform runs, whatever becomes of the apply |
| PhaseSafety.ConnectStoresTarget | internal/cli/tgw_phase.go:102-113 | so is the gateway that `tgw connect` names |
| PhaseSafety.IntentSurvives | internal/cli/flp_phase.go:124-143 | over every run each stored setting stays as it was until a command names it again |
| PhaseTeardown.TeardownSucceedsIff | internal/cli/cluster_phase.go:569-585 | with destroys that succeed, all six teardown commands succeed exactly if the workspace is ready, and then every phase, residual network included, is empty |
| PhaseTeardown.RepeatIsNoOp | internal/cli/cluster_phase.go:582-585 | on an empty initialised workspace every down command succeeds and changes nothing, in any surroundings |
| PhaseTeardown.DownStrandsNothing | internal/cli/cluster_phase.go:566-585 | a destroy that fails half way leaves nothing that can no longer be torn down |
| PhaseTeardown.UpStrandsNothing | internal/cli/cluster_phase.go:644-711 | nor does any other command, unless `cluster up`, on its own or inside `bnk up`, records a cluster without a VPC |
| PhaseTeardown.ReadyStepIff | internal/cli/cluster_phase.go:644-711 | a step keeps a workspace ready for teardown, exactly if it does not record a cluster without a VPC while something needs one |
| PhaseTeardown.ReadinessIsInvariant | internal/orchestration/gateway_phase.go:65-69 | over every run of every command a workspace is ready at every point, exactly if no step strands it |
| PhaseTeardown.AnyRunCanBeTornDown | internal/cli/cluster_phase.go:513-638 | whatever was done to a workspace that began empty, short of stranding it, one smooth teardown empties it and the next is a no-op |
| PhaseTeardown.InstallSucceeds | internal/cli/bnk_phase.go:72-112 | the guards refuse nothing that should work: on an empty workspace `bnk up` builds cluster and BNK, the gateway, testing and flp phases follow, each phase holds what terraform left of it, and the result can be torn down |
| PhaseTeardown.EmptyVpcStrands | internal/cli/cluster_phase.go:676-681 | recording a cluster without a VPC makes the teardown fail |
| ArgShift.RejectShiftedFlagValues | internal/cli/tfx_argshift.go:34-61 | names, in order, exactly the flags whose value looks like a flag, and rejects exactly if there is one or a positional |
| ArgShift.CompleteLineIsAccepted | internal/cli/tfx_argshift.go:28-33 | a complete line is read as it was meant and passes |
| ArgShift.StrayWordsAreKept | internal/cli/tfx_argshift.go:43-54 | words that belong to no flag are kept in order, and the guard rejects the line |
| ArgShift.DroppedValueIsCaught | internal/cli/tfx_argshift.go:11-33 | drop any values, at least one: an argument is missing, or the first flag that lost its value holds the next flag and is named |
| ArgShift.AcceptedIffNothingDropped | internal/cli/tfx_argshift.go:34-61 | of the lines rendered from one meaning the guard accepts the one with nothing dropped |
| ArgShift.RepeatedFlagEscapes | internal/cli/tfx_argshift.go:34-43 | a flag given twice can hide a shift |
| Bom.ArtifactPreorder | internal/bnkbom/bnkbom.go:124-138 | the four-key comparison is a total preorder |
| Bom.Deps | internal/bnkbom/bnkbom.go:325-353 | the seven dependencies |
| Bom.ParseManifest | internal/bnkbom/bnkbom.go:222-289 | the errors in their order, and the artifacts of the selected release |
| Bom.Build | internal/bnkbom/bnkbom.go:172-194 | fails exactly with the first reason that applies; else a sorted arrangement of exactly the artifacts there should be |
| Bom.EveryEntryIsCarried | internal/bnkbom/bnkbom.go:270-287 | every chart and image of the release is in the BOM, of its kind, from its host, under its trimmed name and version |
| Bom.Counts | internal/bnkbom/bnkbom.go:108-120 | counts each kind, and the counts sum to the whole |
| Bom.CountOfPermutes | internal/bnkbom/bnkbom.go:100-120 | sorting does not change the counts |
| Bom.BuildConserves | internal/bnkbom/bnkbom.go:172-194 | charts, images and files of a BOM are those of the release plus its own chart, the dependencies and the bundle |
| Bom.BomIsDeterminedIff | internal/bnkbom/bnkbom.go:122-138 | the sorted BOM is one sequence, however ties are broken, exactly if the manifest names no dependency at its version |
| Bom.SeparateHostsNeverClash | internal/bnkbom/bnkbom.go:247-251 | hosts that are not the dependencies' rule a clash out |
| Bom.ReorderedManifestSameBom | internal/bnkbom/bnkbom.go:270-287 | permuting the charts and images of the release yields the identical BOM |
| BomContents.SelectedIff | internal/bnkbom/bnkbom.go:227-245 | the release is the first of the asked version, or the only one; and when there is none, why |
| BomContents.RefusalsMean | internal/bnkbom/bnkbom.go:172-194 | each error by what is wrong with manifest or options, exactly |
| BomContents.NothingElseIsCarried | internal/bnkbom/bnkbom.go:265-289 | every artifact is the manifest's chart, an entry of the release, a dependency asked for, or the pinned bundle |
| BomContents.DepsAre | internal/bnkbom/bnkbom.go:325-353 | the seven dependencies, name by name |
| BomContents.FourKeysDecide | internal/bnkbom/bnkbom.go:124-138 | charts before files before images, then host, name and tag decide |
| BomContents.HostSpellings | internal/bnkbom/bnkbom.go:291-293 | a scheme and surrounding whitespace make no difference to the helm host |
| BomContents.VersionSpellings | internal/bnkbom/gateway_api.go:77-79 | a bundle version may be spelled with or without its `v` |
| AdvancedEnv.SplitJoinIff | internal/config/advanced_env.go:81-93 | splitting a joined name gives its parts exactly if both are non-empty and the component neither contains the infix nor ends in its first four characters |
| AdvancedEnv.JoinSplitName | internal/config/advanced_env.go:81-93 | every split joins to the name again |
| AdvancedEnv.CanonicalIgnoresCase | internal/config/advanced_env.go:160-165 | spellings that differ in case only name one component |
| AdvancedEnv.ComponentIsCanonical | internal/config/advanced_env.go:144-165 | a segment that spells one of the thirteen components in any case gets the product's spelling, any other its lower case |
| AdvancedEnv.AdvancedEnvOverrideNames | internal/config/advanced_env.go:62-75 | the sorted override names, in whatever order the environment is visited |
| AdvancedEnv.OverrideAdvancedEnvFromEnv | internal/config/advanced_env.go:104-138 | names come from the process environment, values from the lookup in use; every target ends with its winner's value, and the report lists, once each and in name order, exactly the overrides that the result agrees with |
| AdvancedEnv.FirstOverrideWins | internal/config/advanced_env.go:119-133 | of several overrides for a target, the first in name order that says something |
| AdvancedEnv.YamlBeatsEnvironment | internal/config/advanced_env.go:123-132 | a value already configured stays, and a different override for it is not applied |
| AdvancedEnv.LoneOverrideIsApplied | internal/config/advanced_env.go:104-138 | on an unconfigured target an override is applied if no other one says anything for it |
| AdvancedEnv.FileOverrideIsAppliedIff | internal/config/envoverride.go:869-893 | with the lookup swapped for a file, an override there, alone on an unconfigured target, is applied exactly if the process environment has its name |
| MirrorRecord.KeyIsInjective | internal/cli/registry_diff.go:64-75 | the key string holds kind, name and tag apart |
| MirrorRecord.CopiedAreRecorded | internal/cli/registry_replicate.go:97-118 | exactly what was copied is recorded, under kind, name, tag and digest |
| MirrorRecord.Store.SummarizeReplication | internal/cli/registry_replicate.go:97-118 | the copied artifacts in order, and how many were not; together all of them |
| MirrorRecord.Store.Replicate | internal/cli/registry_replicate.go:48-86 | a partial replicate is recorded with its missing count |
| MirrorRecord.Store.Diff | internal/cli/registry_diff.go:45-77 | exactly the BOM artifacts whose key is not recorded; all of them for another mirror's record |
| MirrorRecord.Store.Prune | internal/cli/registry_prune.go:24-44 | exactly the recorded artifacts whose key is not in the BOM |
| MirrorRecord.Store.Delete | internal/cli/registry_delete.go:19-96 | keeps exactly the artifacts that failed; no record when none is left; nothing to delete, as without a record, is a success |
| MirrorRecord.DiffAfterReplicate | internal/cli/registry_replicate.go:50-65 | a diff after a replicate lists exactly the failed artifacts; missing and recorded make up the BOM |
| MirrorRecord.InSyncIffSameKeys | internal/cli/registry_prune.go:35-44 | diff and prune are both empty exactly if record and BOM hold the same keys |
| MirrorRecord.DeletesKeepTheStubborn | internal/cli/registry_delete.go:62-91 | after any number of runs the record holds exactly what failed in every run, and is gone when that is nothing |
| MirrorRecord.GuardAfterDeletes | internal/config/mirror_identity.go:186-189 | the install guard is exact after a replicate, and after any number of deletes passes a mirror with holes exactly if the replicate was clean and they removed some and left some |
| ShellQuote.ShellReadsBack | internal/cli/config_cmd.go:248-253 | a shell reads the quoted value as that one word exactly if it has no newline or something that calls for quotes |
| ShellQuote.DotEnvReadsBackIff | internal/cli/config_cmd.go:323-356 | the tool's own reader returns the value exactly if it is readable: quoted, no single quote, no space-hash, no double quote at an end; unquoted, nothing to trim |
| ShellQuote.EnvLinesFor | internal/cli/config_cmd.go:176-208 | the sorted lines are exactly those of the settings with a value |
| ShellQuote.ReadDotEnv | internal/cli/config_cmd.go:323-356 | the reader's loop computes the later-wins reading of the lines |
| ShellQuote.ReadsSpelledLine | internal/cli/config_cmd.go:333-351 | name and value are read whatever `export`, whitespace, quotes and trailing comment the line has |
| ShellQuote.OtherLinesAreSilent | internal/cli/config_cmd.go:334-342 | nothing is read from a blank line, a comment or a line without an equals sign |
| ShellQuote.LastLineWins | internal/cli/config_cmd.go:330-351 | of several lines for a name the last decides |
| ShellQuote.FileReadsBackIff | internal/cli/config_cmd.go:157-208 | settings with distinct plain names come back from their file, secrets left out, exactly if every value shown is readable |
| SelfHeal.RemoteHealCommand | internal/cli/selfheal.go:135-154 | every positional reference stands for its intended value in all region and group combinations, and the script's text does not depend on the values |
| SelfHeal.HealRemoteKubeconfig | internal/cli/selfheal.go:156-213 | the verdict is explained by the first attempt that healed or was cancelled, and the log is what those attempts cost |
| SelfHeal.MaybeSelfHeal | internal/cli/selfheal.go:222-236 | other commands cost nothing, a healthy target one probe, an unanswered probe is an error |
| SelfHeal.HealIsBounded | internal/cli/selfheal.go:156-236 | a kubectl or oc proceeds only after a latest probe that found a usable kubeconfig, at most N heals and 1 + 2N commands |
| SelfHeal.ProbesFollowHeals | internal/cli/selfheal.go:170-202 | every probe but the first follows a heal that went through |
| SelfHeal.OutageIsNotMasked | internal/cli/selfheal.go:204-213 | an outage is reported after exactly N heals, none of which worked |
| SelfHeal.VerdictIsDetermined | internal/cli/selfheal.go:156-213 | the answers determine verdict and number of attempts |
| BinarySwap.Installation.InstallByMoveAside | internal/cli/self.go:536-553 | result and files as specified, and a complete binary at target or the sidecar at every point in between |
| BinarySwap.Installation.ReplaceBinary | internal/cli/self.go:466-513 | the same for the whole replacement; on unix a binary at target at every point |
| BinarySwap.Installation.SweepStaleBinary | internal/cli/self.go:608-620 | removes the sidecar only |
| BinarySwap.AnswerIsTrue | internal/cli/self.go:525-553 | success means the new binary at target, a plain error the old one, stranded nothing there and the old one in the sidecar |
| BinarySwap.StrandedIff | internal/cli/self.go:536-553 | exactly which refusals strand or install |
| BinarySwap.NeverLost | internal/cli/self.go:466-620 | over every sequence of upgrades, sweeps and recoveries a binary is left and one recovery puts it at target |
| BinarySwap.TargetIsKnown | internal/cli/self.go:466-553 | what is at target was there at the start or was installed |
| BinarySwap.SwapNeedsTarget | internal/cli/self.go:221-230 | a precondition the caller meets by passing the running executable: without a binary at target the swap would remove the sidecar, unless that is refused |

## Left out

- Calls into IBM Cloud, COS, GitHub, SSH, Kubernetes, terraform, helm and the keychain: their outcomes are parameters.
- Wording of errors and logs, prompts, tabular output, the init interview and flag registration.
- Characters are code points, and upper and lower case are ASCII; no Unicode case folding or normalisation.
- TFVars.MatchIsComplete: the assignment and comment patterns are modelled directly, not as general regular expressions.
- Section titles, phase, stamp and version of a snapshot are assumed to contain no newline.
- File permissions, temporary files and renames around the snapshot and the replay file.
- WatchWait.WatchIsContinuous: real time and Go's choice between ready channels are not modelled; a watch from no version is assumed to start with the object's present state or its next change.
- WatchWait.PassedOverIff: a GET is assumed not to answer from before what was already delivered; `WatchWait.UnseenIsInGap` does without.
- WaitDispatch.RunWait: counts timeout budgets, not seconds, and leaves out the wording chosen for a Tuned object that never appeared.
- PollWait.RunPoll: the matchers, the registering pattern and the scheduler diagnoses are arbitrary predicates.
- StallWatchdog.PromptTicksTripInTime: a bound on how late a tick may be is assumed, with quarter and lateness together less than the window; ticks later than that are only sound.
- PhaseCommands.Store.ClusterUp: the network-mode and prefix-overlap checks, key resolution, prompts, init and plan are one outcome each.
- PhaseCommands.Store.BnkUp: the create-time guards of the trial phase are part of one outcome, and the docker backend is left out.
- PhaseCommands.Store.ClusterDown: whether other clusters have subnets in the VPC is one outcome.
- The composite `up` and `down`, the `--on` flag, the admission sweep, kubeconfig fetching and jumphost targets.
- PhaseTeardown.AnyRunCanBeTornDown: a run is a run of commands; nobody edits config.yaml or deletes state files in between.
- ArgShift.DroppedValueIsCaught: the flag parser is modelled with long flags, space-separated values and switches; shorthands and `--flag=value` are not.
- Bom.ParseManifest: starts from a decoded manifest.
- AdvancedEnv.OverrideAdvancedEnvFromEnv: the TCP-setting family, which has no collisions, and the override table.
- MirrorRecord.Store.Replicate: the copy engine, hosts, certificates and the comparison of recorded and configured mirror, which is one outcome.
- ShellQuote.EnvLinesFor: looking settings up in the marshalled workspace, and which paths are secret.
- ShellQuote.ReadDotEnv: lines too long for the scanner.
- SelfHeal.RemoteHealCommand: a script is its words, and a shell expands only quoted positional references.
- BinarySwap.Installation.ReplaceBinary: downloading, checksums and unpacking.
- Members that would only be easy: the cleanup filter, subnet ownership, read-only allowlists, caches, setters and the choice of the current workspace.
