# Joy Pi Health: a verified model of the observation service

Joy Pi Health answers one HTTP request with one snapshot of a Raspberry Pi. This project models the part of it that
is hard to get right, and proves what that part promises:

- `Network`, `NetworkCycles`: which kernel links are externally capable network interfaces. The memoised
  depth-first search is proved against reachability in the graph of VLAN, bond and bridge links.
- `Coordinator`: the single-flight collection protocol, over every interleaving of requests, cancellations and cycle
  steps.
- `Snapshot`, `SnapshotBuilding`, `JsonPointer`, `Acceptance`: the finaliser that appends issues, the validator that
  derives independently which issues there must be, the meaning of issue paths as JSON Pointers (RFC 6901), and why
  the two never disagree.
- `Degradation`: the suppression state machine over degraded metrics, with its reminders, recoveries and exact bound.
- `FirmwareExecutor`: the worker that isolates a call which cannot be cancelled.
- `CpuObserver`, `CpuSampling`, `ObserverLifecycle`: the one-hertz utilisation observer, its schedule, its samples and
  its reader, and how it starts, panics, ends and is joined.
- `Generic`, `RaspberryPi`, `Renderings`: the collectors over arbitrary platform answers, and what they read back from
  texts as the kernel writes them.
- `Cycle`, `PlatformAnswers`, `PublishedDocument`, `PublishedIssues`, `Production`: the collection cycle with its
  deadlines, and what a published snapshot, its issues and the reported events state about the platform.
- `CpuList`, `CpuListSets`, `Netlink`, `FirmwareProtocol`: the three parsers, with their round trips, and the relation
  between sets of processors and signatures.
- `LimitedListener`, `RequestAdmission`: the listener's connection slots, and the request handler's admission slots
  and failure latch.
- `Text`, `Sorting`, `Words`, `Outcomes`: strings and numbers, ordered listings, machine words, typed outcomes.

Objects whose methods update fields are classes (`LinkTopology`, `DegradationReporter`, `CpuObserver`, `Executor`,
`SharedFields`); loops are loops. Concurrent protocols are state machines: each critical section, channel operation
and once-call is one step, a run is any list of enabled steps, and the critical sections of the coordinator and of
the executor are also methods of a class whose contracts are those steps.

## Findings

Four properties one might expect do not hold of the code as it is; each is stated with its exact condition or a
concrete counterexample.

- **A cycle in the link graph need not be reported.** The search stops at the first capable member of a bond or
  bridge (`internal/observe/network.go:153-156`), so with the same three links the collection succeeds or fails
  depending on the order in which the kernel lists them (`NetworkCycles.CycleReportDependsOnOrder`). What holds:
  a query fails if and only if a cycle is reachable along the edges the search really asks about
  (`Network.LinkTopology.ExternallyCapable`); every such cycle is a cycle of the graph (`Network.AskedCycleIsCycle`);
  acyclic tables never fail (`Network.AcyclicIsCollectable`); and two orders that both succeed agree
  (`Network.OrderIndependent`).
- **The fatal callback may get another error than the latched one**
  (`internal/observe/coordinator.go:213-226`), if a request without a context latches its defect while the active
  cycle may still publish another one: it is still collecting, or has collected a different defect but not published
  it. That condition is exact (`Coordinator.DivergesExactly`): after such a step, and after no other, the run can go on
  to a notified error that is not the latched one. In every run without such a step the two are the same
  (`Coordinator.NotifiesTheLatch`). Both kinds occur in runs from the initial state
  (`Coordinator.MayNotifyAnotherDefect`).
- **A set of processors need not determine the signature of its CPU list** (`internal/observe/generic.go:203-209`).
  Equal signatures mean equal sets (`CpuList.SameSignature`), but `0,1` and `0-1` denote one set and have two
  signatures (`CpuListSets.OneSetTwoSignatures`). For a well-formed list of any length, all lists of its set have its
  signature if and only if no two neighbouring numbers are in the set (`CpuListSets.WhenSetDeterminesSignature`); and
  between lists whose consecutive ranges leave a gap, equal sets and equal signatures are the same
  (`CpuListSets.GappedSameIds`).
- **A well-formed CPU list can be refused as overflowing**, exactly if it covers all 2^64 processor numbers
  (`CpuList.WrapsOnlyWhenFull`, `CpuList.CountIsCardinality`). The list `0-` followed by the largest number is one,
  within the input limit (`CpuListSets.FullListIsFull`, `CpuListSets.ParseFullList`).

## Model

| member | source | states |
|---|---|---|
| `Network.CapableUnfolds` | internal/observe/network.go:122-162 | Capability, defined by paths to a physical non-loopback Ethernet link, satisfies the recursive equation the search computes: a link is capable if and only if it is physical or one of its lower links is capable. |
| `Network.CapableIsLeast` | internal/observe/network.go:122-162 | Capability is the least such set: every set of links closed under the equation contains every capable link. |
| `Network.CapableReachesDevice` | internal/observe/network.go:133-140 | A capable link reaches a link of hardware type 1, without flag bit 3, whose device is not below /sys/devices/virtual/. |
| `Network.LinkTopology.ExternallyCapable` | internal/observe/network.go:122-162 | For every sequence of queries on a table: a resolved answer, memoised or not, is exact reachability; a cycle is reported only if one is reachable along asked edges; the unknown-link answer occurs only for an index outside the table; earlier memoised answers and the visiting set are kept. It terminates because the links not being visited decrease. |
| `Network.LinkTopology.Search` | internal/observe/network.go:133-158 | The part between marking and unmarking a link never meets an unknown link, and its answer extends the memo soundly even in a graph with cycles. |
| `Network.LinkTopology.AskMembers` | internal/observe/network.go:150-157 | The member loop leaves the memo, extended by its answer, exact and free of cycles; it meets no unknown link, and it fails only if a cycle of asked edges is reachable. |
| `Network.MemoisedReachesNoCycle` | internal/observe/network.go:123-161 | No asked cycle is reachable from a memoised link, so the memo never hides a failure. |
| `Network.AskedCycleIsCycle` | internal/observe/network.go:126-129 | A reported cycle is a real cycle of the dependency graph. |
| `Network.NewLinkTopology` | internal/observe/network.go:79-120 | A topology is built if and only if every link is well identified, indices and names are distinct, and all VLAN and master references resolve. |
| `Network.SelectExternal` | internal/observe/network.go:50-65 | The collection loop succeeds if and only if no link reaches an asked cycle, and then observes exactly the capable links. |
| `Network.CollectNetwork` | internal/observe/network.go:31-70 | The outcome is present if and only if the links were read and are collectable; then it lists, strictly ordered by name, exactly the capable links: under its own name, its state up, unknown or down exactly for the operational states 6, 0 and 1 to 5, and its own two counters exactly if it has them. Each other case has its unavailability reason. |
| `Network.ExactObservesCapable` | internal/observe/network.go:172-193 | Each collected interface observes a capable link, and each capable link is observed, field by field. |
| `Network.OrderIndependent` | internal/observe/network.go:31-70 | Two orders of one link table that both succeed give the identical interface list. |
| `Network.AcyclicIsCollectable` | internal/observe/network.go:103-162 | A valid table whose graph has no cycle never fails. |
| `NetworkCycles.CycleReportDependsOnOrder` | internal/observe/network.go:150-157 | A concrete table with a cycle whose collection succeeds in one order and fails in another. |
| `Coordinator.StepInv` | internal/observe/coordinator.go:174-240 | Every step of any caller or cycle keeps the protocol invariant: the active cycle is the one unpublished cycle, results are written before `done` is closed, closed once, and a latched failure has been or is about to be notified. |
| `Coordinator.SingleFlight` | internal/observe/coordinator.go:182-229 | In every reachable state at most one cycle is collecting or unpublished, and it is the active one. |
| `Coordinator.CallersAgree` | internal/observe/coordinator.go:196-226 | All callers woken by one cycle get the same answer; `done` was closed exactly once; and if the answer is a defect it was notified before anybody was woken. |
| `Coordinator.StepKeepsProvenance` | internal/observe/coordinator.go:204-229 | Every step keeps it that outcomes, published results and told answers all come from their own cycle's collection. |
| `Coordinator.CallersGetWhatWasCollected` | internal/observe/coordinator.go:196-228 | In every run a cycle collects at most once, publishes exactly what it collected, and every caller it wakes is told exactly that; a caller who joined none is told the latched error or its own cancellation. |
| `Coordinator.JoinedWhileActive` | internal/observe/coordinator.go:182-201 | Whoever holds a cycle took the join step at which that cycle was active and unpublished. |
| `Coordinator.FinishedIsFinal` | internal/observe/coordinator.go:204-229 | Nothing about a cycle changes once its `done` is closed. |
| `Coordinator.LatchIsFinal` | internal/observe/coordinator.go:182-240 | The failure latch is write-once, and no cycle starts after it is set. |
| `Coordinator.NotifiedOnce` | internal/observe/coordinator.go:212-240 | The fatal callback fires at most once, only after a latch, and exactly once when the service is latched and nobody is about to call it. |
| `Coordinator.StepKeepsOneDefect` | internal/observe/coordinator.go:213-240 | Every step that is not a diverging one keeps it that all published and notified defects are the latched one. |
| `Coordinator.NotifiesTheLatch` | internal/observe/coordinator.go:213-240 | In every run without a diverging step the notified and all published defects are the latched one. |
| `Coordinator.DivergesExactly` | internal/observe/coordinator.go:213-240 | After a step, some continuation without a further diverging step notifies another error than the latched one if and only if the step latches a first defect while the active cycle is collecting or has collected a different defect. |
| `Coordinator.MayNotifyAnotherDefect` | internal/observe/coordinator.go:213-240 | Two runs from the initial state, one for each kind of diverging step, end with another error notified than the latched one. |
| `Coordinator.CancellationDoesNotInterfere` | internal/observe/coordinator.go:196-202 | Erasing all cancellations of joined callers from any run leaves a valid run with the same cycles, results, latch, notifications and other callers' answers. |
| `Coordinator.SharedFields.Enter` | internal/observe/coordinator.go:182-194 | The caller's critical section is the join step: refused with the latched error, joined to the active cycle, or starting a new one. |
| `Coordinator.SharedFields.Latch` | internal/observe/coordinator.go:231-239 | Latching keeps the first error and returns it. |
| `Coordinator.SharedFields.Publish` | internal/observe/coordinator.go:212-221 | The critical section at the end of a cycle is the publish step: latch a first defect, store the result, clear `active` if it is this cycle. |
| `Snapshot.BuildDocument` | internal/snapshot/snapshot.go:203-331 | The validator accepts exactly the well-formed documents, and then returns the expected issue paths in order and the number of usable leaves. |
| `Snapshot.ValidateIssues` | internal/snapshot/snapshot.go:333-351 | Accepts if and only if the issue paths are the expected ones in number and order, and every code and message is valid. |
| `Snapshot.ValidateFirmwareIssues` | internal/snapshot/snapshot.go:353-378 | Without firmware flags, accepts if and only if all firmware issues share one code and message. |
| `Snapshot.ValidateAllOrNone` | internal/snapshot/snapshot.go:380-391 | Accepts if and only if the values are all present or all absent. |
| `Snapshot.Encode` | internal/snapshot/snapshot.go:112-126 | Up to marshalling, a document is rejected, useless or accepted according to well-formedness, its issues, and whether any leaf is usable. |
| `SnapshotBuilding.ValidateNetwork` | internal/observe/coordinator.go:480-514 | Accepts if and only if the outcome is valid and, when present, at most 64 valid interfaces are strictly ordered by name. |
| `SnapshotBuilding.SetInterfaces` | internal/observe/coordinator.go:613-621 | The loop fills the interfaces in order and appends one issue for each missing field, at its index. |
| `SnapshotBuilding.SetNetwork` | internal/observe/coordinator.go:608-622 | The network is set with its field issues, or absent with one issue. |
| `SnapshotBuilding.SetFirmware` | internal/observe/coordinator.go:559-576 | Sets four flags, or appends four issues with one reason. |
| `SnapshotBuilding.IssuePathsAreExpected` | internal/observe/coordinator.go:516-532 | For all valid observations, the issue paths the finaliser appends equal, in order and number, those the validator derives from the document. |
| `JsonPointer.IssuesPointAtMissing` | internal/snapshot/snapshot.go:265-304 | Every expected issue path of a well-formed document is a JSON Pointer to a null, or to a group whose members are all null, in the document tree. |
| `JsonPointer.MissingHasAnIssue` | internal/snapshot/snapshot.go:265-304 | Conversely, every null in the document tree lies at or below an expected issue path. |
| `JsonPointer.PlainTokens` | internal/snapshot/snapshot.go:265-304 | Reading a pointer made of plain names returns those names. |
| `Acceptance.ValidatorAccepts` | internal/observe/coordinator.go:516-557 | With a hostname, the checks of `Encode` accept the document of validated observations if and only if the clock is not at the zero time. |
| `Acceptance.NoLeafIsCounted` | internal/snapshot/snapshot.go:122-126 | No leaf is usable if and only if no metric is present and the network lists no interface. |
| `Acceptance.IssuesExplainNulls` | internal/observe/coordinator.go:516-557 | Each issue of a finished document points at something missing, and above every null there is an issue. |
| `Acceptance.InterfacePathInjective` | internal/observe/coordinator.go:613-621 | Interface issue paths determine their decimal index and their field. |
| `Acceptance.EventsAreAcceptable` | internal/observe/coordinator.go:534-555 | The degradation events of every cycle are pairwise distinct, have metrics and valid codes, and number at most 204, so the reporter never refuses them. |
| `Acceptance.BoundIsAttained` | internal/observe/degradation.go:14 | A valid cycle with exactly 204 degradations exists. |
| `Acceptance.BuildSnapshot` | internal/observe/coordinator.go:516-532 | The field setters in sequence build the specified document and issues. |
| `Acceptance.Finalize` | internal/observe/coordinator.go:516-557 | Finalising validated observations yields no useful snapshot without a hostname or without any leaf, and otherwise the document; it is an internal defect if and only if there is a hostname and the clock is at the zero time. Unless it is, exactly the cycle's events are reported. |
| `Degradation.DegradationReporter.Report` | internal/observe/degradation.go:77-123 | A call is accepted if and only if its events are valid, distinct and within the bound; a rejected call changes and emits nothing; an accepted one leaves exactly its events active and emits, dated with its own time, exactly a warning for each event that is new or was last recorded five minutes ago or earlier, in event order, and then a clear for each recovered key in strict order. |
| `Degradation.CheckIdentities` | internal/observe/degradation.go:81-91 | Accepts if and only if all events are valid and distinct, and collects them. |
| `Degradation.Recovered` | internal/observe/degradation.go:104-117 | Whatever the map order, lists exactly the active keys that are no longer reported, in strict (metric, reason) order. |
| `Degradation.RecoveryIsUnique` | internal/observe/degradation.go:104-117 | There is one possible recovery order. |
| `Degradation.EpisodesAreWellFormed` | internal/observe/degradation.go:77-123 | Over any sequence of accepted calls, the records of each key form episodes of warnings at least five minutes apart, each closed by exactly one clear. |
| `Degradation.RecordsOfCall` | internal/observe/degradation.go:94-119 | The records of a call are exactly the due warnings and the clearings of what is no longer reported. |
| `Degradation.ReminderIsNeverOverdue` | internal/observe/degradation.go:94-103 | After every accepted call, each reported event has a warning in the log less than five minutes old. |
| `Degradation.ActiveIsLastCall` | internal/observe/degradation.go:92-122 | After a call the active keys are exactly its events. |
| `FirmwareExecutor.StepInv` | internal/observe/firmware_executor.go:60-176 | Every step of callers, worker and closer keeps the protocol invariant. |
| `FirmwareExecutor.BusyIffOneIsLive` | internal/observe/firmware_executor.go:82-152 | Until the executor fails, `busy` holds exactly if one request is reserved, queued or being transacted, and never two; after a failure none is, and the slot stays taken. |
| `FirmwareExecutor.SendsNeverBlock` | internal/observe/firmware_executor.go:101-146 | A caller's send finds the queue empty, and the worker's sends find the result channel empty, also after a panic. |
| `FirmwareExecutor.BusyIsNotStuck` | internal/observe/firmware_executor.go:101-152 | While it is busy, has not failed and has not exited, a step that moves the request on is enabled. |
| `FirmwareExecutor.OneResultEach` | internal/observe/firmware_executor.go:102-152 | Requests are begun at most once, in order of admission; each gets exactly one result with its own identity once its transaction is over; no result is dropped; and an answered caller got that result, never an identity mismatch. |
| `FirmwareExecutor.ResultsReport` | internal/observe/firmware_executor.go:138-147 | In every run, the result a request was sent reports what the firmware answered in that request's own transaction: the flags of its mask, or permission denied, unsupported or temporarily unavailable exactly as the error says; or the panic that ended it. |
| `FirmwareExecutor.AnswerReportsMask` | internal/observe/firmware_executor.go:104-141 | A present answer carries the flags of the mask the firmware gave to the call's own request. |
| `FirmwareExecutor.OnlyStopLeavesARequest` | internal/observe/firmware_executor.go:131-135 | At rest, every sent request has its result, except at most one that lost to the stop signal. |
| `FirmwareExecutor.AnswersAreFinal` | internal/observe/firmware_executor.go:104-112 | A late result changes nothing: what a request was sent, and what its caller returned, stay as they are. |
| `FirmwareExecutor.NothingAfterFailure` | internal/observe/firmware_executor.go:86-97 | After a failure or while stopping no request is admitted; after a failure no transaction begins and the latched error stays. |
| `FirmwareExecutor.FatalOnce` | internal/observe/firmware_executor.go:117-129 | The fatal callback fires at most once, after the active caller was sent its result, and exactly once if a failed executor has exited; the empty-identity panic is unreachable. |
| `FirmwareExecutor.AnswersAreValid` | internal/observe/firmware_executor.go:82-147 | Without panics, a running executor answers every well-formed call with an outcome that passes validation. |
| `FirmwareExecutor.Executor.Start` | internal/observe/firmware_executor.go:60-69 | Starts if and only if it has not been started, stopped or failed; its critical section is the start step. |
| `FirmwareExecutor.Executor.Ready` | internal/observe/firmware_executor.go:73-80 | Ready if and only if a well-formed call would be admitted. |
| `FirmwareExecutor.Executor.Reserve` | internal/observe/firmware_executor.go:82-101 | Refuses with the right outcome in each state, or takes the slot: the observation step. |
| `FirmwareExecutor.Executor.FreeSlot` | internal/observe/firmware_executor.go:147-149 | The worker's critical section after a transaction is the release step. |
| `FirmwareExecutor.Executor.Fail` | internal/observe/firmware_executor.go:120-122 | The worker's critical section after a panic latches the failure as the panic step does. |
| `FirmwareExecutor.Executor.BeginClose` | internal/observe/firmware_executor.go:156-166 | Up to its wait, closing is refused without a context, leaves an executor that was not started as it is, and marks a started one as stopping and has to wait for it. |
| `CpuObserver.CpuObserver.Observe` | internal/observe/cpu.go:203-234 | The critical section of an observation is the specified step, and a no-op once stopped. |
| `CpuObserver.CpuObserver.PublishDefect` | internal/observe/cpu.go:241-248 | A defect is published unless the observer was stopped. |
| `CpuObserver.CpuObserver.Close` | internal/observe/cpu.go:178-186 | Up to its wait, closing stops and cancels, and has to wait if and only if the observer was started. |
| `ObserverLifecycle.StepInv` | internal/observe/cpu.go:117-193 | Every step of starting, sampling, failing, closing and joining keeps the lifecycle invariant. |
| `ObserverLifecycle.EndsOnce` | internal/observe/cpu.go:126-161 | `fatal` is called at most once and `done` closed at most once; an observer that has ended closed `done` exactly once, called `fatal` if and only if a sample or wait panicked or a wait failed while it was not cancelled, and was cancelled otherwise; the branch for an unexpected stop is unreachable. |
| `ObserverLifecycle.JoinedIsFinal` | internal/observe/cpu.go:187-192 | A closer that joined returns after the end: no notification or defect follows. |
| `ObserverLifecycle.QuietAfterClose` | internal/observe/cpu.go:178-248 | After closing no defect is published, and an observer that was not started never is. |
| `ObserverLifecycle.CloseIsNotStuck` | internal/observe/cpu.go:178-193 | While a closer waits, the observer has a step of its own, until it has ended and the closer can join. |
| `CpuObserver.RefinesLastTwo` | internal/observe/cpu.go:203-234 | After any sequence of samples the stateful observer publishes a pure function of the last two. |
| `CpuObserver.PublishedValue` | internal/observe/cpu.go:203-234 | A value is published if and only if the last two samples are present, 0.9 to 1.1 s apart, of one boot and topology, with non-decreasing uptime and counters and a positive total that fits 64 bits; it lies in [0, 100]. |
| `CpuObserver.NothingAfterStop` | internal/observe/cpu.go:210-212 | Nothing is published after stop. |
| `CpuObserver.CalculateUtilization` | internal/observe/cpu.go:328-360 | Succeeds if and only if the two samples are comparable, with the exact ratio. |
| `CpuObserver.UtilizationIsPercentage` | internal/observe/cpu.go:355-359 | The exact ratio is a percentage, and 100 if and only if no idle, I/O wait or steal time passed. |
| `CpuObserver.TotalIsSum` | internal/observe/cpu.go:347-355 | The total is the sum of all eight deltas, each once, and the busy part that sum without idle, I/O wait and steal time. |
| `CpuObserver.SumUint64` | internal/observe/cpu.go:362-371 | Returns the sum if and only if it fits 64 bits. |
| `CpuObserver.PublicationIsSound` | internal/observe/cpu.go:203-234 | Every stored publication is a valid outcome, and a present one is a percentage of a valid topology, not from the future. |
| `CpuObserver.CopyNeverDefect` | internal/observe/coordinator.go:367-390 | The reader never turns a sound publication into a defect, passes its value on if and only if it is at most 1.25 s old and of the cycle's topology, and otherwise the publication's own reason, or a temporary one. |
| `CpuObserver.StoredNeverDefect` | internal/observe/coordinator.go:367-390 | With a monotone clock it never turns anything the observer stored into a defect. |
| `CpuObserver.CatchUp` | internal/observe/cpu.go:170-173 | The catch-up loop terminates with the next target. |
| `CpuObserver.AdvanceIsNext` | internal/observe/cpu.go:170-173 | The next target is a whole number of periods later, ahead of the clock, and no further than needed. |
| `CpuObserver.ScheduleDoesNotDrift` | internal/observe/cpu.go:136-174 | Every sampling target is the start plus a whole number of seconds, later than the previous one, and strictly ahead of the clock when set. |
| `CpuSampling.ParseCpuCounters` | internal/observe/cpu.go:286-304 | Reads the eight aggregate counters, and refuses exactly the inputs that have none. |
| `CpuSampling.ParseBootId` | internal/observe/cpu.go:306-326 | Accepts exactly the UUIDs surrounded by white space, and returns the lower-case form. |
| `CpuSampling.CollectCpuSample` | internal/observe/cpu.go:250-284 | Whatever the four sources answer, the outcome passes validation, and is present if and only if they make a sample. |
| `Generic.ParseUptime` | internal/observe/generic.go:136-149 | Accepts exactly the non-negative decimals whose whole part fits 64 bits, and returns that part. |
| `Generic.ParseLoad` | internal/observe/generic.go:212-229 | Returns the first three values, if and only if all are finite and not negative. |
| `Generic.ParseMemory` | internal/observe/generic.go:231-265 | Accepts exactly the texts in which each of the two entries occurs once, is well formed, fits 64 bits in bytes, and is consistent. |
| `Generic.ScanMemory` | internal/observe/generic.go:238-256 | The line loop knows each entry's value if and only if exactly one line so far has it, and refuses only hopeless texts. |
| `Generic.CollectHost` | internal/observe/generic.go:49-70 | The observation passes its validator; hostname and uptime are present exactly if they can be read and are valid; failures map to their reasons. |
| `Generic.CollectCpuLoad` | internal/observe/generic.go:72-100 | The observation passes its validator; count and signature are those of the list, and the loads those of the text, whenever they exist. |
| `Generic.CollectMemory` | internal/observe/generic.go:102-115 | The outcome passes its validator and is present exactly if the text states the memory. |
| `Generic.CollectRootFilesystem` | internal/observe/generic.go:117-134 | The outcome passes its validator and is present exactly if the sizes in bytes fit 64 bits and are consistent. |
| `Generic.DivisionGuards` | internal/observe/generic.go:125 | The division check refuses exactly the products that do not fit. |
| `RaspberryPi.HealthOfMask` | internal/observe/raspberrypi.go:100-107 | The four flags are bits 2, 18, 0 and 16 of the mask, and no other bit matters. |
| `RaspberryPi.MaskHasFlags` | internal/observe/raspberrypi.go:100-107 | Every 32-bit mask is some 32 bits, of which the health is those four. |
| `RaspberryPi.FindZone` | internal/observe/raspberrypi.go:62-81 | A zone is found if and only if all zones are readable and one alone matches; the metric is unsupported if and only if all are readable and no named one matches; otherwise the outcome is that of the first zone which cannot be read or matches again. |
| `RaspberryPi.CollectSocTemperature` | internal/observe/raspberrypi.go:54-98 | The outcome passes its validator and is present if and only if the one matching zone has a readable temperature that is not below absolute zero; it is unsupported if and only if all zones are readable and none matches, and denied if and only if access was refused where the search stopped or to the temperature. |
| `Cycle.Gather` | internal/observe/coordinator.go:271-418 | The six stages end at the first stage with an ended lifecycle or a refused value, and otherwise yield each contributing domain's value; a domain that was overdue or expired contributes only temporary unavailability, and without the CPU list no publication passes as utilisation. |
| `Cycle.Collect` | internal/observe/coordinator.go:271-365 | A cycle ends with the lifecycle, or as an internal defect if a validator refused a value or the copied utilisation is one; otherwise exactly as finalising its observations ends, reporting their events. |
| `PlatformAnswers.ExactInterfacesAreValid` | internal/observe/coordinator.go:480-514 | The interfaces collected from a link table pass the network validator. |
| `PlatformAnswers.CollectDomains` | internal/observe/coordinator.go:38-60 | Whatever the platform answers, every production collector's value passes its validator and is exactly what the platform states: present with a stated value if there is one, and otherwise absent, denied or unsupported exactly as the failure to read says. |
| `Production.ProductionCycle` | internal/observe/coordinator.go:271-365 | With a firmware executor that runs and did not panic, and a sound CPU publication, which every stored one is by `PublicationIsSound`, a production cycle is an internal defect only if a snapshot would be dated with the zero time; it is cut short if and only if the service's lifecycle ended before a stage; a published document states exactly what the platform does, with the flags of the mask given to its own request; its issues say why anything is missing; and the reported events match them. |
| `Production.FlagsAreReported` | internal/observe/firmware_executor.go:104-141 | Published flags are those of a mask the firmware gave to this cycle's own request. |
| `PublishedDocument.DocumentIsStated` | internal/observe/coordinator.go:516-532 | Every field of the document is what the platform's answer states if the cycle was not overdue at its domain's turn and the domain did not expire, and null otherwise. |
| `PublishedDocument.InterfacesAreListed` | internal/observe/coordinator.go:608-622 | The published network lists exactly the capable links, each under its name with its own state and counters, in the order of the names. |
| `PublishedDocument.UtilizationIsStated` | internal/observe/coordinator.go:367-390 | The utilisation is published if and only if the last publication is present and at most 1.25 s old and the CPU list read in time has its topology; it is then that publication's. |
| `PublishedIssues.SaysReason` | internal/observe/coordinator.go:632-648 | The issue for each reason has its literal code and message. |
| `PublishedIssues.IssuesAreStated` | internal/observe/coordinator.go:516-648 | Each missing metric has one issue, which says permission_denied, unsupported or temporarily_unavailable exactly as the platform's own answer, given in time, says. |
| `PublishedIssues.EventsAreIssues` | internal/observe/coordinator.go:534-540 | With a hostname, the reported events have the metrics and codes of the issues, one by one. |
| `PublishedIssues.HostnameIsReported` | internal/observe/coordinator.go:534-537 | Without a hostname, the first reported event says why. |
| `CpuList.ParseCpuTopology` | internal/observe/generic.go:161-210 | Accepts if and only if the input is within the limit, its items are well-formed, ordered, disjoint ranges, and their total size is below 2^64; returns that size and the canonical list. |
| `CpuList.ScanItem` | internal/observe/generic.go:172-198 | One item is accepted if and only if it is a well-formed range after the previous one and the 64-bit count does not overflow, the wrap-around of the length included. |
| `CpuList.ScanItems` | internal/observe/generic.go:169-206 | The item loop accepts exactly the countable lists, with their total size and formatted ranges. |
| `CpuList.CountIsCardinality` | internal/observe/generic.go:161-210 | The count is the cardinality of the denoted set of ids, and stays below 2^64 if and only if some id is missing. |
| `CpuList.WrapsOnlyWhenFull` | internal/observe/generic.go:194-197 | The overflow check fires exactly if the range is, or completes, the whole id space. |
| `CpuList.SignatureRoundTrip` | internal/observe/generic.go:203-209 | Reparsing a signature yields the same ranges, hence count and signature, and a signature is never longer than its input. |
| `CpuList.SameSignature` | internal/observe/generic.go:203-209 | Lists with one signature denote one set of processors. |
| `CpuListSets.GappedIsUnique` | internal/observe/generic.go:203-209 | Ordered ranges with gaps between them that cover the same ids are equal. |
| `CpuListSets.GappedSameIds` | internal/observe/generic.go:203-209 | Between lists that leave gaps, one set if and only if one signature. |
| `CpuListSets.WhenSetDeterminesSignature` | internal/observe/generic.go:203-209 | All lists of a list's set have its signature if and only if no two neighbouring ids are in the set. |
| `CpuListSets.OneSetTwoSignatures` | internal/observe/generic.go:203-209 | The lists 0,1 and 0-1 denote one set and have two signatures. |
| `CpuListSets.FullListIsFull` | internal/observe/generic.go:194-197 | The list of all 2^64 ids is well formed and within the input limit. |
| `CpuListSets.ParseFullList` | internal/observe/generic.go:161-210 | That list is refused. |
| `Netlink.ParseAttributes` | internal/platform/netlink.go:80-99 | The consuming loop computes the specified parse, for every byte string. |
| `Netlink.ParseEncoded` | internal/platform/netlink.go:80-99 | Parsing the aligned encoding of any attributes with 14-bit kinds and 16-bit lengths returns them. |
| `Netlink.ParsedIsPartition` | internal/platform/netlink.go:80-99 | Accepted input is exactly partitioned into aligned attributes, the padding of the last one included. |
| `Netlink.DecodeLinkKind` | internal/platform/netlink.go:101-112 | Returns the first kind attribute's string, and the empty string if there is none. |
| `Netlink.DecodeLink` | internal/platform/netlink.go:19-73 | Accepts if and only if the header is there, all attributes parse and are well formed, the index is positive and the name not empty; returns the link they describe. |
| `Netlink.LastAttributeCounts` | internal/platform/netlink.go:33-68 | Each field comes from the last attribute of its kind. |
| `Netlink.ForeignAttributesDoNotMatter` | internal/platform/netlink.go:33-68 | Attributes of other kinds have no influence, in any position. |
| `Netlink.KindRoundTrip` | internal/platform/netlink.go:101-112 | The kind is read back from any nested list whose first attribute of that type carries it, whatever else is nested; without one it is empty. |
| `Netlink.LinkRoundTrip` | internal/platform/netlink.go:19-73 | Encoding a link, with its kind nested among other data and 64-bit statistics, in either byte order, and decoding it returns the link. |
| `FirmwareProtocol.PutWord` | internal/platform/firmware_protocol.go:80-82 | Writes one word in place and no other byte. |
| `FirmwareProtocol.WordOfSet` | internal/platform/firmware_protocol.go:80-86 | A written word reads back, and every other word is unchanged. |
| `FirmwareProtocol.BuildPropertyRequest` | internal/platform/firmware_protocol.go:20-30 | The request is the property-tag buffer with a zero value. |
| `FirmwareProtocol.BuildCommandRequest` | internal/platform/firmware_protocol.go:43-53 | The request is the command buffer with the command text, and zeros from there on. |
| `FirmwareProtocol.PropertyRoundTrip` | internal/platform/firmware_protocol.go:20-41 | For every mask, the firmware's answer to the request parses to that mask. |
| `FirmwareProtocol.PropertyAccepted` | internal/platform/firmware_protocol.go:32-41 | A mask is returned if and only if the buffer is a successful answer with that value. |
| `FirmwareProtocol.IndexByte` | internal/platform/firmware_protocol.go:88-95 | Returns the first position of the byte, or -1 if there is none. |
| `FirmwareProtocol.ParseCommandResponse` | internal/platform/firmware_protocol.go:55-78 | For every buffer, no access is out of range, and a mask is returned exactly for a successful reply whose text before the first NUL is a 32-bit throttled value. |
| `FirmwareProtocol.CommandRoundTrip` | internal/platform/firmware_protocol.go:55-78 | A reply with the digits of a value, surrounded by optional white space, NUL and arbitrary bytes, parses to that value. |
| `FirmwareProtocol.RepliesAgree` | internal/platform/firmware_protocol.go:32-78 | For every mask the command reply and the property reply parse to the same mask. |
| `LimitedListener.StepInv` | internal/httpapi/server.go:100-132 | Every accept, failed accept, close and repeated close keeps the slot accounting. |
| `LimitedListener.SlotsAreAccountedFor` | internal/httpapi/server.go:100-132 | Occupied slots are exactly pending accepts plus unreleased connections, at most 16, and none is leaked. |
| `LimitedListener.ReleasesNeverBlock` | internal/httpapi/server.go:107-132 | Giving back a slot never blocks, and a connection gives its slot back once, however often it is closed. |
| `LimitedListener.AcceptWaitsOnlyAtLimit` | internal/httpapi/server.go:100-105 | An accept waits for a slot if and only if 16 are held by others. |
| `RequestAdmission.StepInv` | internal/httpapi/handler.go:74-166 | Every step of every request, panics included, keeps the accounting of slots, latch and notification. |
| `RequestAdmission.AtMostEightInside` | internal/httpapi/handler.go:112-122 | At most eight requests hold a slot or are inside the provider, and giving a slot back never blocks. |
| `RequestAdmission.TurnedAwayOnlyAtLimit` | internal/httpapi/handler.go:112-118 | A request that passed the latch is turned away if and only if eight others hold a slot. |
| `RequestAdmission.FatalOnce` | internal/httpapi/handler.go:76-84 | The fatal callback fires at most once, only after the latch, and when all requests have finished it has fired exactly if the latch is set. |
| `RequestAdmission.NotAdmittedAfterFailure` | internal/httpapi/handler.go:108-118 | A request whose latch check follows a failure never reaches the provider and never gets a snapshot. |
| `RequestAdmission.NoSuccessAfterFailure` | internal/httpapi/handler.go:126-151 | After a failure nobody is answered with a snapshot who was not being answered already. |
| `RequestAdmission.FaultIsLatched` | internal/httpapi/handler.go:130-166 | A faulty result that reaches a client who is still there sets the latch and has notified before the request ends, with an internal error. |
| `RequestAdmission.ResponsesHaveReasons` | internal/httpapi/handler.go:108-151 | Each response has its reason in the run: a snapshot in time; an expected failure, a late snapshot or no provider call; a client who had gone; or the latch. |
| `Text.JoinSplit` | internal/observe/generic.go:169-170 | Splitting at a separator is inverted by joining, and no piece contains the separator. |
| `Text.FormatParses` | internal/observe/generic.go:175-204 | A formatted number parses back, so numeric texts round-trip. |
| `Renderings.FieldsOfLine` | internal/observe/generic.go:140-240 | Words with white space around and between them are exactly the fields of the text. |
| `Renderings.UptimeRoundTrip` | internal/observe/generic.go:136-149 | A number of seconds with any decimal places, in the first column, is read as that number. |
| `Renderings.MemoryLine` | internal/observe/generic.go:239-255 | A line with a name, a colon, a number and kB is the entry of that name and stands for 1024 times the number. |
| `Renderings.LoadText` | internal/observe/generic.go:212-229 | The loads are those of the first three words. |
| `Renderings.CountersRoundTrip` | internal/observe/cpu.go:286-304 | The aggregate line is read as its eight numbers, whatever columns and lines follow. |
| `Renderings.IntRoundTrip` | internal/observe/raspberrypi.go:86 | Signed decimals of 64 bits read back, and no others do. |
| `Sorting.SortedIsUnique` | internal/observe/network.go:66-68 | A set has one strictly ordered listing, so any sorting algorithm yields the same result. |

## Left out

- Platform input and output (files, sockets, `ioctl`, build tags): represented by arbitrary answers of the sources.
- JSON layout, RFC 3339 formatting and the 64 KiB check: marshalling is taken to succeed once validation has.
- Binary64 rounding: floating-point values are reals with NaN and the infinities; the guard at
  `internal/observe/cpu.go:356` and the finiteness test at `internal/observe/raspberrypi.go:94` concern values that
  exist only with rounding, and have no counterpart.
- Library functions (`sort.Slice`, `strconv`, `strings`, `bytes`, `utf8`) are modelled by their meaning; `ParseFloat`
  is an arbitrary function. The line scanner's token limit is left out: an input that hits it is a single line, which
  can never hold both memory entries.
- Error values: only the sentinels the code asks about are kept, not the texts. An outcome record in state `present`
  is a constructor of its own, since the value of any other record is never read.
- `unavailable`, `defect` and `acquisitionFailure`, plain case distinctions, have no row of their own; their validity
  is part of every collector's contract.
- The nil checks of constructors and of the thermal source, which production wiring rules out.
- Go's memory model: a field guarded by a mutex, a channel operation, an atomic access and a once-call are each one
  step. A handler panic while a refusal is being written is modelled as one before the refusal.
- `Cycle.Collect`: takes each domain's value as what its collector would return if called, and each context's state as
  arbitrary at every point where it is read; the wall clock that sets them is not modelled.
- `Production.ProductionCycle`: takes it as a premise that the CPU observer published no defect and the firmware
  executor did not panic; what they do then is stated by `ObserverLifecycle` and `FirmwareExecutor`.
- `FirmwareExecutor.Executor.BeginClose`: stops before the wait, which returns without an error whether the worker ends
  or the caller's context does.
- Liveness, fairness and time bounds: only safety, enabledness and states at rest.
- HTTP routing, headers and server timeouts, the application's start and shutdown, the configuration, and the readiness
  gate: single-branch facts or unseen library behaviour.
- The counters of packets, errors and drops in link statistics, which the service does not read.
