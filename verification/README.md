# NNRP core: a verified model

This project models the hard core of the NNRP runtime in Dafny and proves what its parts promise over
every input and every run:

- **Connection and session lifecycle** (`Lifecycle`, `LifecycleHistory`, `ConnectionObject`): the two-map connection object, its
  open, close and rollback calls, and the flow control check. Proved: an invariant of every reachable
  connection, isolation of sessions under any interleaving, and that every record and every answer is decided
  by the message history alone.
- **Operations** (`OperationStates`, `Operations`, `OperationCalls`, `CancelLaws`, `OperationRegistryObject`): the operation
  state graph and the registry with parents, groups, scheduling and cancel scopes. Proved: the registry stays a
  forest, states are earned by legal paths, and the exact effect of every cancel scope.
- **The multiplexing driver** (`Multiplex`, `Mailbox`): a state machine over the driver's events. Proved: it refines
  one mailbox per session, so nothing is lost, duplicated, reordered or leaked between sessions.
- **Wire formats** (`Wire`, `Bits`, `Header`, `Packets`, `FrameSubmit`, `ResultPush`, `BodyPrelude`, `TypedPayload`,
  `TypedPayloadLaws`, `ObjectReference`, `Baseline`): one generic theorem about fixed layouts, instantiated per
  message, and the region formats above it. Proved: round trips in both directions, unique framing, exact partitions.
- **Submits end to end** (`Submit`, `SubmitLaws`): from the caller's frames to packet bytes and back.
- **Capability tokens** (`Capability`, `CapabilityCodec`, `CapabilityMessage`): canonical encoding both ways, with
  the in-place sort and the decode loop proved against it.
- **Crate publish order** (`PublishOrder`), **transport ranking** (`Selection`), **cache dependencies** (`Cache`).

Operations that change things step by step are classes, array methods and loops; each is tied by its `ensures` to a
function on values, and the laws are lemmas about those functions. `Lex` and `Order` hold the orders on strings and
numbers that several parts share. No proof uses automatic induction.

Where a law one might expect does not hold of the code, the model keeps the code's behaviour, gives a concrete
counterexample and proves the exact condition:

| expectation | where it fails | exact condition |
|---|---|---|
| a written header parses back | `Header.UnreadableHeader` | `Header.WriteThenParse`: current version and wire format |
| a refused registry call changes nothing | `CancelLaws.RefusedSchedulingLeavesATrace` | `CancelLaws.RefusedCallChangesIff` |
| a cancel stays in its session | `CancelLaws.GroupCancelCrossesSessions` | `CancelLaws.GroupCancelConfinedIff` |
| a cancelled subtree stays quiet | `CancelLaws.CancelledSubtreeWakes` | `CancelLaws.StaysQuietIff` |
| a packet of one session does not end the connection | `Mailbox.LatePackets`, `Mailbox.OverflowFailsOtherSessions` | `Mailbox.PacketEndsConnectionIff` |
| region builder and parser agree | `TypedPayloadLaws.BuiltButUnreadable`, `TypedPayloadLaws.ReadButNotBuilt` | `TypedPayloadLaws.BuilderParserDisagreeIff` |
| candidates can be ranked | `Selection.ComparisonCanCycle` | `Selection.RankingExistsIff` |
| the cycle report names the crates on a cycle | `PublishOrder.ReportNamesDependants` | `PublishOrder.Resolve`: the crates that reach one |

## Model

| member | source | states |
|---|---|---|
| `Lifecycle.RunValid` | crates/nnrp-core/src/lifecycle.rs:65-236 | in every reachable connection both maps have the same non-zero keys, records carry their key, established states are Open or Resumed, a session accepting operations is in its established state, the connection is never Closing, and a closed connection has only closed sessions |
| `Lifecycle.RejectedCloseRollsBack` | crates/nnrp-core/src/lifecycle.rs:191-236 | after any run a rejected close succeeds exactly when the connection is open, the message is a close ack and its session is installed and not closed; it then restores the established state, so the missing-established error never occurs |
| `Lifecycle.RefusedCallChangesNothing` | crates/nnrp-core/src/lifecycle.rs:94-236 | a failing call leaves the whole connection unchanged |
| `Lifecycle.RunEvolves` | crates/nnrp-core/src/lifecycle.rs:94-236 | in every continuation sessions stay installed, negotiated terms and established states are fixed, closed sessions and closed connections are frozen |
| `Lifecycle.Isolation` | crates/nnrp-core/src/lifecycle.rs:94-236 | record, presence and established state of a session after any run are those after the sub-run of its own events and connection closes |
| `Lifecycle.IsolatedAnswers` | crates/nnrp-core/src/lifecycle.rs:94-236 | a call for a session gets the same answer after a run as after that sub-run |
| `Lifecycle.InterleavingIrrelevant` | crates/nnrp-core/src/lifecycle.rs:94-236 | runs with the same per-session streams end in the same connection |
| `Lifecycle.SessionHistory` | crates/nnrp-core/src/lifecycle.rs:107-236 | on an open connection a session is installed by its first open ack with that ack's terms, and is open exactly while no closed ack followed |
| `Lifecycle.LiveExactlyInHistory` | crates/nnrp-core/src/lifecycle.rs:25-36 | a session accepts session-scoped messages exactly when the messages of the run leave it live |
| `Lifecycle.FlowUpdateByHistory` | crates/nnrp-core/src/lifecycle.rs:238-255 | a session- or operation-scope flow update is accepted exactly when its routing is valid and the history leaves its session live |
| `Lifecycle.FlowUpdateRefusalIsFinal` | crates/nnrp-core/src/lifecycle.rs:238-255 | once the session is installed or the connection closed, a refused flow update is refused in every continuation |
| `LifecycleHistory.RecordByHistory` | crates/nnrp-core/src/lifecycle.rs:107-236 | on an open connection every field of a session record, and its established state, is read off the messages: terms from its first open ack; state, last operation and error code from the last close message that counts (Closing after a begin-close or an acknowledgement, Draining, Closed, or back to the opened state after a rejection) |
| `LifecycleHistory.StateByHistory` | crates/nnrp-core/src/lifecycle.rs:25-36 | an opened session accepts operations exactly while no close is under way, and is closed exactly when its last close message finished it |
| `LifecycleHistory.ClosedByHistory` | crates/nnrp-core/src/lifecycle.rs:94-105 | closing the connection sets every session to Closed, keeps the rest of each record, and is final |
| `LifecycleHistory.OpenAckAnswer` | crates/nnrp-core/src/lifecycle.rs:107-158 | the exact answer to an open ack after any run, from the messages alone |
| `LifecycleHistory.BeginCloseAnswer` | crates/nnrp-core/src/lifecycle.rs:160-189 | the exact answer to a begin-close: accepted exactly for an opened session with no close under way |
| `LifecycleHistory.CloseAckAnswer` | crates/nnrp-core/src/lifecycle.rs:191-236 | the exact answer to a close ack: accepted exactly for an opened session that is not finished |
| `LifecycleHistory.CloseAnswer` | crates/nnrp-core/src/lifecycle.rs:94-105 | a connection can be closed exactly once |
| `LifecycleHistory.RoutingIff` | crates/nnrp-core/src/flow.rs:73-119 | which fields a flow update of each scope may carry, in numbers |
| `LifecycleHistory.FlowUpdateAnswer` | crates/nnrp-core/src/lifecycle.rs:238-255 | every flow update, connection scope included, is accepted exactly when its fields are allowed and the messages of the run leave the connection open or the session live |
| `LifecycleHistory.FlowUpdateRefusal` | crates/nnrp-core/src/lifecycle.rs:238-255 | which kind of error a refused flow update gets |
| `ConnectionObject.ConnectionLifecycle.constructor` | crates/nnrp-core/src/lifecycle.rs:65-72 | a new object is the empty open connection |
| `ConnectionObject.ConnectionLifecycle.Close` | crates/nnrp-core/src/lifecycle.rs:94-105 | the loop over the sessions is the close step: all are closed or, when already closed, nothing changes |
| `ConnectionObject.ConnectionLifecycle.ApplyOpenAck` | crates/nnrp-core/src/lifecycle.rs:107-158 | result and new state are those of the open-ack step |
| `ConnectionObject.ConnectionLifecycle.BeginSessionClose` | crates/nnrp-core/src/lifecycle.rs:160-189 | result and new state are those of the begin-close step, whose effect `LifecycleHistory.RecordByHistory` and `BeginCloseAnswer` give field by field |
| `ConnectionObject.ConnectionLifecycle.ApplyCloseAck` | crates/nnrp-core/src/lifecycle.rs:191-236 | result and new state are those of the close-ack step, whose effect `LifecycleHistory.RecordByHistory` and `CloseAckAnswer` give field by field |
| `ConnectionObject.ConnectionLifecycle.ValidateFlowUpdate` | crates/nnrp-core/src/lifecycle.rs:238-255 | the answer of the flow check; the object is not changed |
| `ConnectionObject.Replay` | crates/nnrp-core/src/lifecycle.rs:65-236 | driving an object through any list of calls ends in the state of the run, so every law above holds of the object |
| `OperationStates.PathEnds` | crates/nnrp-core/src/enums.rs:269-304 | on a legal path a terminal state is only last and Accepted only first |
| `OperationStates.TerminalFollows` | crates/nnrp-core/src/enums.rs:269-304 | a terminal state is followed only by itself |
| `OperationStates.TransitionGraph` | crates/nnrp-core/src/enums.rs:269-304 | the transition test is the graph read by the state entered, and terminal states are those without a successor |
| `OperationStates.CompletionNeedsRunning` | crates/nnrp-core/src/enums.rs:276-304 | on a path to Completed every Accepted or WaitingTool state is followed later by Running |
| `OperationStates.ResultStates` | crates/nnrp-core/src/enums.rs:330-341 | a result state exists exactly for terminal operation states and says how the operation ended: completed, cancelled, superseded or failed |
| `Operations.RunForest` | crates/nnrp-core/src/operation.rs:69-96 | in every reachable registry parent links form a forest inside each session |
| `Operations.NoCycles` | crates/nnrp-core/src/operation.rs:69-96 | no operation is its own proper ancestor |
| `Operations.SubtreeInSession` | crates/nnrp-core/src/operation.rs:268-285 | a subtree belongs to the session of its root |
| `Operations.RunEvolves` | crates/nnrp-core/src/operation.rs:69-307 | in every continuation records stay, descriptors are fixed, state changes are legal and terminal records are frozen |
| `Operations.StatesAreEarned` | crates/nnrp-core/src/operation.rs:98-187 | every state in a reachable registry was reached from Accepted by legal transitions |
| `OperationCalls.RegisterAnswer` | crates/nnrp-core/src/operation.rs:69-96 | the exact answer to a registration, each refusal in its order |
| `OperationCalls.RegisterEffect` | crates/nnrp-core/src/operation.rs:69-96 | an accepted registration adds one Accepted operation with an empty schedule and changes nothing else |
| `OperationCalls.TransitionCall` | crates/nnrp-core/src/operation.rs:98-116 | a transition is accepted exactly along the graph, reaches the requested state and changes nothing else |
| `OperationCalls.AbortCall` | crates/nnrp-core/src/operation.rs:144-158 | an abort fails exactly an operation that can still change |
| `OperationCalls.CompleteCall` | crates/nnrp-core/src/operation.rs:118-142 | a completion is accepted exactly from Accepted, Running or Partial and leaves Completed |
| `OperationCalls.ExpireCall` | crates/nnrp-core/src/operation.rs:160-187 | an expiry supersedes exactly a live operation with the discard flag and `0 < expireAt <= now`, and reports its schedule |
| `OperationCalls.ScheduleCall` | crates/nnrp-core/src/operation.rs:189-232 | each message type sets exactly its own schedule fields and the sequence number; other types set the sequence number and are refused |
| `OperationCalls.CancelAnswer` | crates/nnrp-core/src/operation.rs:234-250 | the exact refusals of a cancel |
| `OperationCalls.CancelEffect` | crates/nnrp-core/src/operation.rs:234-307 | an accepted cancel cancels and lists, ascending, exactly the live operations in scope, the scope given by parent paths, group and session fields |
| `OperationCalls.ScheduleByHistory` | crates/nnrp-core/src/operation.rs:189-232 | after any run each schedule field is that of the last message of its type that reached the operation, and the sequence number that of the last message of any type |
| `CancelLaws.CancelIsExact` | crates/nnrp-core/src/operation.rs:234-266 | an accepted cancel lists, ascending, exactly the live operations in scope, all of them registered, cancels these, touches nothing else and leaves nothing live in scope |
| `CancelLaws.CancelStaysInSession` | crates/nnrp-core/src/operation.rs:234-307 | after any run a cancel of one operation, a subtree or a session changes only that session's operations |
| `CancelLaws.GroupCancelCrossesSessions` | crates/nnrp-core/src/operation.rs:287-299 | a group cancel can cancel an operation of another session |
| `CancelLaws.GroupCancelConfinedIff` | crates/nnrp-core/src/operation.rs:287-299 | group cancels stay in their session exactly when no live operation shares its group across sessions |
| `CancelLaws.CancelIdempotent` | crates/nnrp-core/src/operation.rs:234-266 | repeating a cancel cancels nothing more |
| `CancelLaws.CancelsCommute` | crates/nnrp-core/src/operation.rs:234-266 | two accepted cancels of any scopes give the same registry in either order |
| `CancelLaws.SubtreeCancelQuiets` | crates/nnrp-core/src/operation.rs:268-285 | after a subtree cancel nothing below its root is live |
| `CancelLaws.QuietMembersStayTerminal` | crates/nnrp-core/src/operation.rs:98-187 | the operations of a quiet subtree keep their records in every continuation |
| `CancelLaws.RegisterJoins` | crates/nnrp-core/src/operation.rs:69-96 | a registration joins a subtree exactly when its parent is in it |
| `CancelLaws.RegisterKeepsQuietIff` | crates/nnrp-core/src/operation.rs:69-96 | a registration wakes a quiet subtree exactly when its parent lies in it |
| `CancelLaws.StaysQuietIff` | crates/nnrp-core/src/operation.rs:69-307 | through a whole continuation a quiet subtree stays quiet exactly when no accepted registration in it has its parent in the subtree |
| `CancelLaws.CancelledSubtreeWakes` | crates/nnrp-core/src/operation.rs:69-96 | a run that cancels a subtree and then registers a live child in it |
| `CancelLaws.RefusedCallChangesIff` | crates/nnrp-core/src/operation.rs:189-232 | a refused call changes the registry exactly when it is a scheduling call of the wrong message type for a live operation of the right session with a new sequence number |
| `CancelLaws.RefusedSchedulingLeavesATrace` | crates/nnrp-core/src/operation.rs:189-232 | a concrete refused scheduling call that changes the registry |
| `OperationRegistryObject.OperationRegistry.constructor` | crates/nnrp-core/src/operation.rs:51-59 | a new registry is empty |
| `OperationRegistryObject.OperationRegistry.RegisterOperation` | crates/nnrp-core/src/operation.rs:69-96 | result and new registry are those of the register step |
| `OperationRegistryObject.OperationRegistry.TransitionOperation` | crates/nnrp-core/src/operation.rs:98-116 | result and new registry are those of the transition step, given by `OperationCalls.TransitionCall` |
| `OperationRegistryObject.OperationRegistry.CompleteOperation` | crates/nnrp-core/src/operation.rs:118-142 | result and new registry are those of the complete step |
| `OperationRegistryObject.OperationRegistry.AbortOperation` | crates/nnrp-core/src/operation.rs:144-158 | result and new registry are those of the abort step, given by `OperationCalls.AbortCall` |
| `OperationRegistryObject.OperationRegistry.ExpireOperationIfStale` | crates/nnrp-core/src/operation.rs:160-187 | result and new registry are those of the expire step |
| `OperationRegistryObject.OperationRegistry.ApplySchedulingUpdate` | crates/nnrp-core/src/operation.rs:189-232 | result and new registry are those of the scheduling step, the early write included |
| `OperationRegistryObject.OperationRegistry.CancelOperations` | crates/nnrp-core/src/operation.rs:234-266 | result, ascending id list and new registry are those of the cancel step |
| `OperationRegistryObject.OperationRegistry.SubtreeIds` | crates/nnrp-core/src/operation.rs:268-285 | the stack walk collects exactly the operations that descend from the root, and terminates |
| `OperationRegistryObject.OperationRegistry.CancelEach` | crates/nnrp-core/src/operation.rs:255-266 | the loop cancels exactly the live operations in scope and lists them ascending |
| `Multiplex.RunValid` | crates/nnrp-runtime/src/multiplex.rs:298-467 | in every driver state channels are distinct, buffers belong to announced unregistered sessions and are within limits, a failure notice is last in every log, no log of a reading driver has one, and every live log has one after a failure that leaves the driver running |
| `Mailbox.DriverRefinesMailbox` | crates/nnrp-runtime/src/multiplex.rs:298-467 | while the driver reads, what it holds of a session is its mailbox: exactly and in order what arrived for it |
| `Mailbox.ReadersSeeOnlyTheirSession` | crates/nnrp-runtime/src/multiplex.rs:404-430 | runs with the same events for a session give its reader the same packets in the same order |
| `Mailbox.ControlReaderSeesItsPackets` | crates/nnrp-runtime/src/multiplex.rs:404-459 | while the driver reads, the control reader has been given, in order, exactly the packets without a session and the open acks of unregistered sessions |
| `Mailbox.PacketEndsConnectionIff` | crates/nnrp-runtime/src/multiplex.rs:404-459 | a packet ends the reading of a connection exactly when its session is unknown, 4096 packets wait for its announced session or the waiting packets and it take more than 8 MiB (metadata, body and 40 bytes each), or it is for the control reader when that and all registered sessions are gone; the failure reported is the matching one |
| `Mailbox.EventEndsConnectionIff` | crates/nnrp-runtime/src/multiplex.rs:313-467 | which events end the reading of a connection, which failure each is reported as, and which leave the driver serving commands |
| `Mailbox.LatePackets` | crates/nnrp-runtime/src/multiplex.rs:410-450 | a late packet is harmless after its reader is dropped and fails the connection after an unregistration |
| `Mailbox.OverflowFailsOtherSessions` | crates/nnrp-runtime/src/multiplex.rs:424-436 | a packet that overflows the buffer of one session ends the connection for the reader of another |
| `Mailbox.FailureSealsMailboxes` | crates/nnrp-runtime/src/multiplex.rs:313-478 | for every cause of failure (failed write, failed read, unknown session, full buffer) and every continuation, each live reader has exactly its mailbox and then that failure, and so has the control reader |
| `Mailbox.FailedDriverServes` | crates/nnrp-runtime/src/multiplex.rs:313-395 | a driver that failed but serves commands goes on registering and forgetting sessions: waiting packets and then the failure are given to whoever registers, over every continuation |
| `Mailbox.NoticesHaveACause` | crates/nnrp-runtime/src/multiplex.rs:313-478 | a reader is told of a failure only if an event of the run caused that failure |
| `Mailbox.OneFailure` | crates/nnrp-runtime/src/multiplex.rs:313-330 | a run has at most one failing event, so all readers are told the same |
| `Mailbox.GoneGetNothing` | crates/nnrp-runtime/src/multiplex.rs:364-416 | a reader that is gone is given nothing more |
| `Mailbox.StoppedLogsAreFinal` | crates/nnrp-runtime/src/multiplex.rs:313-330 | once the driver stops reading, what existing readers and the control reader were given never changes |
| `Mailbox.LimitsAndNotices` | crates/nnrp-runtime/src/multiplex.rs:24-51 | on every run a buffer holds at most 4096 packets and 8 MiB, and nothing follows a failure notice |
| `Header.Write` | crates/nnrp-core/src/header.rs:52-80 | stores exactly the 40 bytes and nothing else, or changes nothing and returns the length error or the first violated rule |
| `Header.FieldOffsets` | crates/nnrp-core/src/header.rs:88-134 | every parsed field is the little-endian value at its own offset, after the magic |
| `Header.AcceptedIff` | crates/nnrp-core/src/header.rs:88-134 | which byte strings start with an accepted header, in numbers at byte offsets |
| `Header.WriteThenParse` | crates/nnrp-core/src/header.rs:52-134 | a written header parses back, whatever follows, exactly when its version and wire format are current |
| `Header.UnreadableHeader` | crates/nnrp-core/src/header.rs:52-134 | a header that can be written and not read back |
| `Header.ParseThenWrite` | crates/nnrp-core/src/header.rs:52-134 | writing a parsed header reproduces its bytes |
| `Packets.PacketIff` | crates/nnrp-core/src/header.rs:136-149 | a packet parses to a triple exactly when it is that header's bytes, metadata and body of the declared lengths |
| `Packets.PrefixFree` | crates/nnrp-core/src/header.rs:136-149 | no accepted packet is a proper prefix of another |
| `Packets.UniqueSplit` | crates/nnrp-core/src/header.rs:136-149 | a byte stream splits into accepted packets in at most one way |
| `Packets.NewPacketRoundTrip` | crates/nnrp-runtime/src/packet.rs:46-70 | a packet built with a writable header of the current version is read back as it was built |
| `FrameSubmit.Write` | crates/nnrp-core/src/data.rs:323-370 | stores exactly the 72 bytes and nothing else, or changes nothing and returns the length error or the first violated rule |
| `FrameSubmit.WriteThenParse` | crates/nnrp-core/src/data.rs:281-390 | everything that can be written parses back to itself |
| `FrameSubmit.ParseThenWrite` | crates/nnrp-core/src/data.rs:281-390 | the first 72 bytes of every accepted input are reproduced |
| `FrameSubmit.FieldOffsets` | crates/nnrp-core/src/data.rs:282-321 | every parsed field is the little-endian value at its own byte offset, and the reserved bytes are zero |
| `FrameSubmit.AcceptedIff` | crates/nnrp-core/src/data.rs:282-390 | which byte strings are accepted, in numbers at byte offsets: reserved bytes clear, codes and masks known, operation named, and no tile fields without tensors |
| `ResultPush.Write` | crates/nnrp-core/src/data.rs:453-500 | stores exactly the 64 bytes and nothing else, or changes nothing and returns the length error or the first violated rule |
| `ResultPush.WriteThenParse` | crates/nnrp-core/src/data.rs:413-529 | everything that can be written parses back to itself |
| `ResultPush.ParseThenWrite` | crates/nnrp-core/src/data.rs:413-529 | the first 64 bytes of every accepted input are reproduced |
| `ResultPush.FieldOffsets` | crates/nnrp-core/src/data.rs:414-451 | every parsed field is the little-endian value at its own byte offset, and the reserved bytes are zero |
| `ResultPush.AcceptedIff` | crates/nnrp-core/src/data.rs:414-529 | which byte strings are accepted, in numbers at byte offsets, stale and coverage rules included |
| `BodyPrelude.WriteThenParse` | crates/nnrp-core/src/data.rs:541-613 | a prelude that can be written parses back, whatever follows |
| `BodyPrelude.ParseThenWrite` | crates/nnrp-core/src/data.rs:541-613 | the first 32 bytes of an accepted body are reproduced |
| `BodyPrelude.ReadAs` | crates/nnrp-core/src/data.rs:541-613 | a prelude is read as the six lengths at their offsets, accepted exactly when aligned and reserved bytes are clear |
| `ObjectReference.BlockCodec` | crates/nnrp-core/src/data.rs:754-785 | a block and its 24 bytes determine each other |
| `ObjectReference.ReadAs` | crates/nnrp-core/src/data.rs:754-767 | a block is read as the fields at their offsets, accepted exactly for kinds 1 to 9 without flags |
| `ObjectReference.RegionCodec` | crates/nnrp-core/src/data.rs:812-845 | a region of any number of blocks parses to a list exactly when the list is written as that region |
| `ObjectReference.ValidateSubmitMask` | crates/nnrp-core/src/data.rs:847-887 | the loop reports the first violated rule of the slot scan, in the source's order of tests |
| `ObjectReference.SubmitMaskIff` | crates/nnrp-core/src/data.rs:847-887 | accepted exactly when the mask is legal for the mode and the slots of the standard-kind blocks are the ascending list of its set bits |
| `ObjectReference.SubmitMaskByKind` | crates/nnrp-core/src/data.rs:847-887 | the same by object kinds: standard blocks in ascending order of kind without repetition, and bits 0 to 3 of the mask set exactly when a block of kind 1, 2, 3 or 6 is present |
| `ObjectReference.MaskRefusal` | crates/nnrp-core/src/data.rs:1112-1136 | why a mask is refused before the blocks are looked at |
| `ObjectReference.SlotRefusal` | crates/nnrp-core/src/data.rs:855-878 | why a standard block is refused: before an earlier slot, repeated, or not declared |
| `TypedPayload.DescriptorCodec` | crates/nnrp-core/src/schema.rs:91-132 | a descriptor and its 24 bytes determine each other |
| `TypedPayload.ReadAs` | crates/nnrp-core/src/schema.rs:91-109 | a descriptor is read as the fields at their offsets, the kind as its bit, with known flags and a clear reserved field |
| `TypedPayload.DescriptorsCodec` | crates/nnrp-core/src/data.rs:1022-1031 | a descriptor list and its bytes determine each other |
| `TypedPayload.Validate` | crates/nnrp-core/src/data.rs:1033-1078 | the loop with running offset and kind union reports the first violated rule |
| `TypedPayloadLaws.ParsedIsPartition` | crates/nnrp-core/src/data.rs:945-1020 | in every parsed region each frame starts at the sum of earlier lengths, ranges are in bounds and disjoint, and the views joined are the payload |
| `TypedPayloadLaws.BuiltIsPartition` | crates/nnrp-core/src/data.rs:985-1020 | the same of every built region |
| `TypedPayloadLaws.BuiltIff` | crates/nnrp-core/src/data.rs:985-1102 | which regions the builder accepts, in numbers: at most 65535 frames with allowed profiles, each starting where the earlier ones end, together exactly the payload, and of exactly the declared kinds apart from tensors |
| `TypedPayloadLaws.RegionRefusal` | crates/nnrp-core/src/data.rs:1033-1102 | a refused region is refused for the first frame that does not fit, then for uncovered bytes, then for its kinds |
| `TypedPayloadLaws.BuiltBitmapIsKnown` | crates/nnrp-core/src/data.rs:985-1078 | the builder, which never checks the bitmap mask, accepts only known bits |
| `TypedPayloadLaws.BuildThenParse` | crates/nnrp-core/src/data.rs:945-1078 | a built region that can be written parses back to itself |
| `TypedPayloadLaws.ParseThenBuild` | crates/nnrp-core/src/data.rs:945-1078 | a parsed region with frames is accepted by the builder and written back to the same bytes |
| `TypedPayloadLaws.ReadableIff` | crates/nnrp-core/src/data.rs:945-1102 | some descriptor bytes parse to a region exactly when the builder accepts it and all descriptor flags are known, or it is empty and the bitmap has known bits |
| `TypedPayloadLaws.BuilderParserDisagreeIff` | crates/nnrp-core/src/data.rs:945-1102 | builder and parser disagree on a region exactly when the builder accepts an unknown descriptor flag, or the region is empty and the bitmap declares a known non-tensor kind |
| `TypedPayloadLaws.BuiltButUnreadable` | crates/nnrp-core/src/data.rs:985-1006 | a region with an unknown flag that is built and that no bytes parse to |
| `TypedPayloadLaws.ReadButNotBuilt` | crates/nnrp-core/src/data.rs:945-1006 | an empty region that is parsed and not built |
| `Submit.BuildFrames` | crates/nnrp-runtime/src/submit.rs:270-292 | the loop gives each frame its own fields, the offset where earlier payloads end and the joined payload, or reports overflow exactly when an offset or length exceeds 32 bits |
| `SubmitLaws.BodyRoundTrip` | crates/nnrp-runtime/src/submit.rs:352-380 | a body splits by its prelude into the regions it was built from |
| `SubmitLaws.SubmitAcceptedIff` | crates/nnrp-runtime/src/submit.rs:262-324 | a typed submit is accepted exactly when operation and frame are named, header flags are below 64 and the budget policy below 16, it has 1 to 65535 frames of at most 2^32-1 bytes in all, and every frame's kind, profile and flags are allowed |
| `SubmitLaws.SubmitRefusals` | crates/nnrp-runtime/src/submit.rs:262-270 | identity, flags and frame count are refused in this order |
| `SubmitLaws.SubmitRoundTrip` | crates/nnrp-runtime/src/submit.rs:262-341 | the wire parsers read from an accepted submit every policy field and the operation as the caller gave them, the frame count, a bitmap with exactly the frames' kinds, the fixed constants, each frame's own fields and exactly the payloads in order |
| `SubmitLaws.SubmitSentIff` | crates/nnrp-runtime/src/packet.rs:46-60 | an accepted submit can be sent exactly when metadata, prelude, descriptors and payload together fit the 32-bit packet length |
| `SubmitLaws.SentRoundTrip` | crates/nnrp-runtime/src/client.rs:791-808 | the bytes of a sent submit are one packet whose header has the session, frame, flags and routing of the caller, and from which the caller's policy, frames and payloads are read |
| `Baseline.KnownKindIff` | crates/nnrp-conformance/src/nnrp1_baseline.rs:753-761 | the bit-trick test accepts exactly the seven single-bit kinds |
| `Baseline.WriteThenParseIff` | crates/nnrp-conformance/src/nnrp1_baseline.rs:738-781 | a descriptor survives writing and reading exactly when it is well formed |
| `Baseline.ParseThenWrite` | crates/nnrp-conformance/src/nnrp1_baseline.rs:738-781 | an accepted descriptor is written back to the same bytes |
| `Baseline.ReadAs` | crates/nnrp-conformance/src/nnrp1_baseline.rs:738-769 | a descriptor is read as the fields at their offsets, accepted exactly with one known kind bit and clear reserved fields |
| `Baseline.ValidateRegion` | crates/nnrp-conformance/src/nnrp1_baseline.rs:783-819 | the loop reports the first violated rule |
| `Baseline.RegionAcceptedIff` | crates/nnrp-conformance/src/nnrp1_baseline.rs:783-819 | accepted exactly when the bytes encode that many descriptors of declared single-bit kinds whose ranges tile the payload without 32-bit overflow |
| `Baseline.TileRanges` | crates/nnrp-conformance/src/nnrp1_baseline.rs:796-818 | tiled ranges are ordered, disjoint, addressable and inside the payload |
| `Capability.EncodeAccepts` | crates/nnrp-core/src/capability.rs:62-87 | encoding succeeds exactly for distinct valid tokens of at most 65535 bytes, and prints them in byte order |
| `Capability.ValidTokenIff` | crates/nnrp-core/src/capability.rs:194-204 | a token is a non-empty string of lower-case letters, digits, dots, underscores and hyphens |
| `Capability.EntryBytes` | crates/nnrp-core/src/capability.rs:81-86 | a token follows its length, low byte first |
| `Capability.NeighboursSuffice` | crates/nnrp-core/src/capability.rs:67-72 | comparing neighbours of the sorted list decides global strict order and uniqueness |
| `Capability.DecodeIff` | crates/nnrp-core/src/capability.rs:89-162 | a body and count decode to a list exactly when the list is canonical, has that length and prints to the body |
| `Capability.EntryRefusal` | crates/nnrp-core/src/capability.rs:103-155 | the exact outcome of reading one entry, each refusal in its order |
| `Capability.DecodeRefusal` | crates/nnrp-core/src/capability.rs:89-162 | why a body is refused as a whole |
| `Capability.EncodeDecode` | crates/nnrp-core/src/capability.rs:62-162 | decoding an encoded list with its count returns the sorted list |
| `Capability.DecodeEncode` | crates/nnrp-core/src/capability.rs:62-162 | an accepted body re-encodes to the same bytes |
| `Capability.EncodePermutation` | crates/nnrp-core/src/capability.rs:62-87 | encoding does not depend on the order of the tokens |
| `Capability.SameTokensSameBody` | crates/nnrp-core/src/capability.rs:89-162 | accepted bodies with the same token set are equal |
| `CapabilityCodec.DecodeTokens` | crates/nnrp-core/src/capability.rs:89-162 | the decode loop is the decoder of those laws |
| `CapabilityCodec.SortInPlace` | crates/nnrp-core/src/capability.rs:62-67 | the array is sorted in place as the specification sorts it |
| `CapabilityCodec.EncodeTokens` | crates/nnrp-core/src/capability.rs:62-87 | the encode loop is the encoder of those laws |
| `CapabilityMessage.ParseThenWrite` | crates/nnrp-core/src/control.rs:1145-1205 | an accepted message is reproduced byte for byte |
| `CapabilityMessage.WriteThenParse` | crates/nnrp-core/src/control.rs:1145-1205 | a written message parses back to what was written |
| `CapabilityMessage.ReadAs` | crates/nnrp-core/src/control.rs:1134-1180 | the fixed part is read as the fields at their offsets, accepted exactly for flags below four |
| `CapabilityMessage.SameMeaningSameBytes` | crates/nnrp-core/src/control.rs:1936-1961 | accepted messages with the same terms and token set are identical |
| `PublishOrder.Resolve` | scripts/resolve_crate_publish_order.py:56-68 | succeeds exactly for acyclic graphs with the publish order; otherwise reports, sorted, exactly the crates that reach a cycle; terminates |
| `PublishOrder.ResolvePublishOrder` | scripts/resolve_crate_publish_order.py:41-68 | the same for the graph built from the package metadata |
| `PublishOrder.CycleIsBottomless` | scripts/resolve_crate_publish_order.py:60-68 | a crate reaches a cycle exactly when it has dependency chains of every length |
| `PublishOrder.LevelUnique` | scripts/resolve_crate_publish_order.py:60-68 | a crate has at most one level, the length of its longest chain |
| `PublishOrder.OrderHasNoDuplicates` | scripts/resolve_crate_publish_order.py:60-68 | a publish order names each crate once |
| `PublishOrder.DependenciesComeFirst` | scripts/resolve_crate_publish_order.py:60-68 | in a publish order every dependency comes earlier |
| `PublishOrder.PublishOrderUnique` | scripts/resolve_crate_publish_order.py:60-68 | the order by level and then name is unique |
| `PublishOrder.GraphOfPackages` | scripts/resolve_crate_publish_order.py:41-58 | each workspace member without registries or with crates-io among them is mapped to its non-dev dependencies in the graph |
| `PublishOrder.GraphNodes` | scripts/resolve_crate_publish_order.py:30-58 | a name is in the graph exactly when such a package has it |
| `PublishOrder.LastPackageCounts` | scripts/resolve_crate_publish_order.py:42-47 | of packages with the same id the last one counts |
| `PublishOrder.LastNameCounts` | scripts/resolve_crate_publish_order.py:49-56 | of packages with the same name the last one in order of first listing counts |
| `PublishOrder.ListingOrderIrrelevant` | scripts/resolve_crate_publish_order.py:41-58 | the graph does not depend on the order in which packages are listed |
| `PublishOrder.ReportNamesDependants` | scripts/resolve_crate_publish_order.py:63-65 | the cycle report also names crates that are on no cycle |
| `Selection.CompareMeaning` | crates/nnrp-transport-provider/src/lib.rs:1060-1120 | the comparison field by field: more successes, more throughput, shorter round trip, lower cost in a shared non-zero model, preferred transport, lower rank, lower transport number, id |
| `Selection.PreferredFirst` | crates/nnrp-transport-provider/src/lib.rs:1091-1096 | with equal metrics and no cost difference in a shared model the preferred transport precedes every other |
| `Selection.ExactlyOne` | crates/nnrp-transport-provider/src/lib.rs:1060-1120 | of two candidates of different transports exactly one precedes the other |
| `Selection.ComparisonCanCycle` | crates/nnrp-transport-provider/src/lib.rs:1114-1120 | three candidates that precede each other in a circle |
| `Selection.CycleIff` | crates/nnrp-transport-provider/src/lib.rs:1060-1120 | three candidates form a circle exactly when one lies by tie key between two of another cost model whose costs are inverted |
| `Selection.TransitiveWithin` | crates/nnrp-transport-provider/src/lib.rs:1060-1120 | without such a candidate the comparison is transitive |
| `Selection.RankingUnique` | crates/nnrp-transport-provider/src/lib.rs:661-670 | two rankings of the same candidates are equal |
| `Selection.RankingExistsIff` | crates/nnrp-transport-provider/src/lib.rs:661-688 | the successful candidates can be ranked exactly when none straddles two others, and then in one way whatever the listing order |
| `Selection.SelectedIsBest` | crates/nnrp-transport-provider/src/lib.rs:668-688 | the first of a ranking precedes every other candidate, and is the preferred transport when metrics and costs do not decide |
| `Cache.FindState` | crates/nnrp-core/src/cache.rs:282-285 | the scan finds what the first-wins map holds |
| `Cache.ValidateDependencies` | crates/nnrp-core/src/cache.rs:277-293 | accepts exactly when every dependency is live at its required version in the first-wins map |
| `Cache.MetIff` | crates/nnrp-core/src/cache.rs:282-289 | a dependency is met exactly when the first state of its object is live at the required version |
| `Cache.OrderIrrelevant` | crates/nnrp-core/src/cache.rs:277-293 | the verdict depends only on the set of dependencies |
| `Cache.Distributes` | crates/nnrp-core/src/cache.rs:277-293 | a concatenation is accepted exactly when both parts are |
| `Cache.LaterStatesIgnored` | crates/nnrp-core/src/cache.rs:282-285 | later states of known objects change no verdict |
| `Wire.UnpackPack` | crates/nnrp-core/src/header.rs:52-134 | loading any fixed message gives back the values that were stored |
| `Wire.LittleEndian` | crates/nnrp-core/src/header.rs:52-134 | what little-endian means for fields of 1, 2, 4 and 8 bytes |
| `Wire.PackUnpack` | crates/nnrp-core/src/header.rs:52-134 | storing what was loaded from any fixed message reproduces it |
| `Wire.WriteFields` | crates/nnrp-core/src/header.rs:60-79 | zeroing the buffer and storing each field in place packs the message and leaves the rest alone |

## Left out

- Async I/O, tasks, channels and transports: the driver is a state machine over the events its select loop receives; unbounded channels are lists, and a dropped receiver is an event.
- Error texts: errors are a small datatype; a rule text is a rule name.
- UTF-8: tokens and names are byte strings; a body with valid non-ASCII UTF-8 is reported under the same rule as an invalid one.
- The catalogue of registered capability tokens: an easy lookup.
- usize overflow: lengths are unbounded numbers; the 16- and 32-bit limits of the formats are explicit.
- TypedPayload.DescriptorsCodec: the list writer is modelled on values, not as stores into a preallocated vector.
- ObjectReference.RegionCodec: the region writer is modelled on values, not as stores into a preallocated vector.
- CapabilityCodec.SortInPlace: the standard library sort is replaced by an insertion sort with the same result.
- Selection.RankingExistsIff: what the standard library sort does when no ranking exists is not modelled.
- SubmitLaws.SubmitRoundTrip: reading is the composition of the wire parsers; inline object and tensor submits are not modelled.
- OperationRegistryObject.OperationRegistry.ExpireOperationIfStale: omits a transition check that cannot fail for a live operation.
- Views of a region that was not validated: the source panics, the model has no views.
- Clocks and randomness: the time is a parameter of the expire call.
- Flow update, cache, session, recovery and the other control message codecs: they repeat the fixed-layout pattern.
- Hello and ack negotiation, schema registry, object store, leases, conformance plans, FFI and scripts other than the publish order.
