# Instruction feeders: a verified model

The feeders hand instructions to a processor simulator (Asim) and take back what it commits and
kills. This project models the stateful cores among them and proves what each keeps over whole runs.

| files | what they model |
|---|---|
| `MingoIpc`, `MingoProtocol`, `MingoDelivery` | the shared-memory slot between a Mingo client thread and Asim, and every interleaving of the two |
| `ReplaySpec`, `ReplayBuffer`, `ReplayCounting`, `RegisterRecords`, `RegisterOrder` | the SoftSDV replay buffer: a doubly linked list on the heap with a fetch cursor, free lists and register records |
| `FeederSpec`, `SoftsdvFeeder` | fetch, kill and commit of one SoftSDV CPU on top of that buffer |
| `MemFeederSpec`, `MemFeeder`, `MemFeederRuns` | the trace-driven memory feeder: bundles, squash and replay, waiting for another thread |
| `TranslationSpec`, `ITranslate` | the instruction-translation cache: a recency list threaded through a fixed array |
| `MemoryValueSpec`, `MemoryValues`, `MemoryValueRuns` | the memory-value model: per-CPU stores over a global byte image |
| `VaTableSpec`, `VaTable` | the table of virtual addresses: linked rows in one growable pool of slots |
| `TwoPageAccess` | translating a memory reference that may touch two pages |
| `DrivenRuns` | callers that take the objects of five of these cores through whole runs of their specifications |
| `Wrappers`, `Sequences`, `Arithmetic` | `Option`, `Result` and a few facts about sequences and division |

Each core comes in two forms. Classes (or, for Mingo, a region of slots) update their fields in place
with the loops and branches of the original. Their methods are proved against functions on values,
and the theorems about whole runs are about those functions; `DrivenRuns` joins the two, driving the
objects through any run to the state the run function names. A fatal error or failed assertion of the
original is a result of the method (`ok == false`, `null`, `None`), never a precondition, except where
a row below or "Left out" says so.

What the code does differently from what a reader may expect is stated exactly:

- A probe result that meets disabled or skipped events is dropped, and then the client's
  `SendMessage` returns without an acknowledgement; without such a drop, it never does. The next
  packet published after a drop is never answered; that is the only way to get stuck
  (`MingoDelivery.DroppedExactly`, `ReturnsMatchAcks`, `RefusedProbeReturnsEarly`, `CanAlwaysFinish`).
  Otherwise, with events on and no more probes, every schedule that keeps moving brings the client
  back (`EveryScheduleReturns`).
- `CommitInstruction` asserts only that the instruction is not the next to fetch. The cursor is left
  on a freed node exactly when the instruction had not been fetched yet
  (`SoftsdvReplay.ReplayBuffer.CommitInstruction`, `ReplayCounting.CommitBehindCursor`).
- A rewind from a null cursor reports one killed instruction too few, and with a placeholder at the
  cursor the count of unfetched instructions can be too small: exactly while fewer placeholders have
  since gone in front of it (and instructions behind it been deleted) than entries stood behind it at
  first (`ReplayCounting.CountSince`, `CountExplained`).
- All CPUs share the flag that the simulation has ended. Once one of them has run out of
  instructions, each fetch of another consumes a waiting instruction without delivering it
  (`FeederSpec.FetchDelivers`, `EndSwallows`, `OtherEndLoses`).
- The squash loop of the memory feeder asks an emptied list for its last element exactly when
  something is issued and all of it is younger than the killed instruction; at the end of a trace the
  NOPs in flight are forgotten, which brings that about (`MemFeederSpec.KillSafeExactly`,
  `MemFeederRuns.ForgottenNops`, `ForgottenNopsHappen`).
- A NOP that is committed by name counts as an operation for threads that wait. Without such commits,
  and only then, what counts is operations (`MemFeederRuns.NamedNopEndsWait`, `CountsOperations`).
- A 16-, 32- or 64-bit store that does not start a 16-byte cell goes to the wrong bytes of the global
  image; draining a store also unbinds bytes 8 to 15, because the presence mask is narrowed to eight
  bits (`MemoryValueSpec.LanesRight`, `MemoryValueRuns.DrainingKeepsView`, `DrainingBinds`).
- A comment in `store_locally_visible_now` says older stores are removed; the code keeps them, and
  so does the model.
- A comment on `AddArtificialPlaceHolder` calls the instruction record of a placeholder invalid; the
  code copies that of the real instruction, so a commit also looks at its tag, and so does the model.
- A comment in the translation cache says a changed mapping is replaced; the code keeps the first
  physical page (`TranslationSpec.AddIsMap`).
- An add to the table of virtual addresses can fail below the limit, exactly when the room up to the
  limit is not a whole number of steps; shrinking the pool loses rows exactly when a slot in use is
  cut off (`VaTableSpec.FailsOnlyAtLimit`, `VaTable.ShrinkPool`).

## Model

| member | source | states |
|---|---|---|
| `MingoIpc.ChangeState` | feeders/inst/mingo/mingo_pvt.c:253-306 | a request is refused as illegal exactly when it is neither EMPTY, nor the next state, nor EMPTY to THREAD_DEAD; acknowledging a pseudo packet exposes the real one behind it; packet, flags and response are untouched |
| `MingoIpc.ChangesExactly` | feeders/inst/mingo/mingo_pvt.c:253-306 | the state a granted request leads to, and that an ACK is refused as a dropped packet exactly when the real packet has not been taken |
| `MingoIpc.ReceiveTakesFirst` | feeders/inst/mingo/mingo_pvt.c:352-400 | a receive takes exactly the first packet in flight (CPU request, then priority, then the packet) and leaves the others |
| `MingoIpc.RequestsAreAnswered` | feeders/inst/mingo/mingo_pvt.c:360-386 | a receive with requests pending yields a packet of that thread whose kind is that of the first request and whose number is the one asked for, all else zero; only that request is spent |
| `MingoIpc.IpcRegion.constructor` | feeders/inst/mingo/mingo_pvt.c:96-168 | a new region has no threads, events on and every slot empty |
| `MingoIpc.IpcRegion.NewThread` | feeders/inst/mingo/mingo_pvt.c:470-477 | hands out ids 1, 2, ... until all are used, then -1 |
| `MingoIpc.IpcRegion.SetState` | feeders/inst/mingo/mingo_pvt.c:253-306 | the in-place form changes one slot as `ChangeState` says, or nothing when refused |
| `MingoIpc.IpcRegion.RecvEvent` | feeders/inst/mingo/mingo_pvt.c:352-400 | takes what `Receive` takes, from an EVENT_READY slot only; other slots stay |
| `MingoIpc.IpcRegion.SendEvent` | feeders/inst/mingo/mingo_pvt.c:403-423 | -1 when disabled, -2 and one skip less when skipping, else the packet is published behind the pending requests |
| `MingoIpc.IpcRegion.RecvResponse` | feeders/inst/mingo/mingo_pvt.c:426-442 | a response is there exactly in ASIM_ACK |
| `MingoIpc.IpcRegion.SendResponse` | feeders/inst/mingo/mingo_pvt.c:445-461 | a probe of a pseudo packet is refused; else the response is written, whether or not the state can change |
| `MingoIpc.IpcRegion.SetPriority` | feeders/inst/mingo/mingo_pvt.c:486-501 | notes the last priority asked for, in an EMPTY slot only |
| `MingoIpc.IpcRegion.SetPreferredCpu` | feeders/inst/mingo/mingo_pvt.c:504-519 | notes the last CPU asked for, in an EMPTY slot only |
| `MingoIpc.IpcRegion.EnableEvents` | feeders/inst/mingo/mingo_pvt.c:316-323 | undoes one disable; extra calls change nothing |
| `MingoDelivery.EveryRunKeeps` | feeders/inst/mingo/mingo_client.c:181-311 | in every interleaving of client, Asim and environment: who may be where for each slot state, the balance of ACKs and returns, and asked-for equals delivered plus in flight |
| `MingoDelivery.ExpectedKeepsSends` | feeders/inst/mingo/mingo_pvt.c:352-423 | the reference stream holds the real packets sent, each once, in order |
| `MingoDelivery.ExpectedBlock` | feeders/inst/mingo/mingo_pvt.c:360-386 | between two sends only the last request of each kind survives, and comes once, CPU first, right before the next real packet |
| `MingoDelivery.ExactlyOnce` | feeders/inst/mingo/mingo_feeder.cpp:320-395 | in every run Asim has received a prefix of the reference stream; its real packets are the successful sends in order, at most one behind |
| `MingoDelivery.RequestsArrive` | feeders/inst/mingo/mingo_pvt.c:360-386 | over every run, with each successful send arrive the CPU and then the priority asked for last since the send before, with just these numbers, if any was, and then the packet sent |
| `MingoDelivery.SendsWhatWasAsked` | feeders/inst/mingo/mingo_client.c:263-311 | over every run the packet published for an outermost send is the one the program passed |
| `MingoDelivery.SkipUsesOne` | feeders/inst/mingo/mingo_pvt.c:408-413 | a packet that is skipped uses up one skip and leaves the slot alone |
| `MingoDelivery.NothingOutstandingWhenIdle` | feeders/inst/mingo/mingo_client.c:263-311 | a client back in the program has had every packet delivered |
| `MingoDelivery.ProbeGetsItsAnswer` | feeders/inst/mingo/mingo_feeder.cpp:430-476 | without a dropped result, the event taken while waiting for a probe is that probe's result |
| `MingoDelivery.ProbesReturnWhatWasRead` | feeders/inst/mingo/mingo_feeder.cpp:430-476 | over every run without a dropped result, each probe is read at the address and size asked for, and returns the value read; at most the last is still open |
| `MingoDelivery.DiesAfterThreadEnd` | feeders/inst/mingo/mingo_client.c:535-553 | a client at rest is dead, and its slot marked so, exactly when the last packet the program sent was a thread end; it stays dead |
| `MingoDelivery.OnlyOwnerWrites` | feeders/inst/mingo/mingo_pvt.c:264-303 | in every reachable state a step of the party that does not own the slot leaves all of it alone |
| `MingoDelivery.NoErrors` | feeders/inst/mingo/mingo_pvt.c:264-299 | "Illegal state change" and "Dropped packet" are unreachable, and neither party fails unless a probe result was dropped |
| `MingoDelivery.SecondAckRejected` | feeders/inst/mingo/mingo_feeder.cpp:398-419 | an ACK or probe without an unanswered delivery in hand is always refused |
| `MingoDelivery.DroppedExactly` | feeders/inst/mingo/mingo_client.c:277-295 | a probe result is lost exactly when its nested send meets disabled or skipped events |
| `MingoDelivery.ReturnsMatchAcks` | feeders/inst/mingo/mingo_client.c:230-253 | seen from the program, each send has returned after one ACK of its own if and only if no probe result was dropped |
| `MingoDelivery.NoReturnBeforeAck` | feeders/inst/mingo/mingo_client.c:230-253 | at no point of a run without a dropped result are returns ahead of ACKs taken, or those ahead of ACKs given |
| `MingoDelivery.RefusedProbeReturnsEarly` | feeders/inst/mingo/mingo_client.c:230-253 | a schedule in which a read returns to the program with no ACK at all |
| `MingoDelivery.CanAlwaysFinish` | feeders/inst/mingo/mingo_client.c:181-311 | in every reachable state, some continuation brings the client back to the program if and only if it is not publishing or waiting for a packet after a probe result was dropped |
| `MingoDelivery.AnyStepHelps` | feeders/inst/mingo/mingo_client.c:181-311 | with events on and no probe result dropped, any step of either party other than a new probe changes nothing or brings the client's return nearer |
| `MingoDelivery.EveryScheduleReturns` | feeders/inst/mingo/mingo_feeder.cpp:320-476 | from such a reachable state every schedule without new probes that changes something often enough (a bound read off the state) has had the client back in the program; short of that, a step that changes something is always open |
| `MingoDelivery.StuckForever` | feeders/inst/mingo/mingo_feeder.cpp:458-467 | in that case no schedule whatever lets the client return: Asim, still polling for the result, can only take the packet for an error |
| `MingoDelivery.NextSendIsStuck` | feeders/inst/mingo/mingo_client.c:263-311 | and it is reached: after a read whose probe result was dropped, the next packet sent is never answered |
| `SoftsdvReplay.ReplayBuffer.OnExactlyOneList` | feeders/inst/softsdv/softsdv_replay.cpp:314-347 | every node ever allocated is on exactly one of the active and the free list |
| `SoftsdvReplay.ReplayBuffer.constructor` | feeders/inst/softsdv/softsdv_replay.h:223-229 | a new buffer has no nodes, no records and uid 0, and is sound |
| `SoftsdvReplay.ReplayBuffer.AllocateLiveInstr` | feeders/inst/softsdv/softsdv_replay.cpp:314-334 | takes the first free node, and makes a new one only when there is none |
| `SoftsdvReplay.ReplayBuffer.DeallocateLiveInstr` | feeders/inst/softsdv/softsdv_replay.cpp:336-347 | node and attached record go to the front of their free lists; records stay conserved |
| `SoftsdvReplay.ReplayBuffer.PushRegisterValues` | feeders/inst/softsdv/softsdv_replay.cpp:359-383 | a message is kept at the end of the pending list, in a reused record if there is one; records stay conserved |
| `SoftsdvReplay.ReplayBuffer.PopRegisterValues` | feeders/inst/softsdv/softsdv_replay.cpp:390-397 | takes the oldest pending record, if any |
| `SoftsdvReplay.ReplayBuffer.TakeRegisterValues` | feeders/inst/softsdv/softsdv_replay.cpp:141-147 | the loop drops exactly the older records onto the free list and takes the next |
| `SoftsdvReplay.ReplayBuffer.RegisterValuesFor` | feeders/inst/softsdv/softsdv_replay.cpp:135-153 | the out-of-order check fires exactly when the named record is not the one taken; records stay conserved either way |
| `SoftsdvReplay.ReplayBuffer.AddInstruction` | feeders/inst/softsdv/softsdv_replay.cpp:121-175 | appends one node with the next uid, its named record, and catches a null cursor; list and chain stay sound |
| `SoftsdvReplay.ReplayBuffer.AddArtificialPlaceHolder` | feeders/inst/softsdv/softsdv_replay.cpp:177-217 | inserts a node with a fresh, larger uid in front of a live one; a null cursor moves to it, any other keeps its node |
| `SoftsdvReplay.ReplayBuffer.RetireThrough` | feeders/inst/softsdv/softsdv_replay.cpp:230-267 | the loop retires everything up to the instruction, and counts the implicit commits that are real; the last tag is reported |
| `SoftsdvReplay.ReplayBuffer.CommitInstruction` | feeders/inst/softsdv/softsdv_replay.cpp:220-268 | retires a prefix to the free list; the buffer stays sound if the instruction had been fetched, and else the cursor is left on a freed node |
| `SoftsdvReplay.ReplayBuffer.DeleteInstruction` | feeders/inst/softsdv/softsdv_replay.cpp:271-311 | unlinks one node anywhere, hands its uid to the node in front and moves the cursor off it |
| `SoftsdvReplay.ReplayBuffer.SetImplicitCommit` | feeders/inst/softsdv/softsdv_replay.h:103-107 | marks one live instruction and no other |
| `SoftsdvReplay.ReplayBuffer.GetNextFetchHandle` | feeders/inst/softsdv/softsdv_replay.h:489-500 | gives the node at the cursor and steps on, or null at the end |
| `SoftsdvReplay.ReplayBuffer.GetNextRealFetchHandle` | feeders/inst/softsdv/softsdv_replay.h:503-519 | gives the first real node from the cursor on; when only placeholders are left, nothing moves |
| `SoftsdvReplay.ReplayBuffer.SetNextFetch` | feeders/inst/softsdv/softsdv_replay.h:522-542 | moves the cursor to any live node and reports the difference of uids; null clears it and reports 0 |
| `SoftsdvReplay.ReplayBuffer.NUnfetchedQueuedInstrs` | feeders/inst/softsdv/softsdv_replay.h:545-556 | the count the uid arithmetic gives, whose accuracy `ReplayCounting` settles |
| `ReplaySpec.NextReal` | feeders/inst/softsdv/softsdv_replay.h:508-511 | the first entry from a position on that is not a placeholder; everything skipped is one |
| `ReplaySpec.NewEntries` | feeders/inst/softsdv/softsdv_replay.cpp:121-217 | what arrives is last, newest and blocks commits; a placeholder is as new, stands in front of its instruction, carries its record and blocks none; the cursor stays on its entry |
| `ReplaySpec.DeleteTakesOne` | feeders/inst/softsdv/softsdv_replay.cpp:271-311 | a deletion takes out one entry; the one in front takes over its uid and nothing else of any entry changes |
| `ReplaySpec.LastTagIs` | feeders/inst/softsdv/softsdv_replay.cpp:230-267 | the tag a commit reports is that of the latest retired instruction that has one |
| `RegisterRecords.ReuseRecord` | feeders/inst/softsdv/softsdv_replay.cpp:368-372 | reusing a free record keeps every record in exactly one place |
| `RegisterRecords.JoinRecord` | feeders/inst/softsdv/softsdv_replay.cpp:373-382 | so does a new record |
| `RegisterRecords.TakeRecord` | feeders/inst/softsdv/softsdv_replay.cpp:141-152 | so does taking a record and dropping older ones |
| `RegisterRecords.TakeExactly` | feeders/inst/softsdv/softsdv_replay.cpp:141-152 | the loop takes the first record that is not older than the one named; those in front become free, those behind stay |
| `RegisterRecords.ReleaseRecord` | feeders/inst/softsdv/softsdv_replay.h:458-466 | so does giving a record back when its instruction goes |
| `RegisterOrder.TakeSorted` | feeders/inst/softsdv/softsdv_replay.cpp:141-152 | from a list in uid order the loop takes exactly the named record and leaves exactly the newer ones |
| `RegisterOrder.RunTracked` | feeders/inst/softsdv/softsdv_replay.cpp:135-153 | over every orderly run the pending list is in uid order and still has every record that can be named |
| `RegisterOrder.NeverOutOfOrder` | feeders/inst/softsdv/softsdv_replay.cpp:149-150 | in such a run the check "arrived out of order" never fires, and the record taken is the one that arrived with that uid |
| `ReplayCounting.RunAscends` | feeders/inst/softsdv/softsdv_replay.cpp:288-293 | without placeholders uids strictly increase along the list and the tail has the latest uid, through adds, fetches, rewinds, commits and deletes |
| `ReplayCounting.NeverUndercounts` | feeders/inst/softsdv/softsdv_replay.h:545-556 | without placeholders the reported count is never below the true one, and is zero only when nothing waits |
| `ReplayCounting.ExactCounts` | feeders/inst/softsdv/softsdv_replay.h:522-556 | without deletions either it is exact, and a rewind reports exactly the instructions stepped back, one less from a null cursor |
| `ReplayCounting.SafeAtRealCursor` | feeders/inst/softsdv/softsdv_replay.h:545-556 | with placeholders and no deletions it is safe while a real instruction is at the cursor |
| `ReplayCounting.UndercountsAtPlaceholder` | feeders/inst/softsdv/softsdv_replay.cpp:185-214 | with a placeholder at the cursor it can be too small |
| `ReplayCounting.CountAccounts` | feeders/inst/softsdv/softsdv_replay.h:545-556 | without deletions, the error of the count is exactly the newer uids that do not stand from the cursor on less the older ones that do; so it is short if and only if there are fewer of the former |
| `ReplayCounting.CountSince` | feeders/inst/softsdv/softsdv_replay.cpp:121-311 | whatever the buffer held before: when an entry is at the cursor, kept since it was put in, the count is off by the placeholders put in front of it and instructions deleted behind it since, less the entries it found behind it, which for an instruction from SoftSDV are none; so it is short if and only if there are fewer of the former |
| `ReplayCounting.CountExplained` | feeders/inst/softsdv/softsdv_replay.h:545-556 | in every run without deletions the entry at the cursor was put in by one of the operations, and the count is off by just that |
| `ReplayCounting.CommitBehindCursor` | feeders/inst/softsdv/softsdv_replay.cpp:220-268 | a run of the buffer to an in-order commit of an instruction behind the cursor, the case that leaves the cursor on a freed node |
| `FeederSpec.FetchDelivers` | feeders/inst/softsdv/softsdv_feeder.cpp:567-683 | a fetch delivers the first waiting instruction or consumes nothing; it delivers only at that address, on the good path and with no interrupt request pending; after the end it consumes without delivering |
| `FeederSpec.FetchAnswers` | feeders/inst/softsdv/softsdv_feeder.cpp:567-683 | which of delivery, jump, bad-path NOP and end-of-run NOP a fetch answers, each if and only if, in terms of the address, the next waiting instruction, the path, the pending request and the end; a bad-path NOP puts the CPU on the bad path; when an interrupt is requested |
| `FeederSpec.FetchMarks` | feeders/inst/softsdv/arch_ipf/softsdv_feeder_ipf.cpp:248-342 | which entry a fetch lets commit implicitly, and when; apart from that and the placeholder of a jump on IPF no entry changes |
| `FeederSpec.NothingAfterBadPath` | feeders/inst/softsdv/softsdv_feeder.cpp:632-646 | after a fetch that answers a bad-path NOP no fetch of any address delivers an instruction until a kill of a good-path instruction |
| `FeederSpec.EndSwallows` | feeders/inst/softsdv/softsdv_feeder.cpp:567-577 | once the end is declared, any number of fetches consume that many waiting instructions (or all) and deliver none; nothing else changes |
| `FeederSpec.OtherEndLoses` | feeders/inst/softsdv/softsdv_feeder.cpp:160-176 | two runs that differ only in that another CPU comes to its end: in one the waiting instruction is delivered, in the other it is consumed, neither live nor waiting nor committed |
| `FeederSpec.JumpArrives` | feeders/inst/softsdv/softsdv_feeder.cpp:614-630 | after an injected jump, fetching at its target delivers the instruction it was put back for |
| `FeederSpec.RequestThenArrives` | feeders/inst/softsdv/arch_x86/softsdv_feeder_x86.cpp:295-318 | on x86, after a jump every fetch is a bad-path NOP while the request is pending, and once it is handled a fetch at the target delivers it |
| `FeederSpec.KillRewinds` | feeders/inst/softsdv/softsdv_feeder.cpp:866-886 | a kill loses nothing, rewinds to the killed instruction or to its successor, and leaves the bad path unless the killed one was on it |
| `FeederSpec.KillRequests` | feeders/inst/softsdv/softsdv_feeder.cpp:866-910 | a pending request survives a kill exactly when it is of an older instruction, or of the killed one when that is not fetched again; where the cursor goes; entries stay |
| `FeederSpec.KillTruncates` | feeders/inst/softsdv/softsdv_feeder.cpp:873-884 | what stays in flight is a prefix of what was exactly when no unfetched instruction stands before the place rewound to |
| `FeederSpec.CommitRetires` | feeders/inst/softsdv/softsdv_feeder.cpp:803-807 | a commit of a fetched instruction retires it and everything in front of it, and touches nothing that waits |
| `FeederSpec.RunFaithful` | feeders/inst/softsdv/softsdv_feeder.cpp:538-912 | over every run of arrivals, fetches, kills and commits, arrived equals committed plus live plus waiting, in order |
| `FeederSpec.CommittedIsPrefix` | feeders/inst/softsdv/softsdv_feeder.cpp:697-835 | what has been committed, explicitly or implicitly, is a prefix of what arrived: none lost, none repeated |
| `FeederSpec.BadPathDeliversNothing` | feeders/inst/softsdv/softsdv_feeder.cpp:632-646 | on the bad path nothing real is delivered until a kill of a good-path instruction, whatever else happens |
| `SoftsdvFeeder.CpuState.constructor` | feeders/inst/softsdv/softsdv_feeder.h:75-90 | a CPU starts on the good path with no request and an empty buffer of its own |
| `SoftsdvFeeder.CpuState.ForceThreadExit` | feeders/inst/softsdv/softsdv_feeder.cpp:160-176 | declares the end of the simulation and changes nothing else |
| `SoftsdvFeeder.CpuState.PushSystemEvent` | feeders/inst/softsdv/softsdv_feeder.h:138-147 | only the first of several pending requests is kept |
| `SoftsdvFeeder.CpuState.HandleSystemEvent` | feeders/inst/softsdv/softsdv_feeder.cpp:1436-1456 | takes the pending request of an instruction, and no other |
| `SoftsdvFeeder.CpuState.AsimInstFromSoftsdvInst` | feeders/inst/softsdv/arch_x86/softsdv_feeder_x86.cpp:295-318 | an instruction in front of an interrupt or new sequence may commit implicitly and raises a request (x86); a NOP may commit implicitly (IPF) |
| `SoftsdvFeeder.CpuState.InjectJMP` | feeders/inst/softsdv/arch_ipf/softsdv_feeder_ipf.cpp:318-342 | on IPF a placeholder goes in front of the target; on x86 an interrupt request is raised and the buffer stays |
| `SoftsdvFeeder.CpuState.FetchMacro` | feeders/inst/softsdv/softsdv_feeder.cpp:538-683 | the in-place form does what `FeederSpec.FetchMacro` says, in its branch order; a trace id names the node fetched |
| `SoftsdvFeeder.CpuState.KillEvents` | feeders/inst/softsdv/softsdv_feeder.cpp:888-910 | drops the request of the killed instruction and of younger ones, and no other |
| `SoftsdvFeeder.CpuState.Kill` | feeders/inst/softsdv/softsdv_feeder.cpp:838-912 | the in-place form does what `FeederSpec.Kill` says, for live, artificial and wrong-path instructions |
| `SoftsdvFeeder.CpuState.Commit` | feeders/inst/softsdv/softsdv_feeder.cpp:697-835 | nothing happens on a fault or before the end of a macro; a wrong-path commit is reported; else the buffer commits, with the number and last tag of the instructions retired; one that was not fetched leaves the cursor on a freed node |
| `MemFeederSpec.KillKeepsOrder` | feeders/inst/memfeeder/mem-feeder.cpp:987-1008 | issued then replay stay the same sequence; exactly the operations older than the killed one (and it, unless it is killed too) stay issued |
| `MemFeederSpec.KillSafeExactly` | feeders/inst/memfeeder/mem-feeder.cpp:415-431 | the removal loop stays inside the list exactly when nothing is issued or the oldest issued is not younger |
| `MemFeederSpec.CommitInOrder` | feeders/inst/memfeeder/mem-feeder.cpp:325-351 | a commit is accepted exactly when only NOPs stand in front; those go too; an unknown uid empties a list of NOPs |
| `MemFeederSpec.CommitTakesOldest` | feeders/inst/memfeeder/mem-feeder.cpp:325-351 | what is committed is the oldest memory operation issued, and what is left is the rest of the list |
| `MemFeederSpec.SlotKeeps` | feeders/inst/memfeeder/mem-feeder.cpp:682-833 | a slot gets the held operation, or the next of the trace, or nothing; a held one leaves only when its wait is met |
| `MemFeederSpec.SlotExactly` | feeders/inst/memfeeder/mem-feeder.cpp:682-833 | the line in hand, held back or next in the trace, leaves in a slot if and only if the thread runs and the count waited for has been reached; else it is held and the slot empty; a slot is empty otherwise only after the end or for a stopped thread |
| `MemFeederSpec.BundleExactly` | feeders/inst/memfeeder/mem-feeder.cpp:657-845 | a bundle of a running thread leaves an operation held only for an unmet wait, and a slot empty only for that or the end; the third slot is a NOP |
| `MemFeederSpec.BundleOrder` | feeders/inst/memfeeder/mem-feeder.cpp:657-845 | a bundle takes the next operations of the trace in file order, and holds back at most the last one read |
| `MemFeederSpec.BundleEnds` | feeders/inst/memfeeder/mem-feeder.cpp:757-771 | the end is reported only when the trace is read out and nothing is held; the bundle is then empty, as for a stopped thread |
| `MemFeederSpec.FetchOrder` | feeders/inst/memfeeder/mem-feeder.cpp:463-502 | a fetch keeps everything pending in order and appends what it reads |
| `MemFeederSpec.HandOutOrder` | feeders/inst/memfeeder/mem-feeder.cpp:463-502 | one operation, NOP or not, goes to the issued ones under the uid given, replayed ones first, and no other moves |
| `MemFeederSpec.StopsExactly` | feeders/inst/memfeeder/mem-feeder.cpp:478-492 | a running thread stops exactly when it asks for a bundle with its trace read out and no memory operation issued |
| `MemFeederRuns.StepOk` | feeders/inst/memfeeder/mem-feeder.cpp:923-1008 | every fetch, commit and kill of any thread keeps the invariant of all threads |
| `MemFeederRuns.ProgramOrder` | feeders/inst/memfeeder/mem-feeder.cpp:325-502 | in every reachable state committed, issued, replayed, unread and held operations of a thread are the first of its trace in file order, and issued uids increase |
| `MemFeederRuns.WaitsAreKept` | feeders/inst/memfeeder/mem-feeder.cpp:773-818 | in every reachable state an operation marked to wait for operation n of thread u has left only if u has committed n operations and named NOPs together, and one that is held back is the latest line read |
| `MemFeederRuns.CountsOperations` | feeders/inst/memfeeder/mem-feeder.cpp:335-342 | over every run, the count of a thread that others wait on is the number of operations of its trace committed if and only if no commit of the run names a NOP of that thread |
| `MemFeederRuns.WaitsForOperations` | feeders/inst/memfeeder/mem-feeder.cpp:773-818 | in every run that names no NOP of thread u, an operation marked to wait for operation n of u has left only if u has committed n operations of its trace |
| `MemFeederRuns.MetWaitsEnd` | feeders/inst/memfeeder/mem-feeder.cpp:773-818 | in every reachable state, a thread that makes a bundle hands out the operation it held if and only if the other thread has got as far as it waits for, and holds one afterwards only if its thread has not |
| `MemFeederRuns.EndedIsComplete` | feeders/inst/memfeeder/mem-feeder.cpp:478-492 | a thread that has ended has committed its whole trace |
| `MemFeederRuns.InFlightCanBeKilled` | feeders/inst/memfeeder/mem-feeder.cpp:415-431 | in every reachable state any operation still issued can be killed |
| `MemFeederRuns.NamedNopEndsWait` | feeders/inst/memfeeder/mem-feeder.cpp:335-342 | a run in which the commit of a NOP lets another thread go |
| `MemFeederRuns.ForgottenNops` | feeders/inst/memfeeder/mem-feeder.cpp:481-492 | after the end of the trace a NOP in flight can be killed exactly when a memory operation no younger is still issued |
| `MemFeederRuns.ForgottenNopsHappen` | feeders/inst/memfeeder/mem-feeder.cpp:353-370 | such a state is reachable |
| `MemFeeder.MemThread.MakeBundle` | feeders/inst/memfeeder/mem-feeder.cpp:657-845 | the in-place loop ends (a round fills a slot or starts to wait) and makes the bundle of the specification |
| `MemFeeder.MemThread.FillSlot` | feeders/inst/memfeeder/mem-feeder.cpp:682-833 | one round of the loop fills the slot, or reads a line that waits and leaves the slot to the next round |
| `MemFeeder.MemThread.EmptyIssued` | feeders/inst/memfeeder/mem-feeder.cpp:353-370 | exactly the issued NOPs go, and the answer says whether nothing is left |
| `MemFeeder.MemThread.GetNextInstr` | feeders/inst/memfeeder/mem-feeder.cpp:463-502 | gives a replayed operation first, else the next of the bundle, made anew when used up |
| `MemFeeder.MemThread.Issue` | feeders/inst/memfeeder/mem-feeder.cpp:320-323 | puts an operation behind those issued |
| `MemFeeder.MemThread.CommitSkippingNops` | feeders/inst/memfeeder/mem-feeder.cpp:325-351 | the in-place loop commits as the specification, or fails exactly on an out-of-order commit |
| `MemFeeder.MemThread.CopyToReplayQueue` | feeders/inst/memfeeder/mem-feeder.cpp:415-431 | the in-place loop moves the younger end over, or runs off the list exactly when that is unsafe |
| `MemFeeder.MemThread.KillAndReplayThisInst` | feeders/inst/memfeeder/mem-feeder.cpp:386-413 | moves the operation with this uid, from the end or from inside, and nothing when there is none |
| `MemFeeder.FeederThreadMgmt.constructor` | feeders/inst/memfeeder/mem-feeder.cpp:507-555 | makes one thread for each trace, none sharing storage, each with nothing issued, held or read |
| `MemFeeder.FeederThreadMgmt.GenerateAsimInst` | feeders/inst/memfeeder/mem-feeder.cpp:923-957 | the operation handed out is issued last under the instruction's uid; other threads stay |
| `MemFeeder.FeederThreadMgmt.Commit` | feeders/inst/memfeeder/mem-feeder.cpp:968-975 | commits on one thread as the specification; other threads stay |
| `MemFeeder.FeederThreadMgmt.Kill` | feeders/inst/memfeeder/mem-feeder.cpp:987-1008 | kills on one thread as the specification; other threads stay |
| `TranslationSpec.LookupIsMap` | feeders/inst/softsdv/softsdv_itranslate.cpp:124-149 | whenever free slots are last, a lookup of a nonzero page is a lookup in a recency-ordered map: a hit moves that row to the front, a miss changes nothing |
| `TranslationSpec.FreeSlotAnswers` | feeders/inst/softsdv/softsdv_itranslate.cpp:133-141 | a lookup of page 0 is answered by the first free slot, if any; the table stays in order if and only if there is none or nothing has been added yet |
| `TranslationSpec.AddIsMap` | feeders/inst/softsdv/softsdv_itranslate.cpp:171-222 | whenever free slots are last: true exactly when the page was present, and then the first physical page stays; else the new row is first, and the oldest row is lost exactly when all slots are live; with a uid not below the last, the order of uids stays |
| `TranslationSpec.AddArtificialIsMap` | feeders/inst/softsdv/softsdv_itranslate.cpp:228-240 | the same with the last uid, and only a new row is marked artificial |
| `TranslationSpec.AddPageZero` | feeders/inst/softsdv/softsdv_itranslate.cpp:171-240 | an add of page 0, artificial or not, is answered by a free slot and changes no live row, except that in a full table it takes the place of the oldest |
| `TranslationSpec.SamePageExactly` | feeders/inst/softsdv/softsdv_itranslate.h:75-82 | addresses share a page when they lie in the same 16 KB |
| `TranslationSpec.AddThenLookup` | feeders/inst/softsdv/softsdv_itranslate.cpp:124-222 | after an add every address of that 16 KB is found at its own offset on the physical page added, or on the one there before |
| `TranslationSpec.DropThenLookup` | feeders/inst/softsdv/softsdv_itranslate.cpp:124-259 | a page that has been dropped is not found |
| `TranslationSpec.DropIsMap` | feeders/inst/softsdv/softsdv_itranslate.cpp:243-259 | takes exactly that page's row from the map; page 0 changes no live row |
| `TranslationSpec.SurvivorsAre` | feeders/inst/softsdv/softsdv_itranslate.cpp:267-269 | the rows that survive a context switch are those of pages from 0xe000000000000000 on, with uid 0, or not older than the switch |
| `TranslationSpec.SurvivorsKeepOrder` | feeders/inst/softsdv/softsdv_itranslate.cpp:262-274 | and they keep their relative order |
| `TranslationSpec.DropOldIsMap` | feeders/inst/softsdv/softsdv_itranslate.cpp:262-274 | a context switch leaves in their order exactly the live rows that survive |
| `TranslationSpec.StepKeepsPhysical` | feeders/inst/softsdv/softsdv_itranslate.cpp:198-221 | no step changes the physical page, or the mark, of a page that stays live |
| `TranslationSpec.RunGood` | feeders/inst/softsdv/softsdv_itranslate.cpp:52-274 | over every run from the empty table, with nondecreasing uids and nonzero pages looked up and added: one row a page, uids nonincreasing from head to tail, free slots a suffix |
| `ITranslate.Covers` | feeders/inst/softsdv/softsdv_itranslate.h:84-108 | the list visits every slot of the table |
| `ITranslate.TranslationTable.constructor` | feeders/inst/softsdv/softsdv_itranslate.cpp:35-50 | the initial links are one list of all free slots |
| `ITranslate.TranslationTable.MoveEntryToHead` | feeders/inst/softsdv/softsdv_itranslate.cpp:52-87 | relinking by indices keeps one doubly linked list of all slots and moves the row to the front |
| `ITranslate.TranslationTable.DeleteEntry` | feeders/inst/softsdv/softsdv_itranslate.cpp:90-121 | relinking keeps the list and puts the emptied slot last |
| `ITranslate.TranslationTable.Lookup` | feeders/inst/softsdv/softsdv_itranslate.cpp:124-149 | the walk refines the map lookup; the steps are one more than the recency position, 0 for a miss |
| `ITranslate.TranslationTable.IsEntryArtificial` | feeders/inst/softsdv/softsdv_itranslate.cpp:151-168 | true exactly when the first row of that page is marked |
| `ITranslate.TranslationTable.AddEntry` | feeders/inst/softsdv/softsdv_itranslate.cpp:171-222 | in-place lookup, eviction of the tail and rewriting refine the map's add |
| `ITranslate.TranslationTable.AddArtificialEntry` | feeders/inst/softsdv/softsdv_itranslate.cpp:228-240 | refines the map's artificial add |
| `ITranslate.TranslationTable.DropTranslation` | feeders/inst/softsdv/softsdv_itranslate.cpp:243-259 | refines the map's drop |
| `ITranslate.TranslationTable.DropOldUserSpaceTranslations` | feeders/inst/softsdv/softsdv_itranslate.cpp:262-274 | a loop over the array, deleting as it goes, leaves the survivors in list order |
| `MemoryValueSpec.GreatestStampWins` | feeders/memory-values/memory-values.cpp:257-281 | walking all stores, in any list order, leaves each byte from the covering store with the greatest stamp |
| `MemoryValueSpec.ReadIsNewest` | feeders/memory-values/memory-values.cpp:232-294 | each requested byte of a load is that of the newest covering local store, else the global one; BOUND exactly when every one has a local store or a bit in the narrowed mask |
| `MemoryValueSpec.ThroughIsView` | feeders/memory-values/memory-values.cpp:254-281 | with the list newest first the loops amount to taking the first covering store |
| `MemoryValueSpec.LanesRight` | feeders/memory-values/memory-values.h:351-390 | a global store writes exactly the bytes it covers if and only if it has 8 or 128 bits or starts a 16-byte cell |
| `MemoryValueRuns.LaneIsGroup` | feeders/memory-values/memory-values.h:351-390 | the bytes a global store writes are one group of its own size, numbered by its low address bits |
| `MemoryValueRuns.SameCellExactly` | feeders/memory-values/memory-values.cpp:90-93 | two addresses have one cell exactly when, cut to 32 bits, they lie in the same 16 bytes |
| `MemoryValueRuns.CoversExactly` | feeders/memory-values/memory-values.cpp:264-278 | the bytes a local store covers are those of its own addresses, going round in its 16 bytes |
| `MemoryValueRuns.RequestedExactly` | feeders/memory-values/memory-values.cpp:198-214 | the bytes a load asks for are those of its own addresses |
| `MemoryValueRuns.OtherAddressesAlone` | feeders/memory-values/memory-values.cpp:232-381 | a store made local, killed or made global changes no load of any CPU outside its 16 bytes |
| `MemoryValueRuns.RunLeavesOthers` | feeders/memory-values/memory-values.cpp:232-381 | so over any run a load is as before, unbound in an empty memory, unless a step was on its 16 bytes |
| `MemoryValueRuns.OwnStoreIsSeen` | feeders/memory-values/memory-values.cpp:232-328 | in its 16 bytes a store made local is what loads of its CPU get, byte by byte; uncovered bytes and other CPUs get what they got |
| `MemoryValueRuns.GlobalStoreIsSeen` | feeders/memory-values/memory-values.cpp:349-381 | a store made global gives CPUs without local stores there the bytes of its group, and the others as before; exactly these become present |
| `MemoryValueRuns.KillingErases` | feeders/memory-values/memory-values.cpp:296-347 | a store made local and killed later leaves every later load as in the run where it never happened |
| `MemoryValueRuns.SameReads` | feeders/memory-values/memory-values.cpp:232-294 | memories with the same stores and images, whatever their stamps, answer every load alike |
| `MemoryValueRuns.DrainingKeepsView` | feeders/memory-values/memory-values.cpp:349-381 | making the oldest store of a CPU global keeps every byte that any load of that CPU asks for, in every memory, if and only if the store's lanes are the bytes it covers |
| `MemoryValueRuns.DrainingBinds` | feeders/memory-values/memory-values.cpp:140-154 | which bytes are bound before and after draining: only the lower eight can be bound by the image |
| `MemoryValueRuns.WrongLaneShows` | feeders/memory-values/memory-values.h:363-379 | for every other address and size there is a memory in which draining changes what a load of that CPU returns |
| `MemoryValues.Tracker.constructor` | feeders/memory-values/memory-values.cpp:198-214 | requested bytes have stamp 0, the others the greatest, and `rqd` counts the zeros |
| `MemoryValues.Tracker.Done` | feeders/memory-values/memory-values.cpp:136-139 | the counter says whether every requested byte is stamped |
| `MemoryValues.Tracker.ShouldStampIdx` | feeders/memory-values/memory-values.cpp:174-189 | the bounds checks, one too wide, come to comparing stamps |
| `MemoryValues.Tracker.StampIdx` | feeders/memory-values/memory-values.cpp:156-167 | stamps one byte and keeps the counter right; its assertions hold |
| `MemoryValues.Tracker.GlobalBasis` | feeders/memory-values/memory-values.cpp:140-154 | stamps with 1 exactly the requested bytes below 8 that have a global value |
| `MemoryValues.ApplyStore` | feeders/memory-values/memory-values.cpp:260-280 | the inner loop takes over exactly the bytes for which this store is newer |
| `MemoryValues.ApplyStores` | feeders/memory-values/memory-values.cpp:257-281 | the outer loop leaves each byte as going through all stores leaves it |
| `MemoryValues.MemCell.SetGlobalValue` | feeders/memory-values/memory-values.h:351-390 | writes value and presence of exactly the lane; not ok for other sizes |
| `MemoryValues.MemCell.BindLoad` | feeders/memory-values/memory-values.cpp:246-288 | the nested loops compute the load of the specification |
| `MemoryValues.MemoryValueModel.constructor` | feeders/memory-values/memory-values.cpp:109-112 | no cells at first, and stamps start at 2 |
| `MemoryValues.MemoryValueModel.ReadValueNow` | feeders/memory-values/memory-values.cpp:232-294 | value and state as specified when the cell exists, else unbound with the value untouched; not ok when the state stays |
| `MemoryValues.MemoryValueModel.StoreLocallyVisibleNow` | feeders/memory-values/memory-values.cpp:296-328 | a store that is in no list, perhaps withdrawn before, becomes the newest of its CPU, in a cell made when missing |
| `MemoryValues.MemoryValueModel.Killed` | feeders/memory-values/memory-values.cpp:330-347 | the store leaves its CPU's list, so that it may be made visible again, and nothing else changes |
| `MemoryValues.MemoryValueModel.StoreGloballyVisibleNow` | feeders/memory-values/memory-values.cpp:349-381 | the store leaves its list and goes to the image |
| `VaTableSpec.AddFailsExactly` | feeders/inst/mingo/deptable.cpp:170-183 | an add fails exactly when the pool is full and growing is impossible (resize 0 or beyond the limit); wrap-around of the sum makes no difference |
| `VaTableSpec.AddExactly` | feeders/inst/mingo/deptable.cpp:162-231 | a successful add puts the record behind those of its row and changes no other row; a full pool grows by exactly one step |
| `VaTableSpec.RemoveExactly` | feeders/inst/mingo/deptable.cpp:233-404 | when the two removals fail, which record each takes, and that nothing else changes |
| `VaTableSpec.RemoveUndoesAdd` | feeders/inst/mingo/deptable.cpp:162-404 | removing by address undoes an add to a row that had no record with that address |
| `VaTableSpec.FailsOnlyAtLimit` | feeders/inst/mingo/deptable.cpp:170-183 | for every table that can grow by steps, adds fail only at the limit, in every run, if and only if the pool starts within the limit and the room up to it is a whole number of steps |
| `VaTableSpec.FailsBelowLimit` | feeders/inst/mingo/deptable.cpp:92-96 | otherwise filling one row is a run to an add that fails below the limit, or above it when the pool was larger than the limit from the start |
| `VaTable.AddToRow` | feeders/inst/mingo/deptable.cpp:199-229 | filling a free slot keeps all rows disjoint and linked, and changes only its row's sequence |
| `VaTable.RemoveFromRow` | feeders/inst/mingo/deptable.cpp:375-401 | emptying a slot keeps all rows disjoint and linked, and changes only its row's sequence |
| `VaTable.FullMeansAll` | feeders/inst/mingo/deptable.cpp:147-160 | as many valid slots as slots means every slot is valid |
| `VaTable.ShrinkPool` | feeders/inst/mingo/deptable.cpp:113-137 | cutting the pool keeps the rows if and only if no slot in use is cut off |
| `VaTable.VirtualAddressTable.constructor` | feeders/inst/mingo/deptable.cpp:41-75 | every row is empty and every slot free |
| `VaTable.VirtualAddressTable.FindFreeElement` | feeders/inst/mingo/deptable.cpp:146-160 | the cyclic search succeeds exactly when a free slot exists, and finds the first one going round |
| `VaTable.VirtualAddressTable.Resize` | feeders/inst/mingo/deptable.cpp:77-143 | accepted exactly between the size in use and the limit; growth keeps every row, a cut exactly when no slot in use and no search start lies behind it |
| `VaTable.VirtualAddressTable.AddVa` | feeders/inst/mingo/deptable.cpp:162-231 | the record goes to the end of its row and to no other, growing the pool when full; fails exactly as specified |
| `VaTable.VirtualAddressTable.RemoveDepHead` | feeders/inst/mingo/deptable.cpp:233-281 | removes the head if it has the address, else nothing |
| `VaTable.VirtualAddressTable.RemoveDepMid` | feeders/inst/mingo/deptable.cpp:341-404 | removes the first record with the address, else nothing |
| `VaTable.VirtualAddressTable.FindDep` | feeders/inst/mingo/deptable.cpp:425-442 | the first record of the row with the address |
| `VaTable.VirtualAddressTable.FindDepVa` | feeders/inst/mingo/deptable.cpp:406-422 | the address when the row has it, else all ones, which for that one address says nothing |
| `TwoPageAccess.SplitsInTwo` | feeders/inst/softsdv/softsdv_data.h:240-289 | repeating the translation ends within two calls; the pieces partition the request and each lies on one physical page |
| `TwoPageAccess.StartsOnItsPage` | feeders/inst/softsdv/softsdv_data.h:240-289 | a range starts on the physical page of its virtual page, first or second of the reference, at the same offset, and what is left over is what stands on the second |
| `TwoPageAccess.EachByteOnItsPage` | feeders/inst/softsdv/softsdv_data.h:240-299 | every byte of the reference has the address of its own page at its own offset |
| `TwoPageAccess.FoundTranslatesBack` | feeders/inst/softsdv/softsdv_data.h:206-237 | a virtual range found for a physical address lies in the reference and translates to that address |
| `TwoPageAccess.RoundTrips` | feeders/inst/softsdv/softsdv_data.h:206-237 | every byte's physical address leads back to it if and only if only one page is touched or the two pages differ |
| `TwoPageAccess.ByteRoundTrips` | feeders/inst/softsdv/softsdv_data.h:206-299 | in that case it does so for each byte |
| `TwoPageAccess.MemAccess.SetPA` | feeders/inst/softsdv/softsdv_data.h:181-192 | keeps the page number only, and counts pages up to the index; page 1 set alone counts page 0 as well, whatever it holds |
| `TwoPageAccess.MemAccess.SetSize` | feeders/inst/softsdv/softsdv_data.h:302-307 | accepts exactly sizes below a page |
| `TwoPageAccess.MemAccess.Virtual` | feeders/inst/softsdv/softsdv_data.h:206-237 | the loop over the pages gives the range of the specification |
| `TwoPageAccess.MemAccess.Physical` | feeders/inst/softsdv/softsdv_data.h:240-289 | address and rest as specified; the assertion fails exactly for a range outside the reference |
| `DrivenRuns.DriveTable` | feeders/inst/mingo/deptable.cpp:162-404 | the table object, taken through any sequence of adds and removals, fails exactly when the run of the specification does, and else ends where it ends |
| `DrivenRuns.DriveCache` | feeders/inst/softsdv/softsdv_itranslate.cpp:124-274 | the translation cache, taken through any allowed run, ends where the run of the specification ends |
| `DrivenRuns.DriveThreads` | feeders/inst/memfeeder/mem-feeder.cpp:923-1008 | threads made from any traces and taken through any run end as the run of the specification says, so what `MemFeederRuns` proves holds of the objects |
| `DrivenRuns.DriveCpu` | feeders/inst/softsdv/softsdv_feeder.cpp:538-912 | a CPU with its linked buffer, taken through any run of arrivals, fetches, kills, commits and ends elsewhere, ends where the run of the specification ends, unless register values were missing |
| `DrivenRuns.DriveMemory` | feeders/memory-values/memory-values.cpp:296-381 | the memory model, taken through any run of stores made local, killed and made global, ends where the run of the specification ends |

## Left out

- MingoIpc.IpcRegion.SetPriority: priorities and all other numbers are unbounded; 64-bit wrap-around of uids, stamps and addresses is not modelled anywhere except where a row says so.
- MingoDelivery.EveryRunKeeps: memory barriers count as sequential consistency, and time-outs, aborts and a missing connection are left out.
- MingoDelivery.ExactlyOnce: the model is one slot; threads do not share slots, and the control record changes arbitrarily under it.
- SoftsdvReplay.ReplayBuffer.AddInstruction: register records are values that carry a storage number, so two names for one record are not captured.
- SoftsdvReplay.ReplayBuffer.CommitInstruction: requires an instruction whose commit is in order and that is not at the cursor, which the code asserts.
- SoftsdvReplay.ReplayBuffer.DeleteInstruction: moves the cursor before unlinking where the code does so after; the effect is the same.
- SoftsdvFeeder.CpuState.FetchMacro: incoming instructions are a step of their own, the decoded kind of an instruction is a parameter, and each CPU has its own copy of the flag that the simulation is complete, which another CPU's end sets through `ForceThreadExit`.
- MemFeeder.MemThread.MakeBundle: the trace is a sequence of lines; its text, bundle bits and register numbers are left out.
- SoftsdvFeeder.CpuState.Commit: statistics, timer interrupts and the effects on process names and on the translation cache are left out.
- TranslationSpec.LookupIsMap: excludes page 0, which free slots answer for; `FreeSlotAnswers` is about that page.
- TranslationSpec.AddIsMap: excludes page 0; `AddPageZero` is about that page.
- TranslationSpec.AddArtificialIsMap: excludes page 0 likewise.
- TranslationSpec.RunGood: leaves out lookups and adds of page 0, after which a free slot may stand in front of live rows.
- MemoryValues.Tracker.constructor: requires a load within its 16-byte cell; one that runs over the end asks for stamps that do not exist.
- MemoryValues.MemCell.BindLoad: requires a load within its cell likewise.
- MemoryValues.MemoryValueModel.ReadValueNow: requires an operation that is in no list and a load within its cell; reference counts and deletion are left out, and the number of CPUs is not bounded.
- MemoryValues.MemoryValueModel.StoreLocallyVisibleNow: requires a store that is in no list, which the source would push a second time.
- VaTable.VirtualAddressTable.Resize: the per-thread counters of a record, which growing does not copy, are left out.
- Merging of REP instructions and memory regions in the SoftSDV feeder; the deletion it uses is modelled.
- Counters of executed instructions in the Mingo client, which only fill a field of the packets.
- Starting processes, mapping shared memory, signals, sleeping, tracing, statistics and warm-up.
- Hardware and software contexts, and the gambit, synthetic, mingoint and null feeders.
- Acknowledgements by the software context, which depend on a scheduler that is not part of this model.
