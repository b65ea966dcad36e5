# MikuOS: models and proofs

MikuOS is a kernel written from scratch in Rust. This project models its
memory manager, scheduler, TCP stack, TLS arithmetic and ciphers, program
loader and on-disk and on-wire formats in Dafny, and proves what they are for:
statements about every input, every reachable state or every run.

`dafny verify dfyconfig.toml` checks everything.

## How the models are built

Code that updates things in place is modelled in place: classes with the
source's fields, arrays, linked nodes and loops. Each such method is proved
against a function or relation on values, and the theorems about whole runs
are proved about those. Addresses, sequence numbers, counters and limbs have
the source's widths wherever wrapping matters. Disks, frames, packets and
clocks are maps, sequences, sets and parameters. `Common` holds the types and
small functions they share.

| component | files | main results |
|---|---|---|
| TCP | `SeqArith`, `TcpSocket`, `TcpSystem`, `TcpPartial`, `TcpLimits`, `TcpResend`, `TcpHealing`, `TcpConduct` | Two endpoints over a network that loses, duplicates and reorders: accepted bytes are always a prefix of the stream, `send` answers true only when the peer has every byte, a segment accepted in part is the last one accepted, and it is known exactly when a retransmission heals a loss. |
| Copy-on-write memory | `CowModel`, `CowWalk`, `CowVmm` | Every history of mappings, forks, writes and exits reads as if fork copied every page and entry; counts equal mappers; a failed fork undoes itself. |
| Scheduler | `SchedModel`, `SchedFair`, `SchedLife`, `RunQueue`, `Scheduler` | The linked run queue is exact in every run; runtimes stay within one slice, service within two, nobody starves; one task runs, sleepers wake in time, the dead stay dead. |
| Big numbers and P-256 | `Limbs`, `ModArith`, `Bignum`, `P256Field`, `P256Ladder` | Modular multiplication and powers are exact; the signed fold gives the canonical residue of every 512-bit input. |
| ELF loader | `ElfLoader`, `ExecStack` | The exact condition under which a file loads; the mapped image is byte for byte the program's exactly when no other page gets in its way; the initial stack parses back, key by key. |
| Mappings and frames | `VmaMap`, `Pmm` | Over every history areas agree with a plain address map and live frames are disjoint; word-parallel scans are first fit. |
| Swap | `SwapMap`, `SwapSlots` | The clock's victim is exact and reported with its owner over every history; over every run a page swapped out comes back. |
| Ciphers | `AesSbox`, `Aes`, `AesStandard`, `AesBlock`, `AesModes`, `Gcm`, `RecordStandard` | Decryption undoes encryption, a GCM record opens to p exactly when it is the seal of p, and cipher, chaining and records are those of FIPS 197, SP 800-38A and SP 800-38D. |
| Partition table | `Bytes`, `Crc32`, `Gpt`, `GptStandard` | Every disk reached by init, add and delete reads back its table, also one made elsewhere; partitions stay disjoint; either copy stands alone. |
| HTTP/2 | `Hpack`, `HpackCode`, `Http2`, `Http2Exchange` | Header blocks and frames round-trip; it is known exactly when a response depends on how its bytes were cut, and which responses come through; windows are refilled exactly. |
| Calendar | `Calendar` | The closed form is exact for every day, and it is known exactly when the subtraction loops agree with it. |

## Where the code does less than it seems to promise

Each of these comes with a statement of when the code is right, in most cases
an if-and-only-if, and where that is not enough with a failing case.

- TCP: a segment that ends more than 2^31 past the last acknowledgement counts
  as acknowledged, and interrupted calls can bring a run there. Safety of what
  is accepted needs no such bound; what `send` answers does, and without
  interruptions the bound always holds.
- TCP: a segment accepted in part is never completed, because the sender never
  cuts its stream a second time.
- TCP: a FIN on a segment whose data is accepted is not taken; it must come again on
  a segment of its own.
- Fork turns read-only pages into copy-on-write pages, which a write then makes
  writable. Permissions survive exactly if every page was writable.
- The reference counter has 16 bits: sharing a page is counted exactly if its
  counter has room.
- A starting spread of one slice is kept exactly if the running task has
  headroom; a start without it may spread to two slices and no further.
- Waiting keeps the sleeper counter, the queue and idle right exactly if the task
  that waits is neither idle nor queued, nor a sleeper that blocks.
- One correction makes field addition and subtraction right exactly if the sum
  is below 2^256 + p and the difference at least -p.
- The loader's tables ignore address bits from 48 up, and it lays segments over
  pages that were mapped before. An image is right exactly if addresses the
  tables confuse ask for the same bytes and old pages are zero where no file
  byte goes.
- Strings on the initial stack end at their first zero byte.
- An empty argument list pushes the program name twice and budgets it once.
- A search for several frames finds nothing exactly if every free run crosses
  its hint.
- Adding memory twice, freeing memory that was never added, or tracking a frame
  under a table root of zero, miscounts.
- `swapon` believes the header: slots stay inside their partition exactly if the
  last one neither wraps nor ends past it, which a header from `mkswap` ensures
  but for the wrap.
- `bn_powmod_u32` answers 1 for modulus 1 and exponent 0.
- A disk of 33 or 34 sectors does not read back; 35 and more do.
- Frames behind the end of a stream count only if they come in the same chunk;
  what is returned does not depend on the cut exactly if they cannot be noticed.
- A header block is read right exactly if every number in it and the end of every
  string is below 2^64. A length below that whose string would end past it makes
  the code panic.
- Trailers replace the status of a response, which is then returned as zero unless
  they hold one.
- A partition table made elsewhere whose last entry in use ends at sector
  2^64 - 1 makes the next partition start at sector 0.
- The length that CBC answers is right exactly for multiples of 16.
- The year of `civil_from_unix` has 16 bits and the day count of the loops 32;
  the two calendars agree exactly up to the end of the year 65535.

## Model

| member | source | states |
|---|---|---|
| SeqArith.WrappingGeExact | kernel/net/tcp.rs:38-40 | the wrapping comparison orders two stream positions as the unbounded ones are ordered whenever they are less than 2^31 apart |
| SeqArith.WrappingGeWrong | kernel/net/tcp.rs:38-40 | from 2^31 to 2^32 apart it always answers the opposite |
| TcpModel.SrttBetween | kernel/net/tcp.rs:282-301 | one round-trip sample moves the smoothed time towards the sample and never past it |
| TcpModel.SrttTracksSamples | kernel/net/tcp.rs:282-301 | after any sequence of samples the smoothed time lies between the least and the greatest and the timeout stays within its clamps |
| TcpModel.TcpSocket.constructor | kernel/net/tcp.rs:256-278 | a new socket is closed, empty and at its initial number |
| TcpModel.TcpSocket.SendPlain | kernel/net/tcp.rs:339-341 | exactly one empty ACK goes out and the socket does not change |
| TcpModel.TcpSocket.StoreData | kernel/net/tcp.rs:419-427 | the part that fits is appended to the receive buffer and the ACK number advances by that much modulo 2^32 |
| TcpModel.TcpSocket.DispatchFlowing | kernel/net/tcp.rs:411-453 | the in-place handling of ACK, data and FIN is the step function the system theorems reason about |
| TcpModel.TcpSocket.DispatchSegment | kernel/net/tcp.rs:383-466 | every state: the new socket and the segments sent are the step function of the old socket and the segment |
| TcpModel.TcpSocket.RecvOne | kernel/net/tcp.rs:359-381 | draining the queue is one delivery step per segment, in order; true exactly if there was one |
| TcpModel.TcpSocket.FillWindow | kernel/net/tcp.rs:543-564 | the fill loop is a run of transmit steps and stops only when no further one is allowed |
| TcpModel.TcpSocket.ReleaseAcked | kernel/net/tcp.rs:572-596 | the release loop is a run of release steps and stops only at a front that is not acknowledged |
| TcpModel.TcpSocket.Retransmissions | kernel/net/tcp.rs:598-631 | fast retransmit and timeout are the retransmission steps, of which `TcpResend.ResendsOldest` says what they send; the call gives up only through its closing step |
| TcpModel.TcpSocket.Pass | kernel/net/tcp.rs:570-631 | one turn of the loop is a run of the step model |
| TcpModel.TcpSocket.Send | kernel/net/tcp.rs:526-635 | a call takes exactly the steps its script of interrupts, queues and clock readings calls for, and answers true if and only if the last of them is the finishing one |
| TcpModel.ScriptShape | kernel/net/tcp.rs:526-635 | those steps deliver the queues in order, use up the whole script unless the call ends, and end it only by the interrupt, closing, finishing or give-up of the observation reached |
| TcpSystem.ReceiveKeeps | kernel/net/tcp.rs:383-466 | delivering any segment the peer ever sent keeps the invariant of both sides |
| TcpSystem.ReleaseExact | kernel/net/tcp.rs:572-590 | a segment counted as acknowledged has been accepted by the peer if and only if it ends at most 2^31 past the last acknowledgement |
| TcpSystem.ActKeeps | kernel/net/tcp.rs:526-635 | every local step of a send call keeps the invariant |
| TcpSystem.SysStepKeeps | kernel/net/tcp.rs:383-635 | every step of either side, the network losing, duplicating and reordering, keeps the system invariant |
| TcpSystem.RunInv | kernel/net/tcp.rs:383-635 | the invariant holds in every state of every run |
| TcpSystem.AcceptedIsPrefix | kernel/net/tcp.rs:383-466 | in every state of every run, with any number of sends interrupted and any number of 32-bit wraps, the bytes accepted by each side are a prefix of the bytes the other sent, as long as no delivered segment is 2^32 numbers away from the receiver |
| TcpSystem.TrueMeansAccepted | kernel/net/tcp.rs:526-635 | when `send` answers true the peer has accepted every byte of that call, in place, in every run that releases no segment more than 2^31 past the last acknowledgement |
| TcpSystem.RoomyRunIsRun | kernel/net/tcp.rs:526-635 | which no run does whose calls start with at most 2^31 less a window unacknowledged |
| TcpSystem.CalmRunIsRun | kernel/net/tcp.rs:383-635 | when no call is interrupted, all that is needed of the network is that no data is 2^32 and no acknowledgement more than 2^31 numbers stale; at most one window is ever unacknowledged |
| TcpLimits.StaleSegmentAccepted | kernel/net/tcp.rs:419-427 | a segment exactly one number space old is taken for the next one, so the bound of 2^32 is exact |
| TcpLimits.StaleBreaksPrefix | kernel/net/tcp.rs:419-427 | a run after which the first segment, 2^32 bytes old, would be accepted again and what is accepted is no prefix any more |
| TcpLimits.FrontAckedIff | kernel/net/tcp.rs:572-590 | whether the front segment counts as acknowledged is right if and only if it ends at most 2^31 past the last acknowledgement |
| TcpLimits.InterruptedSendsBreakSend | kernel/net/tcp.rs:526-635 | a run of interrupted calls, from the handshake on, after which `send` answers true although the peer has accepted nothing |
| TcpPartial.RunCuts | kernel/net/tcp.rs:526-635 | over a whole run the sender cuts each stretch of its stream in one way only |
| TcpPartial.PartIsTheEnd | kernel/net/tcp.rs:419-427 | once a segment has been accepted in part, nothing is accepted after it, in every run |
| TcpPartial.PartNeverReportsTrue | kernel/net/tcp.rs:526-635 | from then on no call with data answers true, neither the one that sent the segment nor a later one |
| TcpLimits.PartIsReached | kernel/net/tcp.rs:419-427 | a run that accepts a segment in part: 23 full segments and 568 bytes of the next fill the buffer |
| TcpResend.ResendsOldest | kernel/net/tcp.rs:598-631 | in every state of every run a timeout that does not give up, and a fast retransmit, put exactly one segment on the wire: the bytes of the stream at the oldest segment in flight under their own number; giving up sends nothing and closes |
| TcpResend.Answers | kernel/net/tcp.rs:411-453 | an endpoint that still takes data answers any data, in order or not, with one acknowledgement of where it then stands |
| TcpResend.RoundTripHealsIff | kernel/net/tcp.rs:411-631 | after a retransmission, one round trip without loss gets the oldest segment acknowledged if and only if the peer had it already, or was waiting for just it and has room for all of it |
| TcpHealing.ScriptTakes | kernel/net/tcp.rs:526-635 | the steps `send` takes when the first 250 ticks bring only a byte from the peer and then its acknowledgement arrives |
| TcpHealing.LostThenHealed | kernel/net/tcp.rs:526-635 | a run in which the first copy of a segment is lost, the timer sends it again, the second copy is accepted, and the call, taking just those steps, answers true |
| TcpConduct.FillsNext | kernel/net/tcp.rs:543-564 | in every state of every run the next segment carries the next bytes of the call behind everything sent, no longer than the peer takes; at most eight are in flight, and unless it is the only one the peer's window has room for it on top of everything unacknowledged |
| TcpConduct.ClosesWithFin | kernel/net/tcp.rs:672-687 | in every run closing puts exactly one FIN on the wire, right behind the last byte |
| TcpConduct.FinEnds | kernel/net/tcp.rs:435-452 | a peer that has everything takes it for the end of the stream and acknowledges it |
| TcpConduct.StateDiagram | kernel/net/tcp.rs:366-466 | the state, the end of the peer's stream, the window and the segment size after any segment in any state; a FIN on a segment whose data is taken is not |
| TcpConduct.SamplesOnce | kernel/net/tcp.rs:572-589 | over any steps of a call a released segment gives a round-trip sample, the time since it was sent, if and only if its bytes went out just once |
| TcpConduct.TimerIff | kernel/net/tcp.rs:610-613 | the timer runs out exactly when the timeout has passed since the oldest segment was last sent |
| TcpConduct.GivesUpAtSixth | kernel/net/tcp.rs:610-631 | over any steps of a call a timeout sends again and doubles the timeout up to its limit, until it is the sixth in a row without progress, which closes the socket |
| TcpConduct.ThirdDuplicate | kernel/net/tcp.rs:590-608 | three answers that acknowledge nothing new, and no fewer, have the oldest segment sent again at once |
| CowModel.RefIncExact | kernel/mm/pmm.rs:481-486 | counting a new mapper is exact if and only if the 16-bit counter is not at its maximum |
| CowModel.ShareKeeps | kernel/mm/vmm.rs:359-383 | sharing one page with the child keeps every count equal to the number of entries mapping the frame |
| CowModel.ShareCountedIff | kernel/mm/vmm.rs:359-383 | sharing a page keeps the counts exact if and only if the 16-bit counter of its frame has room |
| CowModel.FewSpacesLeaveRoom | kernel/mm/vmm.rs:359-383 | with fewer than 65535 spaces it always has |
| CowModel.MapKeeps | kernel/mm/vmm.rs:130-145 | mapping a free frame keeps the invariant |
| CowModel.DropKeeps | kernel/mm/vmm.rs:80-128 | taking one entry away keeps the invariant: a frame is freed exactly with its last entry |
| CowModel.BreakSharedKeeps | kernel/mm/vmm.rs:463-486 | copying a shared page to a free frame keeps the invariant |
| CowModel.BreakLastKeeps | kernel/mm/vmm.rs:487-494 | taking over a page nobody else maps keeps the invariant |
| CowModel.BreakSharedReads | kernel/mm/vmm.rs:463-486 | the copy changes what no address of any space reads |
| CowModel.BreakLastReads | kernel/mm/vmm.rs:487-494 | nor does taking the last frame over |
| CowModel.StoreReads | kernel/mm/vmm.rs:447-497 | a store through a writable entry is seen at that page of that space and nowhere else |
| CowModel.WritableAlone | kernel/mm/vmm.rs:447-497 | a writable entry is the only one mapping its frame |
| CowWalk.Walk | kernel/mm/vmm.rs:80-128 | the nested table loops meet every table and every page exactly once, tables before what lies below them |
| CowWalk.ParentFirst | kernel/mm/vmm.rs:311-386 | when the walk reaches an item its table has already been made |
| CowVmm.Canonical | kernel/mm/vmm.rs:80-128 | counts and free frames are functions of who maps what: two states with the same mappings have the same counts |
| CowVmm.FreedExactly | kernel/mm/vmm.rs:80-128 | after an exit a frame of the space is free if and only if no entry anywhere still maps it |
| CowVmm.PagesArePrivate | kernel/mm/vmm.rs:274-497 | over any history a page keeps its contents until its own space writes, remaps or ends, whatever relatives do |
| CowVmm.BitsStay | kernel/mm/vmm.rs:359-491 | over any history the bits an entry carries, user access and no-execute among them, last as long as the entry |
| CowVmm.ForkPermissions | kernel/mm/vmm.rs:359-383 | after a fork write permission is what an eager copy would have if and only if every page of the parent was writable |
| CowVmm.ReadOnlyPageTurnsWritable | kernel/mm/vmm.rs:359-383 | a page mapped read-only, refused before a fork, can be written after it |
| CowVmm.Vmm.NewTable | kernel/mm/vmm.rs:316-357 | a table frame is taken from the free ones, or nothing changes and none is left |
| CowVmm.Vmm.NewSpace | kernel/mm/vmm.rs:49-62 | a new space is empty and owns one frame |
| CowVmm.Vmm.Unmap | kernel/mm/vmm.rs:99-116 | one entry goes, its count with it, and its frame when that was the last |
| CowVmm.Vmm.Exit | kernel/mm/vmm.rs:80-128 | only this space goes; each of its frames is free exactly when no other space maps it |
| CowVmm.Vmm.CloneItem | kernel/mm/vmm.rs:311-386 | one step of the clone: the child follows the parent on everything done so far |
| CowVmm.Vmm.CloneAll | kernel/mm/vmm.rs:295-390 | the clone completes, or fails only when frames were too few for its tables |
| CowVmm.Vmm.Fork | kernel/mm/vmm.rs:274-293 | both spaces read what an eager copy gives, every page of the parent being in both with its frame and all its bits but writability, which is traded for the mark; it fails if and only if frames do not suffice for the tables, and then counts, frames, contents and carried bits are as before |
| CowVmm.Vmm.EnsureTable | kernel/mm/vmm.rs:393-406 | a missing table is made from a free frame, keeping the one reserved for the page |
| CowVmm.Vmm.MapFresh | kernel/mm/vmm.rs:130-145 | a new page reads what was put in it and has the permissions and bits it was given, and nothing else changes; it fails exactly when frames do not last |
| CowVmm.Vmm.BreakCow | kernel/mm/vmm.rs:447-497 | breaking changes nobody's contents, keeps the bits of the entry, takes the last frame over or a free one for the copy, and fails exactly on a shared page with no frame left |
| CowVmm.Vmm.UserWrite | kernel/mm/vmm.rs:447-497 | a store that is let through changes one byte at one page of one space |
| CowVmm.Vmm.Do | kernel/mm/vmm.rs:80-497 | each request is refused exactly for its stated shortage, else answered with its own event, and acts on what every space reads as it would with eager copies |
| CowVmm.Vmm.Serve | kernel/mm/vmm.rs:80-497 | over every history of mappings, forks, writes and exits each request is answered as its state demands and every space sees the contents and entry bits that eager copying shows, up to the first fork that would overflow a counter, which takes 65535 spaces |
| SchedModel.WeightsFall | kernel/sched/runqueue.rs:15-25 | one step of priority changes the weight by a factor between 1.22 and 1.28, over the whole table |
| RunQueue.RunQueue.FindPlace | kernel/sched/runqueue.rs:76-93 | the walk stops at the last process in front of the new one |
| RunQueue.RunQueue.Attach | kernel/sched/runqueue.rs:76-94 | the link stores splice the process in at that place and move the tail only at the end |
| RunQueue.RunQueue.Push | kernel/sched/runqueue.rs:36-95 | the list stays strictly sorted by (vruntime, pid) with exact length, head and tail, and gains the process and nothing else; a linked one is left alone |
| RunQueue.RunQueue.Bypass | kernel/sched/runqueue.rs:137-165 | the link stores take one process out and leave every other link |
| RunQueue.RunQueue.PopMin | kernel/sched/runqueue.rs:100-121 | the least process that is not idle leaves the list; null only if there is none |
| RunQueue.RunQueue.PeekMinVr | kernel/sched/runqueue.rs:123-126 | the least vruntime on the list |
| RunQueue.RunQueue.HasNonIdle | kernel/sched/runqueue.rs:128-135 | true if and only if some process on the list is not idle |
| RunQueue.RunQueue.Remove | kernel/sched/runqueue.rs:137-165 | exactly the process with that pid leaves; true if and only if it was there |
| SchedModel.WakeBelowMeans | kernel/sched/core.rs:57-85 | the wake-up scan makes exactly the sleepers whose time has come ready, by their fields, raised to the queue's floor, and counts each |
| SchedModel.NoSleepersNoWake | kernel/sched/core.rs:57-85 | skipping the scan when the counter is zero changes nothing |
| SchedModel.FirstUnique | kernel/sched/core.rs:88-213 | the least ready task by (vruntime, pid) is unique, so the choice of the next task is a function of the state |
| SchedModel.StepKeeps | kernel/sched/core.rs:37-213 | every step keeps the sleeper counter equal to the number of sleeping tasks |
| SchedModel.SleeperCountExact | kernel/sched/core.rs:37-213 | so it is exact at every point of every run |
| SchedFair.TurnKeeps | kernel/sched/core.rs:88-213 | a tick or yield keeps the runtimes within one largest slice and charges one slice to the task that ran |
| SchedFair.BandKeptIff | kernel/sched/core.rs:88-213 | from a start within that bound, the next turn keeps it if and only if the running task has headroom |
| SchedFair.BandLost | kernel/sched/core.rs:88-213 | a run from the start that loses it: a second task arrives while the first is a slice ahead |
| SchedFair.CloseIsTogether | kernel/sched/core.rs:88-213 | twice the bound always leaves headroom |
| SchedFair.RuntimesStayTogether | kernel/sched/core.rs:88-213 | over any mix of ticks and yields runtimes never spread past one slice, and each is what its task was charged |
| SchedFair.ServiceIsFair | kernel/sched/core.rs:88-213 | weighted service of any two tasks over any stretch of a run differs by at most two largest slices |
| SchedFair.SpreadIsTwoSlices | kernel/sched/core.rs:88-213 | from any start within one slice, runtimes never spread past two over any run, and service differs by at most three |
| SchedFair.NobodyStarves | kernel/sched/core.rs:88-213 | in any stretch longer than an explicit bound every task is charged |
| SchedLife.OneRuns | kernel/sched/core.rs:88-213 | in every state of every run at most one task is running, and it is the current one |
| SchedLife.StaysParked | kernel/sched/core.rs:37-213 | over every run a sleeping, blocked or dead task keeps every field until its time, a wake-up, a kill or a call of its own, and has left the CPU by the first tick |
| SchedLife.TickMeans | kernel/sched/core.rs:88-213 | a running task pays for its slice and gives way exactly when a ready one then has less runtime; the least ready task runs next |
| SchedLife.TickHandsOver | kernel/sched/core.rs:88-213 | when the current task is idle or waits, the least ready task runs next, or else idle |
| Scheduler.Scheduler.ChargeCurrent | kernel/sched/core.rs:93-142 | charging the running task and deciding whether it gives way, in place, is the value model's charge |
| Scheduler.Scheduler.WakeSleepers | kernel/sched/core.rs:57-85 | the scan over the process index wakes exactly the due tasks |
| Scheduler.Scheduler.TakeFirst | kernel/sched/core.rs:150-153 | what comes off the list is the value model's choice |
| Scheduler.Scheduler.DispatchNext | kernel/sched/core.rs:150-200 | handing the CPU over is the value model's dispatch |
| Scheduler.Scheduler.Schedule | kernel/sched/core.rs:88-213 | a timer interrupt is the value model's tick |
| Scheduler.Scheduler.Run | kernel/sched/core.rs:37-213 | any interleaving of spawns, ticks, yields, sleeps, blocks, wake-ups and kills on the linked list is the value model's run |
| Scheduler.Scheduler.QueueIsExact | kernel/sched/core.rs:37-213 | in every such state the list is sorted and linked with the right ends and length, holds each ready task but idle and nothing else, and the sleeper counter is exact |
| Scheduler.Scheduler.HeadIsPick | kernel/sched/core.rs:88-213 | the head of the list is the task the value model picks |
| Scheduler.Scheduler.Yield | kernel/sched/control.rs:19-47 | one slice is charged before the task queues again |
| Scheduler.Scheduler.Sleep | kernel/sched/control.rs:49-62 | the task leaves the ready set and is counted asleep; queue, counter and idle stay right if and only if the task is neither idle nor queued |
| Scheduler.Scheduler.Block | kernel/sched/control.rs:64-75 | the task leaves the ready set and is not counted asleep; everything stays right if and only if it is neither idle nor queued nor asleep |
| Scheduler.Scheduler.Wake | kernel/sched/control.rs:77-108 | a sleeping or blocked task becomes ready, raised to the floor, and the counter follows |
| SchedLife.SleepsUntil | kernel/sched/control.rs:49-62 | a task that sleeps is asleep, every other task left alone, until the first tick at its time, and awake after it, in every run in which nobody wakes or kills it |
| SchedLife.BlocksUntilWoken | kernel/sched/control.rs:64-108 | a task that blocks stays blocked in every run until it is woken, and is ready then |
| SchedLife.WakeupMeans | kernel/sched/control.rs:77-108 | a wake-up reaches exactly the known tasks that wait and touches no other |
| Scheduler.Scheduler.Start | kernel/sched/lifecycle.rs:25-34 | a new task is registered and queued |
| Scheduler.Scheduler.Stop | kernel/sched/lifecycle.rs:128-141 | a killed task is dead with its other fields as they were, off the queue and off the sleeper count, and every other task is left alone |
| SchedLife.KilledStaysDead | kernel/sched/lifecycle.rs:128-141 | in every run from there in which it does not itself call sleep or block, it stays dead, is never queued, and is not on the CPU after the next tick |
| Scheduler.Scheduler.Index | kernel/sched/proc_index.rs:33-45 | the flat index finds a task exactly when its pid is known and below the limit |
| Limbs.Cmp | kernel/net/tls_bignum.rs:25-31 | limb comparison from the top orders the values |
| Limbs.SubLimbs | kernel/net/tls_bignum.rs:33-47 | the borrow loop subtracts; a borrow is left exactly when the result is negative |
| Limbs.AddLimbs | kernel/net/tls_bignum.rs:49-58 | the carry loop adds; a carry is left exactly on overflow |
| Bignum.MulRow | kernel/net/tls_bignum.rs:60-74 | one row adds x times b at its weight, its last carry accounted for |
| Bignum.MulFull | kernel/net/tls_bignum.rs:60-74 | the double-width product is exact: no carry is lost |
| Bignum.ShiftIn | kernel/net/tls_bignum.rs:81-88 | the shift is doubling plus the next bit, top limb included |
| Bignum.SubtractOnce | kernel/net/tls_bignum.rs:90-97 | one conditional subtraction, also when the top limb overflowed |
| Bignum.ReduceLimb | kernel/net/tls_bignum.rs:79-99 | after each of 32 bits the remainder is below the modulus; the limb ends at the residue |
| Bignum.ReduceDouble | kernel/net/tls_bignum.rs:76-104 | the result is the residue of the double-width number |
| Bignum.MulMod | kernel/net/tls_bignum.rs:106-109 | a*b mod n for every n > 0 |
| Bignum.PowModU32 | kernel/net/tls_bignum.rs:111-124 | base^exp mod n if and only if exp > 0 or n > 1; with n = 1 and exp = 0 it answers 1 |
| Bignum.PowLoop | kernel/net/tls_bignum.rs:111-124 | one turn of square-and-multiply keeps the product |
| P256Field.CombineValue | kernel/net/tls_ecdh.rs:57-68 | the signed column sums equal the 512-bit input less a multiple of the prime, within explicit bounds |
| P256Field.CarryPass | kernel/net/tls_ecdh.rs:70-75 | a signed carry pass keeps the value, leaves proper limbs and a small ninth |
| P256Field.FoldHigh | kernel/net/tls_ecdh.rs:76-83 | folding the ninth limb back removes exactly that multiple of the prime |
| P256Field.FromWide | kernel/net/tls_ecdh.rs:57-91 | for every 512-bit input exactly the canonical residue: four rounds always suffice |
| P256Field.Reduce | kernel/net/tls_ecdh.rs:45-55 | one subtraction makes any eight limbs canonical |
| P256Field.Columns | kernel/net/tls_ecdh.rs:93-99 | the column sums carry the full product and fit 128 bits |
| P256Field.Normalise | kernel/net/tls_ecdh.rs:100-106 | carries turn columns into sixteen limbs with none left over |
| P256Field.Mul | kernel/net/tls_ecdh.rs:93-108 | multiplication modulo the prime for all inputs |
| P256Field.Add | kernel/net/tls_ecdh.rs:112-130 | the sum modulo the prime if and only if the sum is below 2^256 plus the prime, and canonical on canonical inputs |
| P256Field.Sub | kernel/net/tls_ecdh.rs:132-149 | the difference modulo the prime if and only if it is at least minus the prime, and canonical on canonical inputs |
| P256Field.ExponentValue | kernel/net/tls_ecdh.rs:155-160 | the exponent bytes spell p - 2 |
| P256Field.Inv | kernel/net/tls_ecdh.rs:154-169 | the result is a^(p-2) modulo the prime |
| P256Ladder.MaskedMoves | kernel/net/tls_ecdh.rs:226-231 | the arithmetic mask selects like a branch |
| P256Ladder.CMov | kernel/net/tls_ecdh.rs:226-231 | the conditional move copies exactly when the condition bit is set |
| P256Ladder.ScalarMul | kernel/net/tls_ecdh.rs:239-250 | the loop over all bits with masked moves is double-and-add over the scalar's value |
| P256Ladder.TimesCounts | kernel/net/tls_ecdh.rs:239-250 | in any group of order N whose doubling doubles logarithms and whose addition adds one to them, the result has logarithm n mod N |
| P256Ladder.SevenPoints | kernel/net/tls_ecdh.rs:239-250 | such a group exists on the points of the code: seven of them, with doubling and addition given |
| P256Ladder.SeventhTimes | kernel/net/tls_ecdh.rs:239-250 | and there every scalar gives its residue |
| ElfLoader.Parse | kernel/process/elf.rs:374-419 | accepted if and only if every header's ranges are in the file without overflow and one is loadable |
| ElfLoader.CheckOverlaps | kernel/process/elf_loader.rs:336-365 | accepted if and only if no segment is both writable and executable and no two overlap |
| ElfLoader.CopySegment | kernel/process/elf_loader.rs:515-540 | exactly the segment's file bytes that fall on the page are written |
| ElfLoader.FillFrame | kernel/process/elf_loader.rs:422-513 | a new frame holds the file bytes and zeros, nothing of its former contents |
| ElfLoader.Overlay | kernel/process/elf_loader.rs:422-513 | on a page another segment already has, only this segment's file bytes change |
| ElfLoader.StepExact | kernel/process/elf_loader.rs:422-513 | one page of the loop keeps the image exact for everything mapped so far |
| ElfLoader.AddressSpace.MapOne | kernel/process/elf_loader.rs:422-570 | a page ends up with the merged permissions and contents, on a fresh frame or on the one its table entry already has, and can be undone; it goes through if and only if a frame is free and a taken entry is at an address and does not become writable and executable, or a new mapping is let through |
| ElfLoader.AddressSpace.MapSegment | kernel/process/elf_loader.rs:422-513 | a whole segment is added to an exact image if and only if its addresses fit 64 bits and every page goes through; else the outcome names the page and why |
| ElfLoader.AddressSpace.MapAll | kernel/process/elf_loader.rs:367-382 | all segments: the image is exact with respect to the tables at entry, no frame lost; the exact condition of success |
| ElfLoader.AddressSpace.Rollback | kernel/process/elf_loader.rs:572-577 | a failed load leaves exactly the pages mapped at entry and every frame back |
| ElfLoader.AddressSpace.Load | kernel/process/elf_loader.rs:336-577 | the load succeeds if and only if the file is small enough and accepted, addresses fit, and at every page of the walk a frame is free, a taken entry is canonical and never both writable and executable, and a new mapping is let through; then files are mapped exactly, else the error names its cause and no page or frame is changed outside pages mapped before |
| ElfLoader.ImageRightIff | kernel/process/elf_loader.rs:422-570 | every address of every segment reads its file byte or zero if and only if addresses the tables cannot tell apart ask for the same bytes and pages mapped before hold zero where no file byte goes |
| ElfLoader.LoadedImage | kernel/process/elf_loader.rs:422-570 | so accepted files load right when their pages are their own, also where segments share a page |
| ElfLoader.NeverBoth | kernel/process/elf_loader.rs:422-570 | no page of a segment is writable and executable, whatever was mapped before |
| ElfLoader.UserImageLoads | kernel/process/elf_loader.rs:336-577 | in an empty user half an image loads whenever no page is asked to be both writable and executable, mappings are let through, and one frame more is free than the pages it needs |
| ElfLoader.SharedPageLoads | kernel/process/elf_loader.rs:483-495 | two segments on one page load |
| ElfLoader.UserHalfIsOwn | kernel/process/elf_loader.rs:336-577 | in an empty user half, images in that half have pages of their own and cannot panic |
| ElfLoader.AliasedSegments | kernel/process/elf_loader.rs:336-365 | two segments 2^48 apart pass every check, and then a byte of one reads as the byte of the other |
| ElfLoader.AliasedLoads | kernel/process/elf_loader.rs:422-570 | the tables such a load leaves |
| ElfLoader.SegmentOverOldPage | kernel/process/elf_loader.rs:422-570 | a segment on a page mapped before shows what the page held behind its file part |
| ElfLoader.OldPageLoads | kernel/process/elf_loader.rs:422-570 | the tables such a load leaves |
| ExecStack.Stack.PushBytes | kernel/process/elf_loader.rs:769-783 | the overflow flag is set exactly when the bytes do not fit; otherwise they lie just below what was pushed |
| ExecStack.Stack.PushStrings | kernel/process/elf_loader.rs:785-815 | every string lies at the address recorded for it |
| ExecStack.Stack.PushWords | kernel/process/elf_loader.rs:759-767 | a vector pushed from its end reads from its start |
| ExecStack.Stack.PushVector | kernel/process/elf_loader.rs:817-868 | after alignment and padding the final pointer is a multiple of 16 |
| ExecStack.Stack.StringBytes | kernel/process/elf_loader.rs:741-743 | the byte budget counts the strings, the name, the platform and the random bytes |
| ExecStack.Stack.SetupStack | kernel/process/elf_loader.rs:722-871 | accepted if and only if the budgets pass and everything fits; then the stack is laid out as specified and rsp is a multiple of 16 |
| ExecStack.BudgetSuffices | kernel/process/elf_loader.rs:738-746 | with arguments given, passing the budgets guarantees that nothing overflows |
| ExecStack.EmptyArgsMayOverflow | kernel/process/elf_loader.rs:738-810 | without arguments the name is pushed twice and counted once, and a long name overflows within budget |
| ExecStack.ParseBack | kernel/process/elf_loader.rs:802-871 | start-up code reads back argc, the auxiliary vector and every string up to its first zero byte; the lists are the ones given if and only if no string holds a zero byte |
| ExecStack.AuxBack | kernel/process/elf_loader.rs:817-868 | start-up code finds each of the nineteen entries under its key, and behind the pointers the random bytes, the program name and the platform |
| VmaMap.CutCell | kernel/mm/mmap.rs:108-133 | cutting an area changes no address outside the range, file offset included |
| VmaMap.Absorb | kernel/mm/mmap.rs:168-188 | merging a like anonymous neighbour moves no cell |
| VmaMap.PieceCell | kernel/mm/mmap.rs:108-133 | the right-hand piece of a cut area shows the same file bytes at the same addresses |
| VmaMap.CellMeans | kernel/mm/mmap.rs:108-133 | an address of an area shows the byte of the same file that lies as far behind the offset of the area, with its protection, size and sharing |
| VmaMap.VmaMap.RemoveRange | kernel/mm/mmap.rs:108-133 | the range is unmapped and every other address keeps protection and file offset |
| VmaMap.VmaMap.Find | kernel/mm/mmap.rs:206-212 | the area holding an address, if and only if one does; with the offset that the fault and write-back paths use |
| VmaMap.VmaMap.InsertMerged | kernel/mm/mmap.rs:168-188 | the address map gains the new area and nothing else |
| VmaMap.VmaMap.FindFree | kernel/mm/mmap.rs:136-165 | the lowest gap that fits, and none only if none exists |
| VmaMap.GapsAre | kernel/mm/mmap.rs:136-165 | the gaps between areas are the gaps of the address map |
| VmaMap.VmaMap.MapAnywhere | kernel/mm/mmap.rs:190-204 | the lowest gap that fits gains the new area and nothing else changes; none only if nothing fits |
| VmaMap.VmaMap.MapFixed | kernel/mm/mmap.rs:108-188 | a fixed mapping replaces exactly its range |
| VmaMap.VmaMap.Serve | kernel/mm/mmap.rs:101-213 | over any sequence of mappings and unmappings each is answered as the address map decides, refused exactly when it must be, and the areas stay disjoint and agree with that map |
| Pmm.FillRange | kernel/mm/pmm.rs:68-86 | the bit, word, bit loops set exactly the range |
| Pmm.FindOne | kernel/mm/pmm.rs:158-181 | the word-parallel scan finds the lowest free frame |
| Pmm.FindMany | kernel/mm/pmm.rs:183-207 | the word-parallel scan finds the first fit a bit-by-bit search finds |
| Pmm.FindContiguous | kernel/mm/pmm.rs:154-208 | the same lowest start as first fit, none only if there is none |
| Pmm.LowestFree | kernel/mm/pmm.rs:105-148 | with nothing free below the hint, one frame is the lowest free of all |
| Pmm.FrameAllocator.AddRegion | kernel/mm/pmm.rs:88-103 | exactly the new frames become free; the counters stay right if and only if none of them was added before |
| Pmm.FrameAllocator.AllocFrames | kernel/mm/pmm.rs:105-148 | one frame: the lowest free; several: first fit behind the hint, then before it |
| Pmm.FrameAllocator.FreeFrames | kernel/mm/pmm.rs:210-222 | exactly these frames become free; counters and hints stay right if and only if all of them had been added |
| Pmm.WordReserved | kernel/mm/pmm.rs:414-453 | counting the zero bits of a word counts its free frames |
| Pmm.FrameAllocator.ReserveRegion | kernel/mm/pmm.rs:414-453 | every frame of the region is used from then on and the counter stays exact, so its clamps never bite |
| Pmm.FrameAllocator.Serve | kernel/mm/pmm.rs:105-222 | over any history each request is answered by the search; what is out is exactly what was answered and not given back, disjoint and marked used |
| Pmm.HintMissesCrossing | kernel/mm/pmm.rs:113-118 | a search for several frames finds nothing if and only if every free run crosses the hint |
| Pmm.CrossingRunUnseen | kernel/mm/pmm.rs:113-118 | such a case: the only free run crosses it |
| SwapMap.SwapMap.Track | kernel/mm/swap_map.rs:58-66 | the frame is noted for its space, address and flags; count and high-water mark stay exact if and only if the table root is not zero, and with zero the frame is lost |
| SwapMap.SwapMap.Untrack | kernel/mm/swap_map.rs:68-74 | the note of the frame goes and no other, the count and the mark stay exact |
| SwapMap.SwapMap.TrimHighWater | kernel/mm/swap_map.rs:52-56 | the mark comes down to the last entry in use |
| SwapMap.SwapMap.SetPinned | kernel/mm/swap_map.rs:83-88 | one pin changes and nothing else |
| SwapMap.SwapMap.Touch | kernel/mm/swap_map.rs:76-81 | a tracked page is young again |
| SwapMap.SwapMap.AgeAll | kernel/mm/swap_map.rs:90-98 | every evictable entry ages by one up to the limit, although the loop stops at the mark |
| SwapMap.SwapMap.PickVictim | kernel/mm/swap_map.rs:100-135 | a victim exactly when a tracked frame is not pinned: the first of age 3 or more in clock order, else the first evictable, reported with the space and address noted for it; the hand moves past it |
| SwapMap.SpotsCover | kernel/mm/swap_map.rs:100-135 | the clock meets every entry below the mark |
| SwapMap.AgesOn | kernel/mm/swap_map.rs:90-98 | over any number of ticks a page that may go ages by as many up to the limit, and is old after three |
| SwapMap.SwapMap.Serve | kernel/mm/swap_map.rs:58-135 | over any history the notes are those of the operations, and a victim is reported with what is noted for it |
| SwapMap.OwnerKept | kernel/mm/swap_map.rs:58-98 | a frame stays noted for the space and address it was last tracked for until it is untracked |
| SwapMap.VictimIsUnshared | kernel/mm/swap_map.rs:100-135 | in every state of the address spaces a frame the clock may take is mapped exactly once, and above low memory every tracked frame that is mapped once may be taken |
| SwapSlots.PteRoundTrip | kernel/mm/swap_map.rs:216-239 | slot and flag bits 2 to 11 survive the entry, which the processor takes for not present; it is recognised exactly when the slot is not zero |
| SwapSlots.SwapState.AllocSlot | kernel/mm/swap.rs:41-55 | the lowest free slot, none only if all are out; the counter stays the number of set bits |
| SwapSlots.SwapState.FreeSlot | kernel/mm/swap.rs:57-65 | one slot is free again; out of range or free already is ignored |
| SwapSlots.SwapState.SwapOut | kernel/mm/swap.rs:115-129 | the plain store gains the page at a slot that was free, its eight sectors are written and no other sector changes; refused only when inactive or full |
| SwapSlots.SwapState.SwapIn | kernel/mm/swap.rs:131-146 | the page written when the slot was issued, if and only if the slot is out |
| SwapSlots.SwapState.SwapOn | kernel/mm/swap.rs:200-248 | slots are the pages behind the header, capped by the bitmap, whatever the size of the partition; all slots lie in it if and only if the last one neither wraps nor ends past it |
| SwapSlots.SwapState.SwapOff | kernel/mm/swap.rs:250-265 | allowed exactly when nothing is out |
| SwapSlots.WriteThenRead | kernel/mm/swap.rs:111-129 | writing a slot changes no other slot's page |
| SwapSlots.SlotsApart | kernel/mm/swap.rs:111-113 | no two slots share a sector, even where the 32-bit sector number wraps |
| SwapSlots.InPartitionIff | kernel/mm/swap.rs:111-113 | every sector a slot can be written to lies in the partition behind the header page if and only if the last slot neither wraps at 2^32 nor ends past the sectors of the partition |
| SwapSlots.MadeIs | kernel/mm/swap.rs:165-198 | `mkswap` names the last page that fits and refuses fewer than ten |
| SwapSlots.MadeFits | kernel/mm/swap.rs:165-198 | a header written by `mkswap` for the partition never names a page past it |
| SwapSlots.HeaderTooLong | kernel/mm/swap.rs:200-248 | a partition of 1000 sectors whose header names 65536 pages is accepted and has a slot half a million sectors away |
| SwapSlots.SwapState.Serve | kernel/mm/swap.rs:57-146 | over any run of outs, ins and frees the slots behave as the plain store and no sector that belongs to no slot changes |
| SwapSlots.PageStays | kernel/mm/swap.rs:115-146 | through any other traffic a page stays in its slot and the slot goes to nobody else |
| SwapSlots.OutThenIn | kernel/mm/swap.rs:115-146 | so the next swap-in of the slot reads the page swapped out |
| AesSbox.SboxInverse | kernel/net/tls_crypto.rs:1-37 | the two tables undo each other on every byte |
| AesSbox.SboxIsInversion | kernel/net/tls_crypto.rs:1-18 | the table is inversion in the field followed by the affine map of section 5.1.1 of FIPS 197 |
| AesSbox.GfMulMeans | kernel/net/tls_crypto.rs:45-55 | the product is the sum of the doublings picked by the bits |
| Aes.MixColumnsUndone | kernel/net/tls_crypto.rs:92-124 | the inverse column step undoes the column step |
| Aes.BackwardMirrors | kernel/net/tls_crypto.rs:83-127 | decryption passes through the states of encryption in reverse |
| Aes.DecryptEncrypt | kernel/net/tls_crypto.rs:83-127 | decryption undoes encryption for every schedule and block |
| AesStandard.ShiftRowsMeans | kernel/net/tls_crypto.rs:87-90 | row r moves r places to the left, as section 5.1.2 of FIPS 197 says |
| AesStandard.MixMeans | kernel/net/tls_crypto.rs:91-100 | a column is multiplied by {03}x^3+{01}x^2+{01}x+{02}, as section 5.1.3 of FIPS 197 says |
| AesStandard.RconMeans | kernel/net/tls_crypto.rs:39 | the round constants are the powers of x |
| AesStandard.ScheduleMeans | kernel/net/tls_crypto.rs:62-81 | the schedule satisfies the word recurrence of section 5.2 of FIPS 197 at every word |
| AesStandard.CipherMeans | kernel/net/tls_crypto.rs:83-104 | the cipher is the last of the eleven states of section 5.1 of FIPS 197, given byte by byte: substituted, shifted, mixed but in the last round, and words 4r to 4r + 3 of the schedule added in round r |
| AesBlock.NewSchedule | kernel/net/tls_crypto.rs:62-81 | the schedule whose words follow the recurrence of FIPS 197 |
| AesBlock.EncryptBlock | kernel/net/tls_crypto.rs:83-104 | the cipher of `CipherMeans`, which decryption undoes, computed in place |
| AesBlock.DecryptBlock | kernel/net/tls_crypto.rs:106-127 | the inverse of the cipher, computed in place |
| AesModes.CbcEncrypt | kernel/net/tls_crypto.rs:130-143 | whole blocks are chained into the output in the way that unchaining undoes and the rest of it is left alone; the length answered is right if and only if the input is a multiple of 16 |
| AesModes.CbcDecrypt | kernel/net/tls_crypto.rs:145-159 | undoes the chaining of whole blocks in the output; the length answered is right if and only if the input is a multiple of 16 |
| AesModes.CbcRoundTrip | kernel/net/tls_crypto.rs:130-159 | unchaining what was chained gives the data |
| RecordStandard.CbcMeans | kernel/net/tls_crypto.rs:130-143 | each block of ciphertext is the encryption of its plaintext added to the block before it, the first one to the initial vector (section 6.2 of SP 800-38A) |
| RecordStandard.PadMeans | kernel/net/tls_crypto.rs:161-172 | the padding of section 6.2.3.2 of RFC 5246, to a multiple of sixteen |
| RecordStandard.UnpadMeans | kernel/net/tls_crypto.rs:174-190 | unpadding gives some data if and only if the record is that data with such a padding |
| AesModes.TlsPad | kernel/net/tls_crypto.rs:161-172 | one to sixteen bytes are added, to a multiple of sixteen |
| AesModes.TlsUnpad | kernel/net/tls_crypto.rs:174-190 | the padding is removed if and only if it is well formed, comparing every byte |
| AesModes.UnpadPad | kernel/net/tls_crypto.rs:161-190 | unpadding undoes padding for every length |
| AesModes.PaddedRecordRoundTrip | kernel/net/tls_crypto.rs:130-190 | pad, chain, unchain, unpad is the identity for every length, key and vector |
| Gcm.Multiply | kernel/net/tls_gcm.rs:3-22 | the two loops compute the product, which `ProductDetermined` pins down |
| Gcm.GhashMulAdds | kernel/net/tls_gcm.rs:3-22 | the product distributes over addition |
| Gcm.GhashMulSlides | kernel/net/tls_gcm.rs:3-22 | a factor of x can be taken out |
| Gcm.GhashMulOne | kernel/net/tls_gcm.rs:3-22 | the block with only its first bit set is one |
| Gcm.GhashMulByOne | kernel/net/tls_gcm.rs:3-22 | it is one from the right as well |
| Gcm.GhashMulAddsRight | kernel/net/tls_gcm.rs:3-22 | the product distributes over addition in its second factor |
| Gcm.GhashMulCommutes | kernel/net/tls_gcm.rs:3-22 | the order of the factors does not matter |
| Gcm.ProductDetermined | kernel/net/tls_gcm.rs:3-22 | multiplication by h is the only function that is additive, lets a factor of x out and takes one to h |
| RecordStandard.HalveMeans | kernel/net/tls_gcm.rs:3-22 | times x moves every coefficient one place, and the one that falls off comes back as 1 + x + x^2 + x^7 |
| RecordStandard.OneMeans | kernel/net/tls_gcm.rs:3-22 | one is the block with only its first bit set |
| RecordStandard.LoadMeans | kernel/net/tls_gcm.rs:24-61 | blocks are read most significant byte first |
| RecordStandard.StoreLoad | kernel/net/tls_gcm.rs:24-61 | and written back the same way |
| RecordStandard.GhashMeans | kernel/net/tls_gcm.rs:24-61 | the hash is the one of section 6.4 of SP 800-38D over additional data, ciphertext, each filled up with zeros, and their lengths in bits, in this order |
| Gcm.ComputeGhash | kernel/net/tls_gcm.rs:24-61 | whole blocks, then the zero-filled rest, of both inputs, then the lengths |
| Gcm.CtrApply | kernel/net/tls_gcm.rs:71-154 | the key stream is added byte by byte, the block counter starting at two and wrapping at 32 bits |
| Gcm.CtrUndone | kernel/net/tls_gcm.rs:71-154 | adding the key stream twice gives the data back |
| Gcm.GcmSeal | kernel/net/tls_gcm.rs:71-109 | the one record that opens to the plaintext |
| RecordStandard.SealMeans | kernel/net/tls_gcm.rs:63-109 | a record is the plaintext under the key stream of counters from two on, then the hash under the encrypted zero block with the encryption of counter one added |
| Gcm.GcmOpen | kernel/net/tls_gcm.rs:111-154 | the plaintext if and only if the record is its seal, compared whole before anything is decrypted |
| Gcm.OpenIffSealed | kernel/net/tls_gcm.rs:71-154 | a record opens to p if and only if it is the seal of p |
| Crc32.TableStep | kernel/fs/gpt.rs:144-168 | one table look-up and shift is eight steps of the bitwise division, for every register and byte |
| Crc32.MakeTable | kernel/fs/gpt.rs:144-158 | entry i is eight steps on i |
| Crc32.Checksum | kernel/fs/gpt.rs:162-168 | the table-driven checksum is the bitwise one for every input |
| Crc32.StepMeans | kernel/fs/gpt.rs:144-158 | a step of the division is multiplication by x modulo the polynomial of IEEE 802.3, by its powers |
| Crc32.KnownChecksum | kernel/fs/gpt.rs:162-168 | the checksum of two letters |
| Gpt.HeaderRoundTrip | kernel/fs/gpt.rs:203-219 | a header survives its sector, every field |
| Gpt.EntryRoundTrip | kernel/fs/gpt.rs:221-247 | an entry survives its bytes, every field |
| Gpt.HeaderLayout | kernel/fs/gpt.rs:203-219 | every field of a header at the offset of section 5.3.2 of the UEFI specification |
| Gpt.HeaderRest | kernel/fs/gpt.rs:203-219 | the reserved field and the rest of the sector are zero |
| Gpt.EntryLayout | kernel/fs/gpt.rs:221-247 | every field of an entry at the offset of section 5.3.3 of the UEFI specification |
| Bytes.NumDigits | kernel/fs/gpt.rs:203-247 | numbers have their least significant byte first |
| Gpt.ParsedFits | kernel/fs/gpt.rs:343-393 | whatever a disk holds, what is read from it fits its fields |
| Gpt.SealChecks | kernel/fs/gpt.rs:283-304 | both copies of the header carry the checksum of themselves and of the entries |
| Gpt.ReadsBack | kernel/fs/gpt.rs:267-393 | what was written reads back, although on a small disk the two copies overlap |
| Gpt.TooSmall | kernel/fs/gpt.rs:283-304 | on 33 or 34 sectors the backup covers the header and nothing reads back |
| Gpt.NextLbaPast | kernel/fs/gpt.rs:127-135 | the next free sector is the first past every partition in use, when none ends at the last 64-bit sector |
| Gpt.NextLbaIff | kernel/fs/gpt.rs:127-135 | for any table it lies past the table if and only if no partition in use ends at the last 64-bit sector, or a later one lifts it again |
| Gpt.AddedIff | kernel/fs/gpt.rs:395-434 | for any readable table, the exact condition under which a partition is added past the table and clear of every partition in use |
| Gpt.PlacedOverTable | kernel/fs/gpt.rs:127-135 | one entry reaching to the last 64-bit sector, and the next partition is placed at sector 0 |
| Gpt.FirstUnusedIs | kernel/fs/gpt.rs:120-125 | the free slot is the lowest |
| Gpt.AddKeeps | kernel/fs/gpt.rs:395-434 | a table keeps its form when a partition is added, and disjoint partitions inside the usable range stay so |
| Gpt.DeleteKeeps | kernel/fs/gpt.rs:436-454 | and when one is deleted |
| Gpt.Disk.SumEntries | kernel/fs/gpt.rs:249-258 | the running checksum over all entries is the checksum of their bytes |
| Gpt.Disk.WriteEntries | kernel/fs/gpt.rs:267-281 | exactly 32 sectors change, four entries to each; it fails if and only if they run past the device |
| Gpt.Disk.WriteTable | kernel/fs/gpt.rs:283-304 | every sector after the writes, later ones winning; it fails if and only if the disk is shorter than the table says or than a table needs |
| Gpt.Disk.ReadTable | kernel/fs/gpt.rs:343-393 | the table or the error the sectors decide, a device fault where the device ends too early |
| Gpt.Disk.Init | kernel/fs/gpt.rs:306-341 | the new table reads back with 35 sectors or more and does not with 33 or 34; with fewer the write fails; nothing outside the copies changes but the protective record |
| Gpt.Disk.AddPartition | kernel/fs/gpt.rs:395-434 | on any readable table: refused without a write for the stated reasons, a device fault exactly when the table does not fit the device, else the disk reads back the table with the new partition from both copies |
| Gpt.Disk.DeletePartition | kernel/fs/gpt.rs:436-454 | the same for deletion, the index in use being the condition |
| Gpt.Disk.Serve | kernel/fs/gpt.rs:306-454 | over any run the disk reads back what the operations make of the table; partitions stay disjoint in [34, total-34], both copies check, and no sector outside them changes |
| GptStandard.BothCopies | kernel/fs/gpt.rs:283-304 | on a disk written by this code either copy stands alone as the UEFI specification reads it from the bytes: it names its own place, that of the other copy and that of its entries, both checksums hold over the bytes on the disk, and the entries are the same |
| GptStandard.CopiesStand | kernel/fs/gpt.rs:306-454 | so they do after any run of additions and deletions on a new table |
| GptStandard.NewMeans | kernel/fs/gpt.rs:306-341 | every field of a new table; the usable sectors lie between the two copies and no entry is in use |
| GptStandard.NewEntryMeans | kernel/fs/gpt.rs:395-434 | a new entry has the identifiers asked for, `size` sectors, no attributes and at most 35 characters of the name before a zero |
| GptStandard.GrantedIff | kernel/fs/gpt.rs:395-434 | in a table without overlap a request is granted if and only if an entry is free and the room behind the last partition is large enough, and it takes the lowest |
| GptStandard.DeletedIsZero | kernel/fs/gpt.rs:436-454 | a deleted entry is 128 zero bytes |
| GptStandard.MbrLayout | kernel/fs/gpt.rs:183-201 | the protective record by offsets: one partition of type 0xEE from sector 1 to the end, or as far as 32 bits reach |
| Hpack.IntRoundTrip | kernel/net/http2.rs:107-167 | every number behind every prefix decodes to itself and leaves what follows (section 5.1 of RFC 7541) |
| Hpack.ThirteenThirtySeven | kernel/net/http2.rs:107-167 | the example of section C.1.2 of RFC 7541, both ways |
| Hpack.EncodeInt | kernel/net/http2.rs:107-120 | appends bytes that decode to the value, whatever the prefix and the buffer |
| HpackCode.DecodeInt | kernel/net/http2.rs:152-167 | the 64-bit sum and shift of the code, which `MachineIntIff` compares with the number sent; it ends on every input |
| Hpack.MachineIntIff | kernel/net/http2.rs:152-167 | the 64-bit sum and shift of the code give that number if and only if it is below 2^64 |
| Hpack.ShortTailFits | kernel/net/http2.rs:152-167 | which nine bytes of tail always are |
| Hpack.MachineRoundTripIff | kernel/net/http2.rs:107-167 | so what an encoder sends comes back through the code if and only if it is below 2^64 |
| Hpack.LiteralRoundTrip | kernel/net/http2.rs:122-177 | every byte string decodes to itself (section 5.2 of RFC 7541) |
| HpackCode.DecodeString | kernel/net/http2.rs:169-177 | the string, or the empty one when its length passes the end, or a panic when the 64-bit end of the string wraps |
| Hpack.FieldRoundTrip | kernel/net/http2.rs:127-139 | every header field decodes to itself, indexed, named by index or literal (sections 6.1 and 6.2.2 of RFC 7541) |
| Hpack.CustomHeader | kernel/net/http2.rs:179-224 | the three forms of a literal field with its name spelled out (sections 6.2.1 to 6.2.3 of RFC 7541) |
| Hpack.TableRows | kernel/net/http2.rs:179-224 | fields that name rows of the static table |
| Hpack.EncodeHeader | kernel/net/http2.rs:127-139 | appends bytes that decode to the field |
| Hpack.BlockRoundTrip | kernel/net/http2.rs:127-224 | every list of header fields decodes to itself |
| HpackCode.DecodeBlock | kernel/net/http2.rs:179-224 | status and location of the block, or a panic, exactly as the machine reading of the block says |
| HpackCode.BlockRefers | kernel/net/http2.rs:179-224 | on unbounded numbers that reading never panics and gives the headers of the reference |
| HpackCode.BlockExactIff | kernel/net/http2.rs:152-224 | the code reads a block, its headers and each number in it, as the reference does if and only if every number and the end of every string is below 2^64 |
| HpackCode.BlockPanicsIff | kernel/net/http2.rs:169-177 | when every number is below 2^64 it panics if and only if some string would end at 2^64 or past it |
| HpackCode.BarePanicsIff | kernel/net/http2.rs:169-177 | a name of n bytes of which none follow is skipped, or the code panics, as n plus the length of the block is below 2^64 or not |
| HpackCode.LongestName | kernel/net/http2.rs:169-177 | a block of twelve bytes on which it panics |
| HpackCode.SummaryRoundTrip | kernel/net/http2.rs:179-224 | every list of header fields sent comes through the code as its status and location |
| HpackCode.StatusIs | kernel/net/http2.rs:214-221 | the last status of a block counts, and a block without one has status zero |
| HpackCode.StatusReads | kernel/net/http2.rs:214-216 | a status is the number it spells in decimal, with a plus sign or without, and zero from 65536 on |
| HpackCode.NoStatus | kernel/net/http2.rs:214-216 | anything else is zero |
| HpackCode.LocationIs | kernel/net/http2.rs:217-221 | the last location that is UTF-8 counts |
| HpackCode.NoLocation | kernel/net/http2.rs:217-221 | without one there is none |
| Http2.FrameRoundTrip | kernel/net/http2.rs:226-351 | a frame is read back and what follows is left if and only if its payload is shorter than 2^24 bytes and its stream number below 2^31 |
| Http2.FrameLayout | kernel/net/http2.rs:336-351 | every field of a frame at the offset of section 4.1 of RFC 7540 |
| Http2.WireMeans | kernel/net/http2.rs:226-263 | the bytes of acknowledgements, pongs and window updates |
| Http2.FramesAppend | kernel/net/http2.rs:336-431 | frames are found in the same places when bytes arrive later |
| Http2.DoneIff | kernel/net/http2.rs:353-426 | the loop stops exactly for a frame that closes: END_STREAM on stream 1, RST_STREAM or GOAWAY |
| Http2.InertIff | kernel/net/http2.rs:353-426 | behind the end, a frame changes nothing if and only if it is inert by kind, flags and payload |
| Http2.Receive | kernel/net/http2.rs:322-432 | the nested loops over chunks and frames do what the run theorems are about, for any chunks; they end in a panic if and only if a header block of the frames taken cannot be decoded |
| Http2.RunHandlesPrefix | kernel/net/http2.rs:322-432 | every run handles all whole frames of the bytes, or a prefix of them that reaches the end of the stream |
| Http2.ChunksDoNotMatter | kernel/net/http2.rs:322-432 | the whole state of the loop, acknowledgements and counters included, is the same for every way of cutting the bytes if and only if every frame behind the first closing one is inert |
| Http2.FramesHandledIff | kernel/net/http2.rs:322-432 | the same frames are handled for every way of cutting the bytes if and only if only the last whole frame closes |
| Http2.CutAnywhere | kernel/net/http2.rs:322-432 | then the response is the same for any two ways of cutting |
| Http2.AnswerCutIff | kernel/net/http2.rs:322-432 | the status, location and body returned are the same for every way of cutting the bytes if and only if the frames behind the first closing one end no block or only blocks that say the same again, and hold no data but padding |
| Http2.LastBlockDecides | kernel/net/http2.rs:358-379 | the last header block that ended decides status and location alone |
| Http2.TrailersLoseStatus | kernel/net/http2.rs:358-379 | so a response with trailers is returned with status zero |
| Http2Exchange.UnderstoodIff | kernel/net/http2.rs:322-432 | a response laid out byte by byte as RFC 7540 says, its header block split over HEADERS and CONTINUATION frames and its body over padded or bare DATA frames, gives status, location and body for every way of cutting the bytes if and only if it has a body or its header block fits one frame |
| Http2Exchange.SplitHeadLost | kernel/net/http2.rs:358-379 | without a body the HEADERS frame ends the stream, so a chunk boundary behind it loses the CONTINUATION frames and the answer |
| Http2Exchange.ResponseComesThrough | kernel/net/http2.rs:322-432 | with a literal header list the caller is given its status, its location and the whole body without the padding |
| Http2Exchange.FlagBits | kernel/net/http2.rs:345-419 | the flags are the bits 0x1, 0x4 and 0x8 whatever the other bits are |
| Http2Exchange.ControlMeans | kernel/net/http2.rs:352-425 | by frame number: SETTINGS and PING are answered once unless they acknowledge, RST_STREAM and GOAWAY end the stream, the others change nothing |
| Http2.LateData | kernel/net/http2.rs:322-432 | data behind the end of the stream is kept when it comes with it and lost when it comes later |
| Http2.WindowsRefilled | kernel/net/http2.rs:380-404 | after any frames all data received but for less than the refill mark has been granted again on the stream and on the connection, and never a byte more |
| Http2.RunsRefill | kernel/net/http2.rs:322-432 | the same over every run, however the bytes were cut |
| Http2.UpdateReads | kernel/net/http2.rs:258-263 | the increment granted is the one the server reads |
| Calendar.YearOfEraExact | kernel/kcore/clock.rs:105-116 | the year formula is exact on every day of the 400-year era |
| Calendar.CivilExact | kernel/kcore/clock.rs:105-116 | for every day, before or after 1970, the closed form gives the valid date with that day number |
| Calendar.RoundTrip | kernel/kcore/clock.rs:104-116 | it and the date-to-day formula undo each other for every date and every day |
| Calendar.DaysExact | kernel/arch/x86_64/rtc.rs:169-177 | the date-to-day formula counts the days from 1 January 1970 for every valid date |
| Calendar.OneDate | kernel/net/ntp.rs:20-63 | a day has one date |
| Calendar.Format | kernel/net/ntp.rs:20-53 | the loops give the valid date and the time of day of the 32-bit day count |
| Calendar.FormatIsCivil | kernel/net/ntp.rs:20-53 | which is the closed form's date of that count |
| Calendar.AgreeExactly | kernel/net/ntp.rs:20-53 | for every 64-bit time the two stamps agree if and only if the day lies before the year 65536 |

## Left out

- TCP liveness: progress is claimed for one round trip without loss, not for whole runs, since a segment accepted in part stalls its connection; checksums, options, the push flag and the handshake's retries are not modelled.
- TcpSystem.TrueMeansAccepted: requires that no segment is released more than 2^31 past the last acknowledgement, which is exact for each release, and that acknowledgements are not 2^31 stale; `TcpLimits` shows what happens otherwise.
- Swapped-out pages in fork (they are skipped by the code), the flags of table entries above the last level, `unmap_page`, `mprotect` and `brk`: they change frames or areas outside the rules proved here.
- CowVmm.Vmm.Fork: requires that the 16-bit counters of the space's pages have room, and CowVmm.Vmm.Serve stops before such a fork; `CowModel.ShareCountedIff` says what is lost otherwise.
- CowVmm.Vmm.CloneItem: the same room is required, as it is in CowVmm.Vmm.CloneAll and CowVmm.Vmm.Do.
- Work stealing, several CPUs and the register switch: the scheduler is one CPU as a sequence of steps; vruntimes are unbounded, and in runs idle does not sleep or block.
- The elliptic-curve group law: `ScalarMul` is double-and-add over any doubling and addition.
- ElfLoader.AddressSpace.Load: frames that page tables take are not counted; whether the mapping of a new page is let through is an arbitrary function of the page.
- ElfLoader.Parse: program headers are taken as decoded records; the identification bytes and relocation, TLS and interpreter set-up are not modelled.
- VmaMap.VmaMap.Find: the fault and write-back paths are reduced to the protection and file offset they derive; reading and writing the file is not modelled.
- The emergency pool of the frame allocator: not modelled.
- SwapSlots.SwapState.SwapOut: device errors are not modelled; after one the code leaves the slot allocated. The entry keeps only flag bits 2 to 11.
- SwapSlots.SwapState.SwapOn: the magic and version of the header are taken as checked.
- SHA, HMAC, HKDF, the TLS handshake and certificates: not modelled.
- Gpt.Disk.Init: devices have at most 2^48 sectors; the only device error is a sector past the end, and the pseudo-random identifiers are parameters.
- Gpt.Disk.AddPartition: for a table made elsewhere whose copies overlap, only the answer and the sectors left alone are stated, as for Gpt.Disk.DeletePartition.
- HpackCode.DecodeBlock: the Huffman form and the check for UTF-8 are arbitrary functions; the table of the former repeats codes.
- Http2Exchange.UnderstoodIff: responses whose HEADERS frames carry padding or a priority are not among those described; the code gives such a payload to the header decoder as it is (`Http2.AddBlock` does the same).
- Http2.Receive: the idle limit, interruption and sending the request are left out; a run is the list of chunks that arrived.
- Boot, drivers, file systems other than the partition table, the shell and mikuD: input, output and bookkeeping.
