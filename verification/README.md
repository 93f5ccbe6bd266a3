# A verified model of the QEMU-to-HDL bridge

The bridge lets a guest running in QEMU drive a PCIe device that exists only as a hardware simulation.
QEMU and the simulator are two processes joined by FIFO sockets. A guest access to a BAR travels to the
simulator as one frame, becomes one AXI4 burst on the device, and comes back as one response that carries
no identifier that anyone checks. In the other direction the device's own AXI bursts and interrupts become
READ, WRITE and INTR frames on one queue that QEMU drains. A second bridge carries network packets as
AXI4-Stream beats. This project models those paths, from the C and SystemVerilog sources, and proves what
every run of them keeps.

## How the model is laid out

| file | what it models |
|---|---|
| `Bytes.dfy`, `Axi.dfy`, `Frames.dfy` | byte memories, buffers, strobe words; AXI4 INCR bursts as the AMBA AXI and ACE Protocol Specification (ARM IHI 0022, sections A3.4.1 and A3.4.3) defines them; the message struct |
| `Compaction.dfy` | `C_req_write` and its meaning in host memory |
| `ReadLanes.dfy` | the byte lanes of a device read, from request to beat |
| `MasterRead.dfy`, `MasterWrite.dfy`, `SlaveRead.dfy`, `SlaveWrite.dfy` | the four AXI engines: registers, one clock edge, and what a wire-level record says of every run |
| `Poll.dfy` | `log2c`, `C_poll` and the per-clock dispatch |
| `Host.dfy`, `Races.dfy` | `handle_hdl_request` and the posted-write queue; exactly which guest stores it tolerates |
| `Mmio.dfy`, `Dma.dfy` | the two directions as state machines with their invariants |
| `Cosim.dfy`, `Progress.dfy` | the whole co-simulation: any interleaving of guest, QEMU, clock, device and AXI slave |
| `Nic.dfy`, `Collector.dfy` | the network bridge: packet to beats, beats to packet, and the loop through both |
| `HwTable.dfy` | the hardware-table generator |
| `Msix.dfy` | taking and giving back MSI-X vectors |

Each clocked module appears as a class whose `Clock` method follows the source statement by statement, and as
a function (`Next`, `SourceNext`, `SinkNext`) that `Clock` is proved to compute. The four AXI engines are judged
against a record (`Mon`) kept from their handshakes alone, the NIC modules against the beats on their wires, and
the dispatcher against the accesses it is to present. A clock edge samples all values before the edge.
Bus widths are 8, 16, 32 and 64 bytes; the NIC lane count is anything from 1 to 64.

## Main results

* Every run of the co-simulation, for every interleaving, polling choice and delivery delay
  (`Cosim.dfy`): MMIO reads return what a flat memory holds (`MmioRefinesFlatMemory`); exactly one token
  is in flight for a blocked guest and none otherwise, so the unidentified response is the right one
  (`OneTokenEach`); device reads return what a memory changed at once by every completed burst holds,
  although writes are acknowledged before QEMU applies them, wherever no guest store disturbed the byte
  (`DmaRefinesAtomicMemory`); interrupts never
  overtake data (`InterruptsFollowData`); no step indexes or copies outside a buffer, whichever frame is
  drained or polled (`NeverUndefined`); and no
  reachable state is a dead end (`Progress.BlockedGuestReturns`, `Progress.WaitingReadServed`).
* Exact conditions, where the code does not do what an AXI neighbour may expect of it in every case. Each is an
  if-and-only-if over all inputs:
  * `C_req_write` always declares `(len+1) << width` bytes: the flat write is right exactly when the
    strobes mark that many bytes, that is, for an aligned start with every active lane strobed
    (`Compaction.CompactionExact`, `Compaction.CountMeansFullyStrobed`); otherwise stack residue can reach
    host memory.
  * A device read is presented at full bus stride: lanes are right exactly for full-width bursts, single
    beats, and two narrow beats that straddle a bus word (`ReadLanes.ReadLanesExact`).
  * `C_poll` copies the answer to a read from the first byte's lane on: for a read within a 4 KB page the copy
    stays in its buffer exactly when the start is aligned to the beat size or the beats end short of 4096
    bytes (`ReadLanes.AnswerCopyExact`); a page read from an odd address overruns it by a byte
    (`ReadLanes.PageReadOverruns`).
  * `axi4_s_w` keeps every beat at full bus stride: `C_req_write` finds all beats of a write in the buffers
    exactly when there are no more than 4096 / bus width of them (`SlaveWrite.StepKeepsInv`,
    `SlaveWrite.FitsInBytes`), which a legal narrow write can exceed (`SlaveWrite.NarrowWriteOverruns`).
  * `axi4_s_r` shows its last beat for one cycle: the beats due for each ARID and ARLEN are handed over
    exactly when RREADY is high whenever RVALID and RLAST are (`SlaveRead.BurstsDeliveredExactly`); any
    burst can lose its last beat (`SlaveRead.LastBeatLost`). It also raises RVALID only when it sees RREADY,
    which section A3.2.1 of ARM IHI 0022 forbids: a master that waits for RVALID waits for ever
    (`SlaveRead.WaitsForever`).
  * A READ in the queue is answered from host memory when it is drained: it is right for all data exactly
    when a guest store that is the last word on the byte at its push was made with no WRITE to the byte
    queued, and each later one with a WRITE to the byte queued ahead of it (`Races.PostedReadsExact`).
  * `axi4_m_w` advances on WREADY before its WVALID is visible: beats 0..len are handed over once each, in
    order, exactly when WREADY is high throughout, or low on the first edge and never high on two edges in
    a row (`MasterWrite.WriteBurstExact`); the address is handed over once exactly when AWREADY is seen in
    WRITE_DATA (`MasterWrite.AddressOnce`).
  * `axis_m` emits a packet correctly exactly when it is longer than one beat and its last beat is full or
    shorter than 32 bytes, because the keep word passes through a 32-bit int (`Nic.StreamExact`).
  * `axis_s` ignores a TLAST on a beat without bytes and holds 4096 bytes: it delivers the packets of a
    stream exactly when neither limit is met (`Collector.CollectorExact`).
  * `(len+1) * (1 << width)` inverts the size encoding exactly for powers of two up to the bus width
    (`Poll.EncodingInverts`).
* Deviations from documentation: the comment at `bridge-ip/nic_sim_bridge/hdl/axis_m.sv:80` asks for packets
  of more than 8 bytes, where the code needs more than one beat of whatever width; the comment at
  `acc.h:42` calls the transaction identifier unused, and no response is in fact matched by it.

What is assumed of the neighbours is spelt out as predicates.

* The AXI slave (`Mmio.SlaveCompliant`): data after address, `len+1` beats, active lanes carry its memory; in
  each burst a WREADY schedule of one of the two forms of `MasterWrite.WriteBurstExact`, which may differ from
  burst to burst, with nothing asked of WREADY between bursts; AWREADY no later than the last WRITE_DATA edge.
* The device (`Dma.DeviceCompliant`): legal beat sizes; writes of at most 4096 / bus width beats, narrow ones
  included, with full strobes; reads of one of the three shapes whose bytes, placed from the first byte's lane
  on, end within 4096; RREADY for last beats.
* The guest's accesses (`Mmio.LegalAccess`): 1, 2, 4 or 8 bytes, aligned on the bus.
* The guest's stores to its own memory: nothing. `Cosim.Clean` says of each device read and byte whether one
  disturbed it; that is exact (`Cosim.ReadIsCleanExactly`), cannot happen with a polite guest
  (`Cosim.PoliteIsClean`), and can happen otherwise (`Host.RaceBreaksAtomicity`).

## Model

| member | source | states |
|---|---|---|
| `Cosim.MmioRefinesFlatMemory` | accelerator_pcie.c:332-464 | in every run, a returning MMIO read yields the little-endian value, at its offset plus the offset of its BAR, of a flat memory in which each earlier write stored its low bytes at its own offset plus that of its BAR |
| `Cosim.BusAddress` | bridge-ip/QEMUPCIeBridge/hdl/dpi-pcie.c:169-187 | in every run, the burst the AXI slave accepts on AR or AW is one beat of the blocked access's size at its offset plus the offset of its BAR |
| `Cosim.BusAddressIsSum` | bridge-ip/QEMUPCIeBridge/hdl/dpi-pcie.c:169-169 | below 2^64 nothing of that sum is cut off |
| `Cosim.BarIsByteArray` | bridge-ip/QEMUPCIeBridge/hdl/dpi-pcie.c:163-208 | in every run whose writes keep to the windows of their BARs, a read through a BAR returns the little-endian value at its offset of a byte array that the writes through that BAR alone determine, each at its own offset |
| `Mmio.BarView` | bridge-ip/QEMUPCIeBridge/hdl/dpi-pcie.c:169-169 | each byte of the flat memory in a BAR's window is the byte of that array at its offset |
| `Mmio.SparesByOffset` | bridge-ip/QEMUPCIeBridge/hdl/dpi-pcie.c:169-169 | two accesses of one BAR spare each other exactly when their offset ranges are disjoint or neither writes there |
| `Cosim.ReadsBackWrites` | accelerator_pcie.c:332-464 | in every run, reading an address that was written, with no write to those bytes in between, returns the value written modulo 2^(8 * size) |
| `Mmio.ReadBack` | accelerator_pcie.c:344-453 | the same of the flat memory alone, after any accesses before and between |
| `Bytes.ToLEByte` | accelerator_pcie.c:344-344 | byte i of a value as it is copied into a frame is that of weight 256^i |
| `Cosim.DeviceMemoryIsFlat` | bridge-ip/QEMUPCIeBridge/hdl/dpi-pcie.c:163-208 | whenever the guest is not blocked, every byte behind the AXI slave is that flat memory's byte, so no write touched any other byte |
| `Cosim.OneTokenEach` | bridge-ip/QEMUPCIeBridge/hdl/axi4_ip_mod.sv:276-301 | in every reachable state, frames, pulses and busy master engines sum to 1 if the guest is blocked and 0 otherwise, a pulse meets idle engines, and one READ is in flight exactly while `axi4_s_r` waits for data |
| `Cosim.DmaRefinesAtomicMemory` | bridge-ip/QEMUPCIeBridge/hdl/axi4_s_w.sv:128-157 | in every run, each active lane of each R beat carries the byte a memory changed at once by every completed write burst held at the AR handshake, if no guest store disturbed that byte for that read |
| `Cosim.BeatIdentified` | bridge-ip/QEMUPCIeBridge/hdl/axi4_s_r.sv:100-131 | in every run, every R beat has the ARID of the read being served, and RLAST on its last beat only |
| `Cosim.ReadIsCleanExactly` | accelerator_pcie.c:517-536 | in every run, the condition on a READ about to be drained is exact: the host-side schedule of the run answers the byte right for all data if and only if no guest store disturbs it |
| `Cosim.PoliteIsClean` | accelerator_pcie.c:517-536 | it holds throughout a run in which the guest stores to the byte only while no queued frame touches it |
| `Cosim.NeverUndefined` | bridge-ip/QEMUPCIeBridge/hdl/dpi-pcie.c:141-223 | in every reachable state, whatever compliant neighbours do and whichever queued frame is drained or polled: the BAR index, the copies and the shift of `C_poll`, the beat indices of all four engines, the buffers handed to `C_req_write` and the frames QEMU reads and writes are within bounds |
| `Mmio.RequestPolls` | bridge-ip/QEMUPCIeBridge/hdl/dpi-pcie.c:163-208 | every request frame ever queued has a BAR in range, a full buffer and a size whose strobe shift fits an int |
| `Mmio.AlwaysInBounds` | bridge-ip/QEMUPCIeBridge/hdl/axi4_m_r.sv:110-114 | the master engines index their beat buffers within 4096 bytes |
| `Dma.ReplyPolls` | bridge-ip/QEMUPCIeBridge/hdl/dpi-pcie.c:209-219 | every reply ever queued fits the dispatcher's buffer from its lane on |
| `Dma.AlwaysInBounds` | bridge-ip/QEMUPCIeBridge/hdl/axi4_s_w.sv:130-136 | the slave engines index their beat and strobe buffers within bounds |
| `Cosim.InterruptsFollowData` | accelerator_pcie.c:488-547 | in every run, when an INTR frame is next, all frames pushed before it and no others have been handled: host memory is the initial memory changed by exactly their writes, in push order, and the run's guest stores, each where it stands; and its vector is the one the device raised next after those notified |
| `Cosim.InterruptsConserved` | bridge-ip/QEMUPCIeBridge/hdl/dpi-pcie.c:305-318 | in every reachable state, the vectors notified followed by those queued are exactly the vectors the device raised, in order |
| `Cosim.FramesIdentified` | bridge-ip/QEMUPCIeBridge/hdl/dpi-pcie.c:241-241 | an MMIO request carries the number of the access, a READ and its reply the ARID of the device read they serve |
| `Cosim.RunsTheLink` | accelerator_pcie.c:478-548 | every run of the whole system projects to a run of the posted-write queue, up to the replies already taken |
| `Progress.BlockedGuestReturns` | accelerator_pcie.c:368-376 | from every reachable state with a blocked guest, at most six clock edges with a cooperating slave bring its response, with no drain by QEMU |
| `Progress.WaitingReadServed` | bridge-ip/QEMUPCIeBridge/hdl/axi4_s_r.sv:111-132 | from every reachable state in which a device read waits, one drain per queued frame, one clock edge per beat and four more hand over all its ARLEN + 1 beats, given RREADY high without waiting for RVALID |
| `Mmio.ClockKeepsInv` | bridge-ip/QEMUPCIeBridge/hdl/axi4_ip_mod.sv:276-301 | one clock edge with any compliant slave and polling choice keeps the MMIO invariant: the token carries the blocked access wherever it is |
| `Mmio.TokensStep` | bridge-ip/QEMUPCIeBridge/hdl/axi4_m_w.sv:162-166 | an edge moves the token at most one place and never loses or duplicates it |
| `Mmio.IssueKeepsInv` | accelerator_pcie.c:336-363 | sending a request keeps the invariant and changes the flat memory by the access |
| `Mmio.ReturnKeepsInv` | accelerator_pcie.c:425-464 | receiving a response keeps the invariant; for a read the value is the flat memory's |
| `Mmio.DispatchAccess` | bridge-ip/QEMUPCIeBridge/hdl/dpi-pcie.c:163-208 | polling the frame of an access presents exactly that access: translated address, one beat, size code, strobes and bytes in their lanes |
| `Mmio.WriteBeatStores` | bridge-ip/QEMUPCIeBridge/hdl/axi4_m_w.sv:126-146 | the single strobed beat stores the value's bytes at the address and nothing else, whatever the other lanes carry |
| `Mmio.ReadBeatLoads` | bridge-ip/QEMUPCIeBridge/hdl/dpi-pcie.c:250-262 | the bytes un-shifted by `C_resp_read` are the bytes at the address, whatever the other lanes carry |
| `Mmio.AlignedBars` | bridge-ip/QEMUPCIeBridge/hdl/dpi-pcie.c:169-174 | guest-aligned accesses are bus-aligned for all sizes if and only if the BAR's offset is a multiple of 8 |
| `Mmio.BarsIndependent` | bridge-ip/QEMUPCIeBridge/hdl/dpi-pcie.c:169-169 | writes through one BAR leave another alone if and only if their bus windows are disjoint |
| `Dma.ClockKeepsInv` | bridge-ip/QEMUPCIeBridge/hdl/axi4_s_r.sv:98-146 | one clock edge with any compliant device keeps the DMA invariant, including that a queued READ will meet the memory its AR saw |
| `Dma.WritePushed` | bridge-ip/QEMUPCIeBridge/hdl/axi4_s_w.sv:168-173 | the frame pushed on the last W beat does to any memory what the collected beats do |
| `Dma.BeatShowsSnapshot` | bridge-ip/QEMUPCIeBridge/hdl/axi4_s_r.sv:117-131 | an active lane of the beat on R shows the snapshot taken at the AR |
| `Dma.DrainKeepsInv` | accelerator_pcie.c:517-546 | draining a frame keeps the DMA invariant |
| `Host.PostedReadsAreAtomic` | accelerator_pcie.c:517-536 | in every interleaving of pushes, drains and guest stores, a READ answers each byte with what the atomic memory held when it was pushed, if the guest did not race on that byte |
| `Host.RaceBreaksAtomicity` | accelerator_pcie.c:531-536 | a guest store to a byte with a write to it still queued is overwritten on drain, so the later READ differs from the atomic memory |
| `Races.PostedReadsExact` | accelerator_pcie.c:517-536 | in every interleaving, the READ drained next answers a byte as the atomic memory had it at the push, for all data carried and all initial memories, if and only if no guest store disturbs it: the last word at the push was stored with no WRITE to the byte queued, later stores with one queued ahead |
| `Races.RightMeansSameTag` | accelerator_pcie.c:517-536 | being right for all data means that the event whose data the byte shows is the one the atomic memory shows |
| `Races.SameTagMeansNoRace` | accelerator_pcie.c:488-547 | those two events are the same exactly when no guest store disturbs the READ |
| `Races.TagsTrue` | accelerator_pcie.c:488-547 | following a byte by the event that determined it gives its value in host memory, in the atomic memory and in the queue |
| `Races.UndisturbedHead` | accelerator_pcie.c:517-523 | an undisturbed READ meets in host memory the atomic byte of its push |
| `Races.PoliteMeansNoRace` | accelerator_pcie.c:517-536 | a guest that stores to a byte only while no queued frame touches it disturbs no READ of it |
| `Host.StepKeepsInvAt` | accelerator_pcie.c:488-547 | each push, drain or polite guest store keeps: memory with the queue folded over it is the atomic memory |
| `Host.HistoryFields` | accelerator_pcie.c:488-511 | frames are drained in push order, each once |
| `Host.InterruptsFollowData` | accelerator_pcie.c:537-541 | the interrupt ordering law for the queue alone, with host memory changed by exactly the history of the run |
| `Host.OpsAreHistory` | accelerator_pcie.c:488-547 | the changes made to host memory are those the event sequence calls for: the k-th drain applies the k-th frame pushed, guest stores happen where they stand |
| `Host.Device.HandleHdlRequest` | accelerator_pcie.c:478-548 | afterwards the queue is empty, memory has every queued WRITE in order, every READ was answered from the memory the WRITEs before it left, and every vector was notified |
| `Host.AnswersExact` | accelerator_pcie.c:518-530 | there is one reply for each READ of a queue, in order, and it holds what the frames before that READ leave in memory |
| `Host.VectorsExact` | accelerator_pcie.c:537-541 | there is one notification for each INTR of a queue, in order, with its vector |
| `Host.PendingLast` | accelerator_pcie.c:531-536 | a byte written by a queue of frames ends as the last WRITE to it says |
| `Host.PendingUnwritten` | accelerator_pcie.c:531-536 | any other byte ends as it was |
| `Host.DrainedInTurn` | accelerator_pcie.c:488-547 | draining the frames one at a time, as the steps of a run do, adds up to the same |
| `Host.Device.constructor` | accelerator_pcie.c:478-484 | the device starts with empty sockets and nothing notified |
| `Compaction.CompactStrobed` | bridge-ip/QEMUPCIeBridge/hdl/dpi-pcie.c:289-296 | the nested loop leaves the strobed bytes in ascending beat and lane order in the frame, the rest of the frame as it was, and each used strobe word shifted out |
| `Compaction.GatherExact` | bridge-ip/QEMUPCIeBridge/hdl/dpi-pcie.c:291-295 | whatever the strobes, each strobed lane's byte lands after those of the strobed lanes below it, and nothing else is taken |
| `Bytes.BitMeans` | bridge-ip/QEMUPCIeBridge/hdl/dpi-pcie.c:292-294 | testing bit 0 after j shifts is testing bit j |
| `Compaction.CompactBeat` | bridge-ip/QEMUPCIeBridge/hdl/dpi-pcie.c:291-295 | the inner loop, for one beat, with all indices in bounds |
| `Compaction.RequestWrite` | bridge-ip/QEMUPCIeBridge/hdl/dpi-pcie.c:276-303 | the frame sent: declared size, address, opcode and compacted bytes over the residue |
| `Compaction.CompactionExact` | bridge-ip/QEMUPCIeBridge/hdl/dpi-pcie.c:281-296 | the flat host write equals the beat-by-beat AXI write for every residue if and only if the strobes mark as many bytes as declared |
| `Compaction.CountMeansFullyStrobed` | bridge-ip/QEMUPCIeBridge/hdl/dpi-pcie.c:281-281 | that condition is an aligned start with every active lane strobed |
| `Compaction.ResidueLeaks` | bridge-ip/QEMUPCIeBridge/hdl/dpi-pcie.c:283-287 | with fewer strobed bytes than declared, some residue puts a wrong byte into host memory |
| `ReadLanes.ReadLanesExact` | bridge-ip/QEMUPCIeBridge/hdl/axi4_s_r.sv:117-131 | on the R channel, after `C_req_read`, QEMU's fill, `C_poll`'s copy and the slicing, each active lane of each beat carries the host byte at its own AXI address, for every memory and stale buffer, if and only if the burst has one of three shapes |
| `ReadLanes.BeatFromFill` | bridge-ip/QEMUPCIeBridge/hdl/dpi-pcie.c:209-222 | a beat on the R channel is a slice of the old buffer with the burst's host bytes placed from the first byte's lane on |
| `ReadLanes.AnswerCopyExact` | bridge-ip/QEMUPCIeBridge/hdl/dpi-pcie.c:213-219 | for a read within a 4 KB page, the copy of the answer stays in the buffer if and only if the start is aligned to the beat size or the beats end short of the buffer's end |
| `ReadLanes.PageReadOverruns` | bridge-ip/QEMUPCIeBridge/hdl/dpi-pcie.c:217-219 | a page read from address 1 on a 64-byte bus is legal and well shaped, and overruns the buffer |
| `ReadLanes.ActiveInWindow` | bridge-ip/QEMUPCIeBridge/hdl/dpi-pcie.c:209-222 | for those shapes beat i is the i-th bus word and its active lanes lie where `C_poll` copied the reply |
| `SlaveRead.Engine.Clock` | bridge-ip/QEMUPCIeBridge/hdl/axi4_s_r.sv:83-174 | one edge of the module computes `Next`, and says when `C_req_read` fires |
| `SlaveRead.Engine.constructor` | bridge-ip/QEMUPCIeBridge/hdl/axi4_s_r.sv:150-162 | the reset state |
| `SlaveRead.BurstsDeliveredExactly` | bridge-ip/QEMUPCIeBridge/hdl/axi4_s_r.sv:98-146 | over every run, `C_req_read` fires once per accepted AR, and the beats handed over (with those held) are, for each accepted AR in turn, beats 0..ARLEN of its reply with its ARID and RLAST on the last only, if and only if RREADY is high whenever RVALID and RLAST are |
| `SlaveRead.LastBeatLost` | bridge-ip/QEMUPCIeBridge/hdl/axi4_s_r.sv:100-102 | for every burst there is a run that hands over all its beats but the last and comes to rest |
| `SlaveRead.StepKeepsInv` | bridge-ip/QEMUPCIeBridge/hdl/axi4_s_r.sv:98-133 | one edge conserves beats: due are those handed over, those held and one for each last beat refused |
| `SlaveRead.InvAlways` | bridge-ip/QEMUPCIeBridge/hdl/axi4_s_r.sv:98-133 | conservation of beats over every run, with each loss accounted for |
| `SlaveRead.BeatAt` | bridge-ip/QEMUPCIeBridge/hdl/axi4_s_r.sv:120-122 | beat k of a burst is the k-th slice of the buffer, with RLAST on the last |
| `SlaveRead.StallHolds` | bridge-ip/QEMUPCIeBridge/hdl/axi4_s_r.sv:117-118 | a stalled intermediate beat stays on the bus unchanged |
| `SlaveRead.WaitsForever` | bridge-ip/QEMUPCIeBridge/hdl/axi4_s_r.sv:117-119 | with the data ready and no beat shown, a master that raises RREADY only on RVALID and the engine wait for each other for ever |
| `SlaveWrite.Engine.Clock` | bridge-ip/QEMUPCIeBridge/hdl/axi4_s_w.sv:91-219 | one edge of the module computes `Next`, and says when `C_req_write` fires |
| `SlaveWrite.Engine.constructor` | bridge-ip/QEMUPCIeBridge/hdl/axi4_s_w.sv:185-203 | the reset state |
| `SlaveWrite.EveryBurstOnce` | bridge-ip/QEMUPCIeBridge/hdl/axi4_s_w.sv:113-173 | over every run and every AWLEN, exactly one of AWREADY, WREADY, BVALID is high, each AW leads to one call of `C_req_write` and one B |
| `SlaveWrite.StepKeepsInv` | bridge-ip/QEMUPCIeBridge/hdl/axi4_s_w.sv:128-149 | the buffers are the accepted beats as far as they reach, `C_req_write` fires on the last accepted beat, and it finds all of them within the buffers if and only if the burst fits |
| `SlaveWrite.FitsInBytes` | bridge-ip/QEMUPCIeBridge/hdl/axi4_s_w.sv:132-136 | a burst fits exactly when its beats at full bus stride fill no more than 4096 bytes |
| `SlaveWrite.NarrowWriteOverruns` | bridge-ip/QEMUPCIeBridge/hdl/axi4_s_w.sv:132-136 | 256 single bytes on a 64-byte bus are a legal burst that does not fit |
| `SlaveWrite.FullWidthFits` | bridge-ip/QEMUPCIeBridge/hdl/axi4_s_w.sv:132-136 | every full-width write within a 4 KB page fits |
| `SlaveWrite.Engine.TakeBeat` | bridge-ip/QEMUPCIeBridge/hdl/axi4_s_w.sv:128-149 | the WRITE_DATA branch |
| `SlaveWrite.ResponseHeld` | bridge-ip/QEMUPCIeBridge/hdl/axi4_s_w.sv:151-157 | B stays up with its id and an OKAY response until BREADY |
| `MasterRead.Engine.Clock` | bridge-ip/QEMUPCIeBridge/hdl/axi4_m_r.sv:78-173 | one edge of the module computes `Next`, and says when `C_resp_read` fires |
| `MasterRead.Engine.constructor` | bridge-ip/QEMUPCIeBridge/hdl/axi4_m_r.sv:145-159 | the reset state |
| `MasterRead.StepKeepsInv` | bridge-ip/QEMUPCIeBridge/hdl/axi4_m_r.sv:106-140 | against a compliant slave the buffer holds the beats in order, the counter stays within the length, and the answer is for the request being served with all its beats |
| `MasterRead.EveryRequestOnce` | bridge-ip/QEMUPCIeBridge/hdl/axi4_m_r.sv:92-140 | over every run each request has one AR handshake and one call of `C_resp_read`, except the one being served |
| `MasterWrite.Engine.Clock` | bridge-ip/QEMUPCIeBridge/hdl/axi4_m_w.sv:92-209 | one edge of the module computes `Next`, and says when `C_resp_write` fires |
| `MasterWrite.Engine.PresentBeat` | bridge-ip/QEMUPCIeBridge/hdl/axi4_m_w.sv:126-146 | the WRITE_DATA branch |
| `MasterWrite.Engine.constructor` | bridge-ip/QEMUPCIeBridge/hdl/axi4_m_w.sv:171-191 | the reset state |
| `MasterWrite.WriteBurstExact` | bridge-ip/QEMUPCIeBridge/hdl/axi4_m_w.sv:126-154 | over the edges of one burst of any length, the W handshakes are beats 0..len in order with full strobes and WLAST on the last only, for every payload, if and only if the WREADY schedule has one of two forms |
| `MasterWrite.AddressOnce` | bridge-ip/QEMUPCIeBridge/hdl/axi4_m_w.sv:126-129 | the address is handed over once and AWVALID drops if and only if AWREADY is seen in WRITE_DATA |
| `MasterWrite.AddressStuck` | bridge-ip/QEMUPCIeBridge/hdl/axi4_m_w.sv:148-154 | missed there, AWVALID stays up and every later AWREADY repeats the handshake |
| `MasterWrite.StepKeepsInv` | bridge-ip/QEMUPCIeBridge/hdl/axi4_m_w.sv:110-166 | a response is sent only when the slave has the address once and exactly the request's beats in order |
| `MasterWrite.RuleIsExact` | bridge-ip/QEMUPCIeBridge/hdl/axi4_m_w.sv:126-154 | the WREADY rule asked of a slave within a burst holds over the burst's edges if and only if the schedule is one of the two forms of `WriteBurstExact` |
| `MasterWrite.EveryRequestOnce` | bridge-ip/QEMUPCIeBridge/hdl/axi4_m_w.sv:110-166 | over every run against a slave that keeps the rule in each burst, in either form and changing freely, each request is addressed once and answered by one call of `C_resp_write`, except the one being served |
| `Poll.Log2c` | bridge-ip/QEMUPCIeBridge/hdl/dpi-pcie.c:49-54 | the shift loop computes the rounded-up logarithm |
| `Poll.Log2Least` | bridge-ip/QEMUPCIeBridge/hdl/dpi-pcie.c:49-54 | the result is the least n with x <= 2^n |
| `Poll.PowerTest` | bridge-ip/QEMUPCIeBridge/hdl/dpi-pcie.c:50-50 | x & (x - 1) is zero exactly for powers of two |
| `Poll.AxiLenLeast` | bridge-ip/QEMUPCIeBridge/hdl/dpi-pcie.c:175-177 | the length code is the least one whose beats hold the size |
| `Poll.EncodingInverts` | bridge-ip/QEMUPCIeBridge/hdl/dpi-pcie.c:234-234 | the request functions' size formula recovers the encoded size if and only if it is a power of two up to the bus width |
| `Poll.Dispatcher.Clock` | bridge-ip/QEMUPCIeBridge/hdl/axi4_ip_mod.sv:276-301 | one edge polls and registers the pulse asked for, computing `Next`; a request on the init socket is answered with the configuration and raises none |
| `Poll.RequestPresented` | bridge-ip/QEMUPCIeBridge/hdl/dpi-pcie.c:163-190 | a request of any size is presented at its offset plus its BAR's, with the least length whose beats hold it, the least size code whose beats are as large, and the pulse of its kind |
| `Poll.WritePresented` | bridge-ip/QEMUPCIeBridge/hdl/dpi-pcie.c:192-202 | a write of any size is presented with exactly its lanes strobed and its bytes in them |
| `Poll.ReplyPresented` | bridge-ip/QEMUPCIeBridge/hdl/dpi-pcie.c:209-222 | a reply raises its own pulse and puts its bytes from its address's lane on, leaving the others |
| `Poll.Dispatcher.TakeRequest` | bridge-ip/QEMUPCIeBridge/hdl/dpi-pcie.c:163-208 | the branch of `C_poll` for a frame from QEMU |
| `Poll.Dispatcher.PlaceWrite` | bridge-ip/QEMUPCIeBridge/hdl/dpi-pcie.c:196-199 | `(1 << size) - 1`, shifted up by the lane offset, strobes exactly the lanes of the access; those lanes carry the frame's bytes and the lanes below keep what they held |
| `Bytes.ShiftedMask` | bridge-ip/QEMUPCIeBridge/hdl/dpi-pcie.c:196-197 | the word C computes with two shifts is the one with exactly those bits set |
| `Poll.Dispatcher.constructor` | bridge-ip/QEMUPCIeBridge/hdl/axi4_ip_mod.sv:276-279 | the state before the first poll |
| `Nic.AxisM.Clock` | bridge-ip/nic_sim_bridge/hdl/axis_m.sv:61-140 | one edge of the module computes `SourceNext`, and `busy` |
| `Nic.AxisM.constructor` | bridge-ip/nic_sim_bridge/hdl/axis_m.sv:126-139 | the reset state |
| `Nic.AxisS.Clock` | bridge-ip/nic_sim_bridge/hdl/axis_s.sv:56-108 | one edge of the module computes `SinkNext`, and says when `C_send_packet` fires |
| `Nic.AxisS.AppendKept` | bridge-ip/nic_sim_bridge/hdl/axis_s.sv:73-78 | the loop over TKEEP bits appends exactly the kept bytes, in lane order |
| `Nic.AxisS.constructor` | bridge-ip/nic_sim_bridge/hdl/axis_s.sv:99-107 | the reset state |
| `Nic.KeepSurvives` | bridge-ip/nic_sim_bridge/hdl/dpi-nic.c:97-106 | the last keep word marks exactly the last beat's bytes after the 32-bit int, if and only if the beat is full or shorter than 32 bytes |
| `Nic.BeatBytes` | bridge-ip/nic_sim_bridge/hdl/axis_m.sv:91-116 | the kept bytes of each beat are the packet's bytes at that offset |
| `Nic.StreamExact` | bridge-ip/nic_sim_bridge/hdl/axis_m.sv:71-117 | a packet polled from QEMU leaves on axis_m's wires as one stream packet with its bytes and TLAST on the final beat only, if and only if it is longer than one beat and its keep word survives; axis_m is at rest afterwards in any case |
| `Nic.EmitsStream` | bridge-ip/nic_sim_bridge/hdl/axis_m.sv:71-117 | over the len + 2 edges after a request, whatever the request registers hold meanwhile, the beats on the wires are beats 0..len of the request, one per edge |
| `Nic.NoLossNoDuplication` | bridge-ip/nic_sim_bridge/hdl/qemu_nic_bridge.sv:125-129 | over every run of the looped bridge, packets out are packets in, in order and byte for byte, followed by at most one inside and those queued |
| `Nic.EverythingDelivered` | bridge-ip/nic_sim_bridge/hdl/qemu_nic_bridge.sv:125-129 | from every reachable state, a stated number of edges (for each frame one to start and one per beat, less what is done, and one for a first poll) hands back every packet handed in |
| `Nic.EdgeCloser` | bridge-ip/nic_sim_bridge/hdl/axis_m.sv:71-117 | with the poller seeing the queue, each edge lowers that number by exactly one |
| `Nic.TickKeepsInv` | bridge-ip/nic_sim_bridge/hdl/axis_m.sv:61-118 | one edge of the looped bridge neither loses nor repeats a packet, back-to-back packets included |
| `Collector.CollectorExact` | bridge-ip/nic_sim_bridge/hdl/axis_s.sv:66-97 | over every stream with any gaps, the packets sent to QEMU are the stream's packets if and only if each TLAST has a byte and no packet exceeds 4096 bytes |
| `Collector.HoldsUnfinished` | bridge-ip/nic_sim_bridge/hdl/axis_s.sv:71-85 | the buffer and size are the packet collected so far, and what is sent is the packet cut to the buffer |
| `HwTable.Generate` | platform/riscv_test_sume/hw_table_generator/hw_table_config_parser.py:12-94 | the script writes the preamble and the printed words of header and sections in group order, and nothing without a project section |
| `HwTable.Classify` | platform/riscv_test_sume/hw_table_generator/hw_table_config_parser.py:26-32 | each group is every section whose name has its prefix, once, in file order |
| `HwTable.GroupExact` | platform/riscv_test_sume/hw_table_generator/hw_table_config_parser.py:26-32 | the group stands at the increasing list of exactly those places of the file |
| `HwTable.WriteHeader` | platform/riscv_test_sume/hw_table_generator/hw_table_config_parser.py:34-45 | the four header words |
| `HwTable.PackSection` | platform/riscv_test_sume/hw_table_generator/hw_table_config_parser.py:49-58 | where each field of the section, cut to its width, stands in the two words, which kind code the first has, and that the unused bits are zero |
| `HwTable.WriteGroup` | platform/riscv_test_sume/hw_table_generator/hw_table_config_parser.py:48-76 | four lines per section, appended |
| `HwTable.WritePeripherals` | platform/riscv_test_sume/hw_table_generator/hw_table_config_parser.py:78-94 | the same, with no comma after the very last word |
| `HwTable.Hex8Exact` | platform/riscv_test_sume/hw_table_generator/hw_table_config_parser.py:3-7 | a word prints in exactly eight digits if and only if it is below 2^32, nothing but digits is printed, and they determine it |
| `HwTable.BaseFields` | platform/riscv_test_sume/hw_table_generator/hw_table_config_parser.py:49-55 | the added fields never carry into one another and fit 32 bits |
| `HwTable.UnpackInverts` | platform/riscv_test_sume/hw_table_generator/hw_table_config_parser.py:49-61 | every field of a section can be read back |
| `HwTable.TableDecodes` | platform/riscv_test_sume/hw_table_generator/hw_table_config_parser.py:17-94 | with 32-bit offsets, reading the whole file back gives the project, the number of sections modulo 256 and, entry by entry, the sections named dma, then mem, then peri, each group at its places of the file in order, every field cut to its width |
| `HwTable.BodyLayout` | platform/riscv_test_sume/hw_table_generator/hw_table_config_parser.py:42-94 | the file has 4 + 4n lines of eight digits; every line but the last ends in a comma, the last only without peripherals |
| `HwTable.TableDetermines` | platform/riscv_test_sume/hw_table_generator/hw_table_config_parser.py:26-94 | equal files mean equal tables |
| `Msix.Device.Use` | accelerator_pcie.c:258-277 | succeeds exactly for counts up to the table size; success raises each count in [0, num) by one, failure leaves all counts as they were |
| `Msix.Device.Unuse` | accelerator_pcie.c:248-256 | lowers each used count in [0, num) by one |
| `Msix.Device.Init` | accelerator_pcie.c:294-312 | QEMU exits exactly when `msix_init` failed; otherwise MSI-X is present afterwards exactly when all vectors were taken |
| `Msix.Device.Cleanup` | accelerator_pcie.c:314-324 | gives the vectors back only if MSI-X is present |
| `Msix.Device.Lifetime` | accelerator_pcie.c:279-324 | initialisation followed by cleanup restores every count, for every table and number, unless QEMU exits in between with nothing taken |
| `Msix.Device.constructor` | accelerator_pcie.c:279-282 | the state before initialisation |

## Left out

- Sockets, pollers, ports and environment variables: each PUSH/PULL pair is a reliable FIFO, and a poller may report any non-empty socket or none.
- QEMU's side of the start-up exchange: the device configuration is a constant of every run, and `C_poll` answers a request for it.
- Failed or short receives in the callbacks and the drain loop: a reliable FIFO of whole frames has none.
- Logging, log levels, transaction identifiers in messages, and the warning timeout.
- QEMU's object model, realize and exit plumbing, and the registration of network and character devices.
- QEMU's memory and MSI-X internals: a byte memory, a log of notified vectors and a use counter per vector.
- A callback that blocks: sending the request and receiving the response are two events, with anything in between; that QEMU cannot drain while it is blocked is not used, so the results hold with or without it.
- SystemVerilog scheduling races, unknown values, clock generation and reset pulses: every block samples values before the edge, from the reset state. Two requests made at one edge may be sent in either order.
- `axi4_s_i.sv`: its one-hot decode is a finite case table; an interrupt request is an event of its own.
- The UART bridge, board wrappers, build and launch scripts: forwarding and configuration that would only add easy members.
- Device bursts outside `Dma.DeviceCompliant` at system level: the engine and lane theorems say exactly what goes wrong with them, the theorems about whole runs exclude them.
- Cosim.ReadIsCleanExactly: the data it ranges over are those of the host-side events of a run; that each choice of them comes from device beats of another run is not shown.
- FIXED and WRAP bursts, and bus widths other than 8, 16, 32 and 64 bytes.
- Poll.Dispatcher.TakeRequest: writes of more than 30 bytes, on which the strobe shift overflows an int in C, are outside its precondition; `Cosim.NeverUndefined` shows that none is ever polled.
- Nic.StreamExact: packets of zero bytes, whose beat count wraps around, and packets over 4096 bytes, whose copy leaves its buffer, are not modelled. `axis_m` does not look at TREADY, so the stream's receiver is one that always accepts, as `axis_s` does.
- Collector.CollectorExact: QEMU's copy of a packet whose size exceeds the buffer is modelled as the whole buffer, where the C code reads past it.
- Reset values of data registers, and the beat counter of `axis_s`, which drives nothing: modelled, with nothing said about them beyond the reset state.
- HwTable.Generate: missing keys, unreadable numbers and negative offsets, which stop the script or print a sign, are not modelled; fields are given as integers.
