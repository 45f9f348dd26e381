// The update engine (updateCore.c): the per-sector and per-packet
// acknowledge state, the erase and write scans that decide what is sent
// next, the handling of the receiver's acknowledgements, and the update
// loop driving them until everything is erased and written.
//
// Each scan of the source is a loop over the sectors or packets whose body
// reads and writes the arrays and may send one command. The model states
// one pass of such a loop as a step function on the values of the arrays
// (EraseStep, FreshStep, RetryStep), the whole loop as the fold of that
// step (EraseFrom, FreshFrom, RetryFrom), and proves the class's methods
// equal to the folds; what the protocol promises is proved about the folds.
module UpdateCore {
  import opened Bytes
  import opened UbxMsg
  import opened Flash
  import opened Platform
  import opened Receiver

  const PACKETSIZE: nat := 512
  const ERASE_TIMEOUT: nat := 12000
  const CRC_TIMEOUT: nat := 3000
  const ERASE_RETRIES: nat := 4
  const WRITE_RETRIES: nat := 4
  const WRITE_TIMEOUT: nat := 3000
  const CHIP_ERASE_TIMEOUT: nat := 45000
  const FLASH_BASE: u32 := 0x0080_0000
  const RAM_BASE: u32 := 0x0080_0000
  const MAX_PENDING_ERASES: nat := 2

  /** ACK_STATE_t ('.', 'e', 'E', 'w', 'W'); ACK_UNKNOWN is never stored. */
  datatype AckState = Init | EraseSent | EraseAck | WriteSent | WriteAck

  /** The entries of the state, timeout and retry arrays at one index. */
  datatype Slot = Slot(state: AckState, deadline: nat, retries: byte)

  /** The fields of UPD_CORE_t that the update changes. */
  datatype Core = Core(sectors: seq<Slot>, packets: seq<Slot>,
                       pendingErases: u32, pendingWrites: u32,
                       erasedUntil: nat, writtenUntil: nat,
                       eraseInProgress: bool)

  /** What the scans read but do not change: the flash organisation, the
      firmware base, the image, the write queue depth, and the clock. */
  datatype Env = Env(blocks: seq<Block>, fwBase: u32, image: seq<byte>,
                     maxPendingWrites: u32, now: nat)

  /** The link as writes see it: what went out so far and how much each of
      the next writes accepts. */
  datatype Wire = Wire(sent: seq<seq<byte>>, limits: seq<nat>)

  /** One write of f: the driver takes what its next limit allows. */
  function Transmit(w: Wire, f: seq<byte>): (r: Wire)
    ensures |r.sent| == |w.sent| + 1 && r.sent[..|w.sent|] == w.sent
    ensures r.sent[|w.sent|] <= f
  {
    Wire(w.sent + [f[..Allowance(w.limits, |f|)]], Later(w.limits))
  }

  /** rcvSendMessage's verdict on f: the driver took all of it. */
  predicate Accepted(w: Wire, f: seq<byte>)
  {
    Allowance(w.limits, |f|) == |f|
  }

  /** The outcome of one pass of a scan: whether the scan stops there,
      whether it still succeeds, updEraseSector's and updWritePacket's
      foundLast flag, and the new state. */
  datatype Step = Step(stop: bool, ok: bool, found: bool, core: Core, wire: Wire)

  /** The outcome of a whole scan: its BOOL result and the new state. */
  datatype Round = Round(ok: bool, core: Core, wire: Wire)

  /** The array lengths, which no scan or handler changes. */
  predicate SameShape(c: Core, d: Core)
  {
    |c.sectors| == |d.sectors| && |c.packets| == |d.packets|
  }

  // ---------------------------------------------------------------------
  // Commands
  // ---------------------------------------------------------------------

  /** UPD-ERASE for the sector starting at packet: its address
      FwBase + Packet * PACKETSIZE in U4 arithmetic. */
  function EraseFrame(fwBase: u32, packet: nat): seq<byte>
  {
    Frame(CLASS_UPD, UPD_ERASE, EncodeLE32(ToU32(fwBase + packet * PACKETSIZE)))
  }

  /** The image is small enough for U4 sizes, and every packet starts
      inside it (NumberPackets is at most ImageSize / PACKETSIZE rounded
      up), as the caller in update.c arranges. */
  predicate ImageFits(image: seq<byte>, numberPackets: nat)
  {
    |image| + PACKETSIZE <= U32_MOD && numberPackets * PACKETSIZE < |image| + PACKETSIZE
  }

  /** updSendWrite's WriteSize: a whole packet unless the image ends
      before (Packet + 1) * PACKETSIZE, compared in U4 arithmetic. */
  function WriteSize(size: nat, p: nat): nat
    requires p * PACKETSIZE <= size
  {
    if size < ToU32((p + 1) * PACKETSIZE) then size - p * PACKETSIZE else PACKETSIZE
  }

  lemma PacketInImage(image: seq<byte>, np: nat, p: nat)
    requires ImageFits(image, np) && p < np
    ensures p * PACKETSIZE < |image| && (p + 1) * PACKETSIZE < U32_MOD
  {
    assert (p + 1) * PACKETSIZE <= np * PACKETSIZE;
  }

  /** The size is min(PACKETSIZE, ImageSize - p * PACKETSIZE), never 0. */
  lemma WriteSizeIsMin(size: nat, p: nat)
    requires p * PACKETSIZE < size && size + PACKETSIZE <= U32_MOD
    ensures WriteSize(size, p) == Min(PACKETSIZE, size - p * PACKETSIZE)
    ensures 0 < WriteSize(size, p) <= PACKETSIZE
  {
    assert (p + 1) * PACKETSIZE == p * PACKETSIZE + PACKETSIZE;
    assert ToU32((p + 1) * PACKETSIZE) == (p + 1) * PACKETSIZE;
  }

  /** updSendWrite's payload for packet p: the target address, the size,
      then the packet's bytes of the image. */
  function WritePayload(fwBase: u32, image: seq<byte>, p: nat): seq<byte>
    requires p * PACKETSIZE < |image| && |image| + PACKETSIZE <= U32_MOD
  {
    WriteSizeIsMin(|image|, p);
    var n := WriteSize(|image|, p);
    var start := p * PACKETSIZE;
    EncodeLE32(ToU32(fwBase + start)) + EncodeLE32(n) + image[start..start + n]
  }

  /** UPD-FLWRI for packet p. */
  function WriteFrame(fwBase: u32, image: seq<byte>, p: nat): seq<byte>
    requires p * PACKETSIZE < |image| && |image| + PACKETSIZE <= U32_MOD
  {
    Frame(CLASS_UPD, UPD_FLWRI, WritePayload(fwBase, image, p))
  }

  /** The payload of a write is [address LE32][n LE32][n image bytes] with
      n = min(512, ImageSize - p * 512). */
  lemma WritePayloadLayout(fwBase: u32, image: seq<byte>, p: nat)
    requires p * PACKETSIZE < |image| && |image| + PACKETSIZE <= U32_MOD
    ensures var pl := WritePayload(fwBase, image, p);
            var n := Min(PACKETSIZE, |image| - p * PACKETSIZE);
            |pl| == n + 8
            && LE32At(pl, 0) == ToU32(fwBase + p * PACKETSIZE)
            && LE32At(pl, 4) == n
            && pl[8..] == image[p * PACKETSIZE..p * PACKETSIZE + n]
  {
    WriteSizeIsMin(|image|, p);
    var n := WriteSize(|image|, p);
    var start := p * PACKETSIZE;
    var a := EncodeLE32(ToU32(fwBase + start));
    var b := EncodeLE32(n);
    var d := image[start..start + n];
    LE32OfWritten([], ToU32(fwBase + start), b + d);
    assert [] + a + (b + d) == a + b + d;
    LE32OfWritten(a, n, d);
    assert (a + b + d)[8..] == d;
  }

  /** A write frame is an UPD-FLWRI frame of n + 16 bytes carrying that
      payload, which the scan accepts. */
  lemma WriteFrameLayout(fwBase: u32, image: seq<byte>, p: nat)
    requires p * PACKETSIZE < |image| && |image| + PACKETSIZE <= U32_MOD
    ensures var f := WriteFrame(fwBase, image, p);
            |f| == Min(PACKETSIZE, |image| - p * PACKETSIZE) + 16
            && ValidFrameAt(f, 0) && f[2] == CLASS_UPD && f[3] == UPD_FLWRI
            && Payload(f, 0) == WritePayload(fwBase, image, p)
  {
    var pl := WritePayload(fwBase, image, p);
    WritePayloadLayout(fwBase, image, p);
    CreatedFrameChecks(CLASS_UPD, UPD_FLWRI, pl);
    FramePayload(CLASS_UPD, UPD_FLWRI, pl);
  }

  // ---------------------------------------------------------------------
  // updEraseSector
  // ---------------------------------------------------------------------

  /** One pass of updEraseSector's loop at sector s. A sector already
      erased only moves erasedUntil while no unerased sector came before.
      Any other sector first gives up a timed-out erase (one pending slot
      freed, the retry counter incremented, the run failing beyond
      ERASE_RETRIES), then is sent an erase once its deadline has passed
      while fewer than MAX_PENDING_ERASES are pending; the erase marks it
      and its first packet ACK_ERASE_SENT, with a new deadline. */
  function EraseStep(e: Env, s: nat, found: bool, c: Core, w: Wire): (r: Step)
    requires s < |c.sectors|
    ensures SameShape(r.core, c)
  {
    var pnr := PacketNrForSector(e.blocks, s, PACKETSIZE);
    var sec := c.sectors[s];
    if pnr == -1 then Step(true, false, found, c, w)
    else if sec.state == EraseAck then
      Step(false, true, found, if found then c else c.(erasedUntil := s + 1), w)
    else
      var timedOut := sec.state == EraseSent && sec.deadline <= e.now;
      EraseTry(e, s, pnr, timedOut, if timedOut then Expire(s, c) else c, w)
  }

  /** A timed-out erase of sector s: one retry more, one pending erase
      less (in U4 arithmetic). */
  function Expire(s: nat, c: Core): (r: Core)
    requires s < |c.sectors|
    ensures SameShape(r, c)
  {
    var sec := c.sectors[s];
    c.(sectors := c.sectors[s := sec.(retries := ToU8(sec.retries + 1))], pendingErases := ToU32(c.pendingErases - 1))
  }

  /** The rest of the pass for a sector not yet erased, timed-out erases
      already expired: fail beyond ERASE_RETRIES, else send when the
      deadline has passed and fewer than MAX_PENDING_ERASES are pending. */
  function EraseTry(e: Env, s: nat, pnr: nat, timedOut: bool, c: Core, w: Wire): (r: Step)
    requires s < |c.sectors|
    ensures SameShape(r.core, c)
  {
    if timedOut && c.sectors[s].retries > ERASE_RETRIES then Step(true, false, true, c, w)
    else if c.pendingErases < MAX_PENDING_ERASES && c.sectors[s].deadline <= e.now then EraseSend(e, s, pnr, c, w)
    else Step(false, true, true, c, w)
  }

  /** The erase for sector s, whose first packet is pnr: on success the
      sector and that packet become ACK_ERASE_SENT, with a new deadline
      for the sector and one erase more pending. */
  function EraseSend(e: Env, s: nat, pnr: nat, c: Core, w: Wire): (r: Step)
    requires s < |c.sectors|
    ensures SameShape(r.core, c)
  {
    var f := EraseFrame(e.fwBase, pnr);
    if !Accepted(w, f) then Step(true, false, true, c, Transmit(w, f))
    else
      var packets := if pnr < |c.packets| then c.packets[pnr := c.packets[pnr].(state := EraseSent)] else c.packets;
      Step(false, true, true,
           c.(sectors := c.sectors[s := Slot(EraseSent, e.now + ERASE_TIMEOUT, c.sectors[s].retries)],
              packets := packets, pendingErases := ToU32(c.pendingErases + 1)),
           Transmit(w, f))
  }

  /** updEraseSector's loop from sector s on. */
  function EraseFrom(e: Env, s: nat, found: bool, c: Core, w: Wire): (r: Round)
    requires s <= |c.sectors|
    ensures SameShape(r.core, c)
    decreases |c.sectors| - s
  {
    if s == |c.sectors| then Round(true, c, w)
    else
      var st := EraseStep(e, s, found, c, w);
      if st.stop then Round(st.ok, st.core, st.wire)
      else EraseFrom(e, s + 1, st.found, st.core, st.wire)
  }

  /** A pass of updEraseSector's loop ends the scan when it stops and
      otherwise hands on to the next sector. */
  lemma EraseFromNext(e: Env, s: nat, found: bool, c: Core, w: Wire)
    requires s < |c.sectors|
    ensures var st := EraseStep(e, s, found, c, w);
            (st.stop ==> EraseFrom(e, s, found, c, w) == Round(st.ok, st.core, st.wire))
            && (!st.stop ==> EraseFrom(e, s, found, c, w) == EraseFrom(e, s + 1, st.found, st.core, st.wire))
  {
  }

  /** updEraseSector: the scan starts at erasedUntil. */
  function EraseRound(e: Env, c: Core, w: Wire): Round
    requires c.erasedUntil <= |c.sectors|
  {
    EraseFrom(e, c.erasedUntil, false, c, w)
  }

  // ---------------------------------------------------------------------
  // updWritePacket
  // ---------------------------------------------------------------------

  /** The write timeout: longer while a chip erase is still running. */
  function WriteTimeout(c: Core): nat
  {
    if c.eraseInProgress then CHIP_ERASE_TIMEOUT else WRITE_TIMEOUT
  }

  /** The write command for packet p of an image of numberPackets packets. */
  function PacketWrite(e: Env, numberPackets: nat, p: nat): seq<byte>
    requires ImageFits(e.image, numberPackets) && p < numberPackets
  {
    PacketInImage(e.image, numberPackets, p);
    WriteFrame(e.fwBase, e.image, p)
  }

  /** One pass of updWritePacket's first loop at packet p: packets written
      before any unwritten one move writtenUntil; the first erased packet
      is marked ACK_WRITE_SENT and sent, which ends the scan. */
  function FreshStep(e: Env, p: nat, found: bool, c: Core, w: Wire): (r: Step)
    requires p < |c.packets| && ImageFits(e.image, |c.packets|)
    requires c.pendingWrites < e.maxPendingWrites
    ensures SameShape(r.core, c)
  {
    var pk := c.packets[p];
    if pk.state == WriteAck && !found then Step(false, true, false, c.(writtenUntil := p + 1), w)
    else if pk.state == EraseAck then WriteSend(e, p, c.(packets := c.packets[p := pk.(state := WriteSent)]), w)
    else Step(false, true, true, c, w)
  }

  /** updSendWrite for packet p, already marked ACK_WRITE_SENT, with room
      in the queue; it ends the scan. On success the packet gets a new
      deadline and one write more is pending. */
  function WriteSend(e: Env, p: nat, c: Core, w: Wire): (r: Step)
    requires p < |c.packets| && ImageFits(e.image, |c.packets|)
    requires c.pendingWrites < e.maxPendingWrites
    ensures SameShape(r.core, c)
  {
    var f := PacketWrite(e, |c.packets|, p);
    if !Accepted(w, f) then Step(true, false, true, c, Transmit(w, f))
    else
      Step(true, true, true,
           c.(packets := c.packets[p := c.packets[p].(deadline := e.now + WriteTimeout(c))],
              pendingWrites := c.pendingWrites + 1),
           Transmit(w, f))
  }

  /** updWritePacket's first loop from packet p on; it runs while fewer
      than MaxPendingWritesNum writes are pending. A result that does not
      stop sent nothing. */
  function FreshFrom(e: Env, p: nat, found: bool, c: Core, w: Wire): (r: Step)
    requires p <= |c.packets| && ImageFits(e.image, |c.packets|)
    ensures SameShape(r.core, c)
    decreases |c.packets| - p
  {
    if p == |c.packets| || c.pendingWrites >= e.maxPendingWrites then Step(false, true, found, c, w)
    else
      var st := FreshStep(e, p, found, c, w);
      if st.stop then st else FreshFrom(e, p + 1, st.found, st.core, st.wire)
  }

  /** A pass of the first loop ends the scan when it stops and otherwise
      hands on to the next packet. */
  lemma FreshFromNext(e: Env, p: nat, found: bool, c: Core, w: Wire)
    requires p < |c.packets| && ImageFits(e.image, |c.packets|)
    requires c.pendingWrites < e.maxPendingWrites
    ensures var st := FreshStep(e, p, found, c, w);
            (st.stop ==> FreshFrom(e, p, found, c, w) == st)
            && (!st.stop ==> FreshFrom(e, p, found, c, w) == FreshFrom(e, p + 1, st.found, st.core, st.wire))
  {
  }

  /** The first loop ends without sending once the packets run out or
      the queue is full. */
  lemma FreshFromDone(e: Env, p: nat, found: bool, c: Core, w: Wire)
    requires p <= |c.packets| && ImageFits(e.image, |c.packets|)
    requires p == |c.packets| || c.pendingWrites >= e.maxPendingWrites
    ensures FreshFrom(e, p, found, c, w) == Step(false, true, found, c, w)
  {
  }

  /** One pass of updWritePacket's second loop at packet p: a write whose
      deadline has passed frees its pending slot (the counter not going
      below 0), counts a retry, fails the run beyond WRITE_RETRIES, and is
      sent again when the queue has room, which ends the scan. */
  function RetryStep(e: Env, p: nat, c: Core, w: Wire): (r: Step)
    requires p < |c.packets| && ImageFits(e.image, |c.packets|)
    ensures SameShape(r.core, c)
  {
    var pk := c.packets[p];
    if pk.state == WriteSent && pk.deadline <= e.now then
      var c1 := c.(packets := c.packets[p := pk.(retries := ToU8(pk.retries + 1))],
                   pendingWrites := Released(c.pendingWrites));
      if c1.packets[p].retries > WRITE_RETRIES then Step(true, false, false, c1, w)
      else if c1.pendingWrites < e.maxPendingWrites then WriteSend(e, p, c1, w)
      else Step(false, true, false, c1, w)
    else Step(false, true, false, c, w)
  }

  /** updWritePacket's second loop from packet p on. */
  function RetryFrom(e: Env, p: nat, c: Core, w: Wire): (r: Step)
    requires p <= |c.packets| && ImageFits(e.image, |c.packets|)
    ensures SameShape(r.core, c)
    decreases |c.packets| - p
  {
    if p == |c.packets| then Step(false, true, false, c, w)
    else
      var st := RetryStep(e, p, c, w);
      if st.stop then st else RetryFrom(e, p + 1, st.core, st.wire)
  }

  /** updWritePacket: new writes from writtenUntil first; only when none
      was sent, the timed-out ones from packet 0. */
  function WriteRound(e: Env, c: Core, w: Wire): (r: Round)
    requires c.writtenUntil <= |c.packets| && ImageFits(e.image, |c.packets|)
    ensures SameShape(r.core, c)
  {
    var first := FreshFrom(e, c.writtenUntil, false, c, w);
    if first.stop then Round(first.ok, first.core, first.wire)
    else
      var retry := RetryFrom(e, 0, first.core, first.wire);
      Round(retry.ok, retry.core, retry.wire)
  }

  // ---------------------------------------------------------------------
  // updProcessMessages
  // ---------------------------------------------------------------------

  /** The result of the operations that can stop the update: OutOfRange
      where the source would index past its arrays, and OutOfFuel where
      the model stops an update loop that has not finished. */
  datatype Status = Success | Failure | OutOfRange | OutOfFuel

  datatype Handled = Handled(status: Status, core: Core)

  /** The address and success byte of an erase or write acknowledgement. */
  function AckAddress(m: seq<byte>): u32 requires HEAD_SIZE + 5 <= |m| { LE32At(m, HEAD_SIZE) }
  function AckSuccess(m: seq<byte>): byte requires HEAD_SIZE + 5 <= |m| { m[HEAD_SIZE + 4] }

  /** The three UPD messages updProcessMessages acts on, told apart by
      payload size and message id. */
  predicate IsEraseAck(m: seq<byte>)
    requires IsFrame(m)
  {
    LengthAt(m, 0) == UPD_ERASE_DATA1_PAYLOAD_SIZE && m[3] == UPD_ERASE
  }

  predicate IsWriteAck(m: seq<byte>)
    requires IsFrame(m)
  {
    LengthAt(m, 0) == UPD_FLWRI_DATA1_PAYLOAD_SIZE && m[3] == UPD_FLWRI
  }

  predicate IsChipEraseAck(m: seq<byte>)
    requires IsFrame(m)
  {
    LengthAt(m, 0) == UPD_CERASE_DATA1_PAYLOAD_SIZE && m[3] == UPD_CERASE
  }

  /** The sector an erase ack names: GetSectorNrForAddress(Address,
      FwBase, 0), -1 beyond the flash. */
  function AckedSector(blocks: seq<Block>, fwBase: u32, m: seq<byte>): int
    requires IsFrame(m) && IsEraseAck(m)
  {
    SectorNrForAddress(SectorSizes(blocks), Target(AckAddress(m), fwBase, 0), 0)
  }

  /** The packet a write ack names: GetPacketNrForAddress. */
  function AckedPacket(fwBase: u32, m: seq<byte>): u32
    requires IsFrame(m) && IsWriteAck(m)
  {
    PacketNrForAddress(AckAddress(m), fwBase, PACKETSIZE)
  }

  /** GetPacketNrForSector as the U4 the erase handler stores it in, -1
      becoming 0xFFFFFFFF. */
  function FirstPacket(blocks: seq<Block>, sector: nat): u32
  {
    ToU32(PacketNrForSector(blocks, sector, PACKETSIZE))
  }

  /** The packets begin..end-1 below the packet count become
      ACK_ERASE_ACK, whatever their state. */
  function MarkErased(ps: seq<Slot>, begin: nat, end: nat): (r: seq<Slot>)
    ensures |r| == |ps|
  {
    seq(|ps|, i requires 0 <= i < |ps| => if begin <= i < end then ps[i].(state := EraseAck) else ps[i])
  }

  /** The pending-write counter after an acknowledgement: one less, but
      never below 0. */
  function Released(n: u32): u32
  {
    if n != 0 then n - 1 else 0
  }

  /** An UPD-class message in updProcessMessages' loop. A successful erase
      ack marks its sector and the sector's packets erased, once; a failed
      one resets the sector to ACK_INIT, to be retried once its deadline
      passes. A successful write ack
      marks a sent packet written; a failed one ends the update. A
      chip-erase ack counts only while a chip erase is running. Anything
      else is ignored. */
  function Handle(blocks: seq<Block>, fwBase: u32, c: Core, m: seq<byte>): (h: Handled)
    requires IsFrame(m)
    ensures SameShape(h.core, c)
  {
    if IsEraseAck(m) then HandleEraseAck(blocks, AckedSector(blocks, fwBase, m), AckSuccess(m), c)
    else if IsWriteAck(m) then HandleWriteAck(AckedPacket(fwBase, m), AckSuccess(m), c)
    else if IsChipEraseAck(m) && c.eraseInProgress then
      if m[HEAD_SIZE] != 1 then Handled(Failure, c) else Handled(Success, c.(eraseInProgress := false))
    else Handled(Success, c)
  }

  /** An erase ack for sector with the given success byte. */
  function HandleEraseAck(blocks: seq<Block>, sector: int, success: byte, c: Core): (h: Handled)
    ensures SameShape(h.core, c)
  {
    if !(0 <= sector < |c.sectors|) then Handled(OutOfRange, c)
    else
      var sec := c.sectors[sector];
      if success == 0 then
        Handled(Success, c.(sectors := c.sectors[sector := sec.(state := Init, retries := ToU8(sec.retries + 1))]))
      else if sec.state == EraseAck then Handled(Success, c)
      else
        Handled(Success, c.(sectors := c.sectors[sector := sec.(state := EraseAck)],
                            packets := MarkErased(c.packets, FirstPacket(blocks, sector), FirstPacket(blocks, sector + 1)),
                            pendingErases := ToU32(c.pendingErases - 1)))
  }

  /** A write ack for packet with the given success byte. */
  function HandleWriteAck(packet: u32, success: byte, c: Core): (h: Handled)
    ensures SameShape(h.core, c)
  {
    if success == 0 then Handled(Failure, c)
    else if packet >= |c.packets| then Handled(OutOfRange, c)
    else
      var pk := c.packets[packet];
      if pk.state == WriteSent || pk.state == WriteAck then
        Handled(Success, c.(packets := c.packets[packet := pk.(state := WriteAck)],
                            pendingWrites := Released(c.pendingWrites)))
      else Handled(Success, c)
  }

  predicate AllFrames(ms: seq<seq<byte>>)
  {
    forall i :: 0 <= i < |ms| ==> IsFrame(ms[i])
  }

  /** The messages handled in order, stopping at the first that does not
      succeed. */
  function HandleAll(blocks: seq<Block>, fwBase: u32, c: Core, ms: seq<seq<byte>>): (h: Handled)
    requires AllFrames(ms)
    ensures SameShape(h.core, c)
  {
    if |ms| == 0 then Handled(Success, c)
    else
      var h := HandleAll(blocks, fwBase, c, ms[..|ms| - 1]);
      if h.status != Success then h else Handle(blocks, fwBase, h.core, ms[|ms| - 1])
  }

  // ---------------------------------------------------------------------
  // The completion scans and updInit
  // ---------------------------------------------------------------------

  predicate AllErased(ss: seq<Slot>)
  {
    forall i :: 0 <= i < |ss| ==> ss[i].state == EraseAck
  }

  predicate AllWritten(ps: seq<Slot>)
  {
    forall i :: 0 <= i < |ps| ==> ps[i].state == WriteAck
  }

  /** The state updInit leaves. */
  function InitialCore(numberSectors: nat, numberPackets: nat, eraseInProgress: bool): (c: Core)
    ensures |c.sectors| == numberSectors && |c.packets| == numberPackets
  {
    Core(seq(numberSectors, _ => Slot(Init, 0, 0)),
         seq(numberPackets, _ => Slot(if numberSectors == 0 then EraseAck else Init, 0, 0)),
         0, 0, 0, 0, eraseInProgress)
  }

  /** After updInit nothing is erased, written, pending or retried and no
      deadline is set; without sectors to erase every packet is ready to
      be written, so the erase phase is complete from the start. */
  lemma InitialState(numberSectors: nat, numberPackets: nat, eraseInProgress: bool)
    ensures var c := InitialCore(numberSectors, numberPackets, eraseInProgress);
            (forall i :: 0 <= i < numberSectors ==> c.sectors[i] == Slot(Init, 0, 0))
            && (forall i :: 0 <= i < numberPackets ==>
                  c.packets[i] == Slot(if numberSectors == 0 then EraseAck else Init, 0, 0))
            && c.pendingErases == 0 && c.pendingWrites == 0
            && c.erasedUntil == 0 && c.writtenUntil == 0 && c.eraseInProgress == eraseInProgress
            && (numberSectors == 0 <==> AllErased(c.sectors))
            && (numberPackets == 0 <==> AllWritten(c.packets))
  {
    var c := InitialCore(numberSectors, numberPackets, eraseInProgress);
    if numberSectors > 0 {
      assert c.sectors[0].state == Init;
    }
    if numberPackets > 0 {
      assert c.packets[0].state != WriteAck;
    }
  }

  // ---------------------------------------------------------------------
  // What the handlers promise
  // ---------------------------------------------------------------------

  /** A successful erase ack for a sector not yet erased marks that
      sector, marks every packet from its first packet up to the next
      sector's first one (below NumberPackets), whatever their state, and
      frees one erase slot; nothing else changes. */
  lemma EraseAckMarks(blocks: seq<Block>, fwBase: u32, c: Core, m: seq<byte>)
    requires IsFrame(m) && IsEraseAck(m) && AckSuccess(m) != 0
    requires 0 <= AckedSector(blocks, fwBase, m) < |c.sectors|
    requires c.sectors[AckedSector(blocks, fwBase, m)].state != EraseAck
    ensures var k := AckedSector(blocks, fwBase, m);
            var h := Handle(blocks, fwBase, c, m);
            var begin, end := FirstPacket(blocks, k), FirstPacket(blocks, k + 1);
            h.status == Success
            && h.core.sectors == c.sectors[k := c.sectors[k].(state := EraseAck)]
            && (forall i :: 0 <= i < |c.packets| ==>
                  h.core.packets[i] == if begin <= i < end then c.packets[i].(state := EraseAck) else c.packets[i])
            && h.core.pendingErases == ToU32(c.pendingErases - 1)
            && h.core.(sectors := c.sectors, packets := c.packets, pendingErases := c.pendingErases) == c
  {
  }

  /** A repeat of a successful erase ack changes nothing. */
  lemma EraseAckRepeat(blocks: seq<Block>, fwBase: u32, c: Core, m: seq<byte>)
    requires IsFrame(m) && IsEraseAck(m) && AckSuccess(m) != 0
    requires Handle(blocks, fwBase, c, m).status == Success
    ensures var h := Handle(blocks, fwBase, c, m);
            Handle(blocks, fwBase, h.core, m) == h
  {
    var k := AckedSector(blocks, fwBase, m);
    if c.sectors[k].state != EraseAck {
      EraseAckMarks(blocks, fwBase, c, m);
    }
  }

  /** An erase ack reporting failure puts the sector back to ACK_INIT and
      counts a retry; its deadline, the pending erases and everything else
      stay as they were. */
  lemma EraseNakResets(blocks: seq<Block>, fwBase: u32, c: Core, m: seq<byte>)
    requires IsFrame(m) && IsEraseAck(m) && AckSuccess(m) == 0
    requires 0 <= AckedSector(blocks, fwBase, m) < |c.sectors|
    ensures var k := AckedSector(blocks, fwBase, m);
            var h := Handle(blocks, fwBase, c, m);
            h.status == Success
            && h.core == c.(sectors := c.sectors[k := Slot(Init, c.sectors[k].deadline, ToU8(c.sectors[k].retries + 1))])
  {
  }

  /** A successful write ack for a packet being written, or already
      written, marks it written and releases one pending write (not below
      0); for a packet in any other state nothing changes. */
  lemma WriteAckMarks(blocks: seq<Block>, fwBase: u32, c: Core, m: seq<byte>)
    requires IsFrame(m) && IsWriteAck(m) && AckSuccess(m) != 0
    requires AckedPacket(fwBase, m) < |c.packets|
    ensures var q := AckedPacket(fwBase, m);
            var h := Handle(blocks, fwBase, c, m);
            h.status == Success
            && (c.packets[q].state == WriteSent || c.packets[q].state == WriteAck ==>
                  h.core == c.(packets := c.packets[q := c.packets[q].(state := WriteAck)],
                               pendingWrites := Released(c.pendingWrites)))
            && (c.packets[q].state != WriteSent && c.packets[q].state != WriteAck ==> h.core == c)
  {
  }

  /** A duplicate write ack leaves the packet written and every array as
      the first ack left it, but releases a pending write again (the
      counter staying at 0 once there). */
  lemma DuplicateWriteAck(blocks: seq<Block>, fwBase: u32, c: Core, m: seq<byte>)
    requires IsFrame(m) && IsWriteAck(m) && AckSuccess(m) != 0
    requires AckedPacket(fwBase, m) < |c.packets|
    requires c.packets[AckedPacket(fwBase, m)].state == WriteSent || c.packets[AckedPacket(fwBase, m)].state == WriteAck
    ensures var h1 := Handle(blocks, fwBase, c, m);
            var h2 := Handle(blocks, fwBase, h1.core, m);
            h2.status == Success
            && h2.core.packets == h1.core.packets && h2.core.sectors == c.sectors
            && h2.core.packets[AckedPacket(fwBase, m)].state == WriteAck
            && h2.core.pendingWrites == Released(Released(c.pendingWrites))
  {
    var q := AckedPacket(fwBase, m);
    WriteAckMarks(blocks, fwBase, c, m);
    var h1 := Handle(blocks, fwBase, c, m);
    assert h1.core.packets[q].state == WriteAck;
    WriteAckMarks(blocks, fwBase, h1.core, m);
    assert h1.core.packets[q := h1.core.packets[q].(state := WriteAck)] == h1.core.packets;
  }

  /** A chip-erase ack matters only while a chip erase runs: byte 1 ends
      it, anything else fails the update. */
  lemma ChipEraseAck(blocks: seq<Block>, fwBase: u32, c: Core, m: seq<byte>)
    requires IsFrame(m) && IsChipEraseAck(m)
    ensures var h := Handle(blocks, fwBase, c, m);
            (!c.eraseInProgress ==> h == Handled(Success, c))
            && (c.eraseInProgress && m[HEAD_SIZE] == 1 ==> h == Handled(Success, c.(eraseInProgress := false)))
            && (c.eraseInProgress && m[HEAD_SIZE] != 1 ==> h == Handled(Failure, c))
  {
  }

  /** Once a message does not succeed, later messages are not looked at. */
  lemma {:induction false} HandleAllStops(blocks: seq<Block>, fwBase: u32, c: Core, ms: seq<seq<byte>>, rest: seq<seq<byte>>)
    requires AllFrames(ms) && AllFrames(rest)
    requires HandleAll(blocks, fwBase, c, ms).status != Success
    ensures AllFrames(ms + rest) && HandleAll(blocks, fwBase, c, ms + rest) == HandleAll(blocks, fwBase, c, ms)
    decreases |rest|
  {
    assert AllFrames(ms + rest) by {
      forall i | 0 <= i < |ms + rest| ensures IsFrame((ms + rest)[i]) {
        if i >= |ms| { assert (ms + rest)[i] == rest[i - |ms|]; }
      }
    }
    if |rest| > 0 {
      var front := rest[..|rest| - 1];
      assert AllFrames(front) by {
        forall i | 0 <= i < |front| ensures IsFrame(front[i]) { assert front[i] == rest[i]; }
      }
      HandleAllStops(blocks, fwBase, c, ms, front);
      assert (ms + rest)[..|ms + rest| - 1] == ms + front;
    } else {
      assert ms + rest == ms;
    }
  }

  /** A failed write is fatal: the update stops at the ack reporting it,
      with the state the earlier messages left, whatever follows. */
  lemma WriteNakIsFatal(blocks: seq<Block>, fwBase: u32, c: Core, ms: seq<seq<byte>>, m: seq<byte>, rest: seq<seq<byte>>)
    requires AllFrames(ms) && AllFrames(rest) && IsFrame(m) && IsWriteAck(m) && AckSuccess(m) == 0
    requires HandleAll(blocks, fwBase, c, ms).status == Success
    ensures AllFrames(ms + [m] + rest)
    ensures HandleAll(blocks, fwBase, c, ms + [m] + rest) == Handled(Failure, HandleAll(blocks, fwBase, c, ms).core)
  {
    var ms1 := ms + [m];
    assert AllFrames(ms1) by {
      forall i | 0 <= i < |ms1| ensures IsFrame(ms1[i]) {
        if i < |ms| { assert ms1[i] == ms[i]; }
      }
    }
    assert ms1[..|ms1| - 1] == ms;
    HandleAllStops(blocks, fwBase, c, ms1, rest);
  }

  /** Acknowledgements never add pending writes. */
  lemma {:induction false} HandleAllReleases(blocks: seq<Block>, fwBase: u32, c: Core, ms: seq<seq<byte>>)
    requires AllFrames(ms)
    ensures HandleAll(blocks, fwBase, c, ms).core.pendingWrites <= c.pendingWrites
    decreases |ms|
  {
    if |ms| > 0 {
      var front := ms[..|ms| - 1];
      assert AllFrames(front) by {
        forall i | 0 <= i < |front| ensures IsFrame(front[i]) { assert front[i] == ms[i]; }
      }
      HandleAllReleases(blocks, fwBase, c, front);
    }
  }

  // ---------------------------------------------------------------------
  // The erase fan-out and the flash geometry
  // ---------------------------------------------------------------------

  /** Every sector size is a whole number of packets. */
  predicate PacketAligned(blocks: seq<Block>)
  {
    forall k :: 0 <= k < |blocks| ==> blocks[k].size % PACKETSIZE == 0
  }

  lemma {:induction false} SectorSizesAligned(blocks: seq<Block>)
    requires PacketAligned(blocks)
    ensures forall k :: 0 <= k < |SectorSizes(blocks)| ==> SectorSizes(blocks)[k] % PACKETSIZE == 0
  {
    if |blocks| > 0 {
      SectorSizesAligned(blocks[..|blocks| - 1]);
    }
  }

  /** On aligned sectors counting packets loses nothing. */
  lemma {:induction false} PacketSumScaled(s: seq<nat>, n: nat)
    requires n <= |s| && forall k :: 0 <= k < |s| ==> s[k] % PACKETSIZE == 0
    ensures PacketSum(s, n, PACKETSIZE) * PACKETSIZE == PrefixSum(s, n)
  {
    if n > 0 {
      PacketSumScaled(s, n - 1);
      DivMod(s[n - 1], PACKETSIZE);
    }
  }

  /** The first packet of sector k starts exactly where sector k does. */
  lemma FirstPacketScaled(blocks: seq<Block>, k: nat)
    requires |blocks| > 0 && PacketAligned(blocks) && Fits(blocks)
    requires k <= |SectorSizes(blocks)|
    ensures FirstPacket(blocks, k) * PACKETSIZE == PrefixSum(SectorSizes(blocks), k)
  {
    var s := SectorSizes(blocks);
    SectorSizesAligned(blocks);
    PacketSumScaled(s, k);
    PrefixSumMono(s, k, |s|);
    PacketNrIsSum(blocks, k);
    ScaledIsU32(PacketSum(s, k, PACKETSIZE), PrefixSum(s, k));
  }

  lemma ScaledIsU32(p: nat, bytes: nat)
    requires p * PACKETSIZE == bytes < U32_MOD
    ensures ToU32(p) == p
  {
  }

  /** Both ways GetPacketNrForSector counts agree on aligned sectors. */
  lemma PacketNrIsSum(blocks: seq<Block>, k: nat)
    requires |blocks| > 0 && PacketAligned(blocks) && Fits(blocks)
    requires k <= |SectorSizes(blocks)|
    ensures PacketNrForSector(blocks, k, PACKETSIZE) == PacketSum(SectorSizes(blocks), k, PACKETSIZE)
  {
    if |blocks| == 1 {
      UniformFirstPacket(blocks, k);
    }
  }

  lemma UniformFirstPacket(blocks: seq<Block>, k: nat)
    requires |blocks| == 1 && PacketAligned(blocks) && Fits(blocks)
    requires k <= |SectorSizes(blocks)|
    ensures PacketNrForSector(blocks, k, PACKETSIZE) == PacketSum(SectorSizes(blocks), k, PACKETSIZE)
  {
    var b := blocks[0];
    assert blocks == [b];
    assert blocks[..0] == [];
    assert SectorSizes(blocks) == SectorSizes([]) + Repeat(b.size, Eff(b));
    UniformPacketNr(b, k, PACKETSIZE);
  }

  /** The relative address of packet i, when it is within the flash. */
  lemma TargetOfPacket(fwBase: u32, i: nat)
    requires i * PACKETSIZE < U32_MOD
    ensures Target(ToU32(fwBase + i * PACKETSIZE), fwBase, 0) == i * PACKETSIZE
  {
    var t := i * PACKETSIZE;
    if fwBase + t < U32_MOD {
      assert ToU32(fwBase + t) == fwBase + t;
    } else {
      assert ToU32(fwBase + t) == fwBase + t - U32_MOD;
      assert ToU32(fwBase + t - U32_MOD - fwBase + 0) == t;
    }
  }

  /** The packets an erase ack for sector k marks are exactly those whose
      target address FwBase + i * PACKETSIZE lies in sector k, once every
      sector is a whole number of packets. */
  lemma FanOutIsSector(blocks: seq<Block>, fwBase: u32, k: nat, i: nat)
    requires |blocks| > 0 && PositiveSizes(blocks) && PacketAligned(blocks) && Fits(blocks)
    requires k < |SectorSizes(blocks)| && i * PACKETSIZE < FlashSize(blocks)
    ensures (FirstPacket(blocks, k) <= i < FirstPacket(blocks, k + 1))
            <==> SectorNrForAddress(SectorSizes(blocks), Target(ToU32(fwBase + i * PACKETSIZE), fwBase, 0), 0) == k
  {
    var s := SectorSizes(blocks);
    var t := i * PACKETSIZE;
    TargetOfPacket(fwBase, i);
    SectorNrForAddressSpec(blocks, t);
    var r := SectorNrForAddress(s, t, 0);
    FirstPacketScaled(blocks, k);
    FirstPacketScaled(blocks, k + 1);
    assert 0 <= r < |s|;
    if r < k {
      PrefixSumMono(s, r + 1, k);
    } else if r > k {
      PrefixSumMono(s, k + 1, r);
    }
    ScaledRange(FirstPacket(blocks, k), FirstPacket(blocks, k + 1), i);
  }

  lemma ScaledRange(a: nat, b: nat, i: nat)
    ensures (a <= i < b) <==> (a * PACKETSIZE <= i * PACKETSIZE < b * PACKETSIZE)
  {
  }

  /** The erase fan-out: after a successful erase ack for sector k, every
      packet whose target lies in sector k is erased, and every other
      packet is as it was. */
  lemma EraseAckFansOut(blocks: seq<Block>, fwBase: u32, c: Core, m: seq<byte>, i: nat)
    requires |blocks| > 0 && PositiveSizes(blocks) && PacketAligned(blocks) && Fits(blocks)
    requires IsFrame(m) && IsEraseAck(m) && AckSuccess(m) != 0
    requires 0 <= AckedSector(blocks, fwBase, m) < |c.sectors| && |c.sectors| <= |SectorSizes(blocks)|
    requires c.sectors[AckedSector(blocks, fwBase, m)].state != EraseAck
    requires i < |c.packets| && i * PACKETSIZE < FlashSize(blocks)
    ensures var k := AckedSector(blocks, fwBase, m);
            var p := Handle(blocks, fwBase, c, m).core.packets[i];
            var inSector := SectorNrForAddress(SectorSizes(blocks), Target(ToU32(fwBase + i * PACKETSIZE), fwBase, 0), 0) == k;
            (inSector ==> p.state == EraseAck) && (!inSector ==> p == c.packets[i])
  {
    EraseAckMarks(blocks, fwBase, c, m);
    FanOutIsSector(blocks, fwBase, AckedSector(blocks, fwBase, m), i);
  }

  // ---------------------------------------------------------------------
  // What the scans promise
  // ---------------------------------------------------------------------

  /** An erase goes out for sector s only while fewer than
      MAX_PENDING_ERASES are pending (a timed-out erase of this sector
      already given back) and the sector's deadline has passed; the send
      marks the sector ACK_ERASE_SENT with the deadline now + 12000 and
      the sector's first packet ACK_ERASE_SENT, and takes one slot. */
  lemma EraseStepSends(e: Env, s: nat, found: bool, c: Core, w: Wire)
    requires s < |c.sectors|
    ensures var r := EraseStep(e, s, found, c, w);
            var sec := c.sectors[s];
            var pnr := PacketNrForSector(e.blocks, s, PACKETSIZE);
            var timedOut := sec.state == EraseSent && sec.deadline <= e.now;
            var pending := if timedOut then ToU32(c.pendingErases - 1) else c.pendingErases;
            var sends := sec.state != EraseAck && sec.deadline <= e.now && pending < MAX_PENDING_ERASES && pnr >= 0
                         && !(timedOut && ToU8(sec.retries + 1) > ERASE_RETRIES);
            (sends <==> r.wire != w)
            && (sends ==> r.wire == Transmit(w, EraseFrame(e.fwBase, pnr))
                          && r.ok == Accepted(w, EraseFrame(e.fwBase, pnr))
                          && (r.ok ==> r.core.sectors[s].state == EraseSent
                                       && r.core.sectors[s].deadline == e.now + ERASE_TIMEOUT
                                       && r.core.pendingErases == pending + 1 <= MAX_PENDING_ERASES
                                       && (pnr < |c.packets| ==> r.core.packets[pnr].state == EraseSent)))
  {
    var sec := c.sectors[s];
    var pnr := PacketNrForSector(e.blocks, s, PACKETSIZE);
    if pnr != -1 && sec.state != EraseAck {
      var timedOut := sec.state == EraseSent && sec.deadline <= e.now;
      EraseTrySends(e, s, pnr, timedOut, if timedOut then Expire(s, c) else c, w);
    }
  }

  lemma EraseTrySends(e: Env, s: nat, pnr: nat, timedOut: bool, c: Core, w: Wire)
    requires s < |c.sectors|
    ensures var r := EraseTry(e, s, pnr, timedOut, c, w);
            var sends := c.sectors[s].deadline <= e.now && c.pendingErases < MAX_PENDING_ERASES
                         && !(timedOut && c.sectors[s].retries > ERASE_RETRIES);
            (sends <==> r.wire != w)
            && (sends ==> r.wire == Transmit(w, EraseFrame(e.fwBase, pnr))
                          && r.ok == Accepted(w, EraseFrame(e.fwBase, pnr))
                          && (r.ok ==> r.core.sectors[s].state == EraseSent
                                       && r.core.sectors[s].deadline == e.now + ERASE_TIMEOUT
                                       && r.core.pendingErases == c.pendingErases + 1 <= MAX_PENDING_ERASES
                                       && (pnr < |c.packets| ==> r.core.packets[pnr].state == EraseSent)))
  {
    var r := EraseTry(e, s, pnr, timedOut, c, w);
    if c.sectors[s].deadline <= e.now && c.pendingErases < MAX_PENDING_ERASES
       && !(timedOut && c.sectors[s].retries > ERASE_RETRIES) {
      assert |r.wire.sent| == |w.sent| + 1;
    }
  }

  /** An erase whose deadline has passed counts a retry and gives back
      its pending slot; beyond ERASE_RETRIES retries the run fails with
      nothing sent. */
  lemma EraseStepTimeout(e: Env, s: nat, found: bool, c: Core, w: Wire)
    requires s < |c.sectors| && PacketNrForSector(e.blocks, s, PACKETSIZE) >= 0
    requires c.sectors[s].state == EraseSent && c.sectors[s].deadline <= e.now
    ensures var r := EraseStep(e, s, found, c, w);
            var n := ToU8(c.sectors[s].retries + 1);
            r.core.sectors[s].retries == n
            && (n > ERASE_RETRIES ==> r.stop && !r.ok && r.wire == w
                                      && r.core.pendingErases == ToU32(c.pendingErases - 1))
  {
  }

  /** A scan of erases changes a packet only to ACK_ERASE_SENT. */
  predicate NoWriteStarted(before: seq<Slot>, after: seq<Slot>)
  {
    |before| == |after|
    && forall i :: 0 <= i < |after| ==> after[i] == before[i] || after[i].state == EraseSent
  }

  /** Writes follow erases: a packet now being written was erased or
      already being written, and a packet now written was being written
      or already written. */
  predicate WritesFollowErases(before: seq<Slot>, after: seq<Slot>)
  {
    |before| == |after|
    && forall i :: 0 <= i < |after| ==>
         (after[i].state == WriteSent ==> before[i].state == EraseAck || before[i].state == WriteSent)
         && (after[i].state == WriteAck ==> before[i].state == WriteSent || before[i].state == WriteAck)
  }

  lemma NoWriteStartedTrans(a: seq<Slot>, b: seq<Slot>, c: seq<Slot>)
    requires NoWriteStarted(a, b) && NoWriteStarted(b, c)
    ensures NoWriteStarted(a, c)
  {
  }

  lemma FollowThenNone(a: seq<Slot>, b: seq<Slot>, c: seq<Slot>)
    requires WritesFollowErases(a, b) && NoWriteStarted(b, c)
    ensures WritesFollowErases(a, c)
  {
  }

  /** No command other than an erase: what updEraseSector sends. */
  predicate IsEraseCommand(f: seq<byte>)
  {
    |f| >= 4 && f[2] == CLASS_UPD && f[3] == UPD_ERASE
  }

  /** What went out between w0 and w: w0's writes, then only commands that
      are not erases. */
  predicate NoEraseSent(w0: Wire, w: Wire)
  {
    |w0.sent| <= |w.sent| && w.sent[..|w0.sent|] == w0.sent
    && forall k :: |w0.sent| <= k < |w.sent| ==> !IsEraseCommand(w.sent[k])
  }

  /** updEraseSector starts no write, leaves the write counters and
      cursor alone, and changes no packet but to ACK_ERASE_SENT. */
  lemma {:induction false} EraseFromKeepsWrites(e: Env, s: nat, found: bool, c: Core, w: Wire)
    requires s <= |c.sectors|
    ensures var r := EraseFrom(e, s, found, c, w);
            NoWriteStarted(c.packets, r.core.packets)
            && r.core.pendingWrites == c.pendingWrites && r.core.writtenUntil == c.writtenUntil
            && r.core.eraseInProgress == c.eraseInProgress
    decreases |c.sectors| - s
  {
    if s < |c.sectors| {
      var st := EraseStep(e, s, found, c, w);
      EraseStepKeepsWrites(e, s, found, c, w);
      if !st.stop {
        EraseFromKeepsWrites(e, s + 1, st.found, st.core, st.wire);
        NoWriteStartedTrans(c.packets, st.core.packets, EraseFrom(e, s + 1, st.found, st.core, st.wire).core.packets);
      }
    }
  }

  /** One pass of updEraseSector starts no write either. */
  lemma EraseStepKeepsWrites(e: Env, s: nat, found: bool, c: Core, w: Wire)
    requires s < |c.sectors|
    ensures var r := EraseStep(e, s, found, c, w);
            NoWriteStarted(c.packets, r.core.packets)
            && r.core.pendingWrites == c.pendingWrites && r.core.writtenUntil == c.writtenUntil
            && r.core.eraseInProgress == c.eraseInProgress
  {
  }

  /** The lowest erased packet at or after p, or the packet count. */
  function FirstReady(ps: seq<Slot>, p: nat): (q: nat)
    requires p <= |ps|
    ensures p <= q <= |ps| && (q < |ps| ==> ps[q].state == EraseAck)
    ensures forall j :: p <= j < q ==> ps[j].state != EraseAck
    decreases |ps| - p
  {
    if p == |ps| || ps[p].state == EraseAck then p else FirstReady(ps, p + 1)
  }

  /** A write whose deadline has passed. */
  predicate TimedOut(now: nat, pk: Slot)
  {
    pk.state == WriteSent && pk.deadline <= now
  }

  /** The lowest timed-out write at or after p, or the packet count. */
  function FirstTimedOut(ps: seq<Slot>, now: nat, p: nat): (q: nat)
    requires p <= |ps|
    ensures p <= q <= |ps| && (q < |ps| ==> TimedOut(now, ps[q]))
    ensures forall j :: p <= j < q ==> !TimedOut(now, ps[j])
    decreases |ps| - p
  {
    if p == |ps| || TimedOut(now, ps[p]) then p else FirstTimedOut(ps, now, p + 1)
  }

  /** updWritePacket's first loop writes the lowest erased packet at or
      after p, provided fewer than MaxPendingWritesNum writes are pending,
      and stops there; otherwise it sends nothing and moves only
      writtenUntil. */
  lemma {:induction false} FreshFromSends(e: Env, p: nat, found: bool, c: Core, w: Wire)
    requires p <= |c.packets| && ImageFits(e.image, |c.packets|)
    ensures FreshSent(e, c, w, FirstReady(c.packets, p), FreshFrom(e, p, found, c, w))
    decreases |c.packets| - p
  {
    if p < |c.packets| && c.pendingWrites < e.maxPendingWrites {
      var st := FreshStep(e, p, found, c, w);
      FreshFromNext(e, p, found, c, w);
      FreshStepSent(e, p, found, c, w);
      if !st.stop {
        FreshFromSends(e, p + 1, st.found, st.core, st.wire);
        assert FirstReady(c.packets, p) == FirstReady(st.core.packets, p + 1);
        FreshSentTransfer(e, c, st.core, w, FirstReady(c.packets, p), FreshFrom(e, p + 1, st.found, st.core, st.wire));
      }
    }
  }

  /** What the first loop leaves when the lowest erased packet is q: it
      wrote q and stopped if it could, and otherwise sent nothing and
      moved only writtenUntil. */
  predicate FreshSent(e: Env, c: Core, w: Wire, q: nat, r: Step)
    requires ImageFits(e.image, |c.packets|) && q <= |c.packets|
  {
    |r.core.packets| == |c.packets|
    && (r.stop <==> q < |c.packets| && c.pendingWrites < e.maxPendingWrites)
    && (r.stop ==> r.wire == Transmit(w, PacketWrite(e, |c.packets|, q))
                   && r.ok == Accepted(w, PacketWrite(e, |c.packets|, q))
                   && r.core.packets == c.packets[q := r.core.packets[q]]
                   && r.core.packets[q].state == WriteSent
                   && r.core.pendingWrites == (if r.ok then c.pendingWrites + 1 else c.pendingWrites)
                   && (r.ok ==> r.core.packets[q].deadline == e.now + WriteTimeout(c)))
    && (!r.stop ==> r.wire == w && r.core.packets == c.packets && r.core.pendingWrites == c.pendingWrites)
    && r.core == c.(packets := r.core.packets, pendingWrites := r.core.pendingWrites, writtenUntil := r.core.writtenUntil)
  }

  /** A pass of the first loop either sends as FreshSent says, or sends
      nothing and moves at most writtenUntil. */
  lemma FreshStepSent(e: Env, p: nat, found: bool, c: Core, w: Wire)
    requires p < |c.packets| && ImageFits(e.image, |c.packets|)
    requires c.pendingWrites < e.maxPendingWrites
    ensures var r := FreshStep(e, p, found, c, w);
            (r.stop <==> c.packets[p].state == EraseAck)
            && (r.stop ==> FreshSent(e, c, w, p, r))
            && (!r.stop ==> r.wire == w && r.core == c.(writtenUntil := r.core.writtenUntil))
  {
    FreshStepOutcome(e, p, found, c, w);
  }

  /** FreshSent does not look at writtenUntil. */
  lemma FreshSentTransfer(e: Env, c: Core, c2: Core, w: Wire, q: nat, r: Step)
    requires ImageFits(e.image, |c.packets|) && q <= |c.packets|
    requires c2 == c.(writtenUntil := c2.writtenUntil) && FreshSent(e, c2, w, q, r)
    ensures FreshSent(e, c, w, q, r)
  {
  }

  /** One pass of the first loop stops exactly at an erased packet, which
      it marks ACK_WRITE_SENT and sends; any other pass sends nothing and
      moves at most writtenUntil. */
  lemma FreshStepOutcome(e: Env, p: nat, found: bool, c: Core, w: Wire)
    requires p < |c.packets| && ImageFits(e.image, |c.packets|)
    requires c.pendingWrites < e.maxPendingWrites
    ensures var r := FreshStep(e, p, found, c, w);
            (r.stop <==> c.packets[p].state == EraseAck)
            && (r.stop ==> r.wire == Transmit(w, PacketWrite(e, |c.packets|, p))
                           && r.ok == Accepted(w, PacketWrite(e, |c.packets|, p))
                           && r.core.packets == c.packets[p := r.core.packets[p]]
                           && r.core.packets[p].state == WriteSent
                           && r.core.pendingWrites == (if r.ok then c.pendingWrites + 1 else c.pendingWrites)
                           && (r.ok ==> r.core.packets[p].deadline == e.now + WriteTimeout(c))
                           && r.core == c.(packets := r.core.packets, pendingWrites := r.core.pendingWrites))
            && (!r.stop ==> r.wire == w && r.core == c.(writtenUntil := r.core.writtenUntil))
  {
    if c.packets[p].state == EraseAck && !(c.packets[p].state == WriteAck && !found) {
      var c1 := c.(packets := c.packets[p := c.packets[p].(state := WriteSent)]);
      assert FreshStep(e, p, found, c, w) == WriteSend(e, p, c1, w);
    }
  }

  /** updWritePacket's second loop, with the queue never over its depth:
      it acts on the lowest timed-out write from p on and stops there (a
      resend, or a failure), or it leaves everything as it was. */
  lemma {:induction false} RetryFromFirst(e: Env, p: nat, c: Core, w: Wire)
    requires p <= |c.packets| && ImageFits(e.image, |c.packets|)
    requires c.pendingWrites <= e.maxPendingWrites && 0 < e.maxPendingWrites
    ensures var q := FirstTimedOut(c.packets, e.now, p);
            (q < |c.packets| ==> RetryFrom(e, p, c, w) == RetryStep(e, q, c, w) && RetryStep(e, q, c, w).stop)
            && (q == |c.packets| ==> RetryFrom(e, p, c, w) == Step(false, true, false, c, w))
    decreases |c.packets| - p
  {
    if p < |c.packets| && !TimedOut(e.now, c.packets[p]) {
      RetryFromFirst(e, p + 1, c, w);
    }
  }

  /** A resend counts a retry and frees the timed-out write's slot; beyond
      WRITE_RETRIES retries the run fails with nothing sent, otherwise the
      packet's write goes out again with a new deadline. */
  lemma RetryStepResends(e: Env, q: nat, c: Core, w: Wire)
    requires q < |c.packets| && ImageFits(e.image, |c.packets|) && TimedOut(e.now, c.packets[q])
    requires c.pendingWrites <= e.maxPendingWrites && 0 < e.maxPendingWrites
    ensures var r := RetryStep(e, q, c, w);
            var n := ToU8(c.packets[q].retries + 1);
            r.stop && r.core.packets[q].retries == n && r.core.packets[q].state == WriteSent
            && r.core.packets == c.packets[q := r.core.packets[q]]
            && r.core == c.(packets := r.core.packets, pendingWrites := r.core.pendingWrites)
            && r.core.pendingWrites <= e.maxPendingWrites
            && (n > WRITE_RETRIES ==> !r.ok && r.wire == w && r.core.pendingWrites == Released(c.pendingWrites))
            && (n <= WRITE_RETRIES ==>
                  r.wire == Transmit(w, PacketWrite(e, |c.packets|, q))
                  && r.ok == Accepted(w, PacketWrite(e, |c.packets|, q))
                  && (r.ok ==> r.core.packets[q].deadline == e.now + WriteTimeout(c)
                               && r.core.pendingWrites == Released(c.pendingWrites) + 1))
  {
  }

  /** A write frame is not an erase. */
  lemma WriteIsNoErase(e: Env, np: nat, q: nat, w: Wire)
    requires ImageFits(e.image, np) && q < np
    ensures NoEraseSent(w, Transmit(w, PacketWrite(e, np, q)))
  {
    PacketInImage(e.image, np, q);
    WriteFrameLayout(e.fwBase, e.image, q);
    var t := Transmit(w, PacketWrite(e, np, q));
    var x := t.sent[|w.sent|];
    if |x| >= 4 {
      assert x[3] == PacketWrite(e, np, q)[3];
    }
  }

  /** updWritePacket sends at most one command, and no erase; the
      pending writes stay within MaxPendingWritesNum, no packet starts
      being written unless it was erased, and the sectors are left alone. */
  lemma WriteRoundSendsOne(e: Env, c: Core, w: Wire)
    requires c.writtenUntil <= |c.packets| && ImageFits(e.image, |c.packets|)
    requires c.pendingWrites <= e.maxPendingWrites && 0 < e.maxPendingWrites
    ensures var r := WriteRound(e, c, w);
            NoEraseSent(w, r.wire) && |r.wire.sent| <= |w.sent| + 1
            && r.core.pendingWrites <= e.maxPendingWrites
            && WritesFollowErases(c.packets, r.core.packets)
            && r.core.sectors == c.sectors && r.core.pendingErases == c.pendingErases
  {
    var first := FreshFrom(e, c.writtenUntil, false, c, w);
    FreshFromSends(e, c.writtenUntil, false, c, w);
    var q := FirstReady(c.packets, c.writtenUntil);
    if first.stop {
      assert WriteRound(e, c, w) == Round(first.ok, first.core, first.wire);
      WriteIsNoErase(e, |c.packets|, q, w);
      StartWrite(c.packets, q, first.core.packets[q]);
    } else {
      var c1 := first.core;
      var r := RetryFrom(e, 0, c1, w);
      assert WriteRound(e, c, w) == Round(r.ok, r.core, r.wire);
      RetryRound(e, c1, w);
      var t := FirstTimedOut(c.packets, e.now, 0);
      if t < |c.packets| {
        StartWrite(c.packets, t, r.core.packets[t]);
        if ToU8(c.packets[t].retries + 1) <= WRITE_RETRIES {
          WriteIsNoErase(e, |c.packets|, t, w);
        }
      }
    }
  }

  /** updWritePacket's second loop as a whole: it resends the lowest
      timed-out write, or fails on it beyond WRITE_RETRIES retries, or
      leaves everything as it was. */
  lemma RetryRound(e: Env, c: Core, w: Wire)
    requires ImageFits(e.image, |c.packets|)
    requires c.pendingWrites <= e.maxPendingWrites && 0 < e.maxPendingWrites
    ensures var r := RetryFrom(e, 0, c, w);
            var t := FirstTimedOut(c.packets, e.now, 0);
            (t == |c.packets| ==> r.wire == w && r.ok && r.core == c)
            && (t < |c.packets| ==>
                  var n := ToU8(c.packets[t].retries + 1);
                  r.core.packets[t].retries == n && r.core.packets[t].state == WriteSent
                  && r.core.packets == c.packets[t := r.core.packets[t]]
                  && r.core == c.(packets := r.core.packets, pendingWrites := r.core.pendingWrites)
                  && r.core.pendingWrites <= e.maxPendingWrites
                  && (n > WRITE_RETRIES ==> !r.ok && r.wire == w)
                  && (n <= WRITE_RETRIES ==> r.wire == Transmit(w, PacketWrite(e, |c.packets|, t))))
  {
    RetryFromFirst(e, 0, c, w);
    var t := FirstTimedOut(c.packets, e.now, 0);
    if t < |c.packets| {
      RetryStepResends(e, t, c, w);
    }
  }

  /** Packet q, erased or being written, now being written. */
  lemma StartWrite(ps: seq<Slot>, q: nat, x: Slot)
    requires q < |ps| && (ps[q].state == EraseAck || ps[q].state == WriteSent) && x.state == WriteSent
    ensures WritesFollowErases(ps, ps[q := x])
  {
  }

  /** What updWritePacket picks: the lowest erased packet from
      writtenUntil on while the queue has room; else the lowest timed-out
      write, which fails the run beyond WRITE_RETRIES retries and is
      otherwise sent again; else nothing. */
  lemma WriteRoundChoice(e: Env, c: Core, w: Wire)
    requires c.writtenUntil <= |c.packets| && ImageFits(e.image, |c.packets|)
    requires c.pendingWrites <= e.maxPendingWrites && 0 < e.maxPendingWrites
    ensures var r := WriteRound(e, c, w);
            var q := FirstReady(c.packets, c.writtenUntil);
            var t := FirstTimedOut(c.packets, e.now, 0);
            var ready := q < |c.packets| && c.pendingWrites < e.maxPendingWrites;
            (ready ==> r.wire == Transmit(w, PacketWrite(e, |c.packets|, q)))
            && (!ready && t == |c.packets| ==> r.wire == w && r.ok && r.core.packets == c.packets)
            && (!ready && t < |c.packets| ==>
                  r.core.packets[t].retries == ToU8(c.packets[t].retries + 1)
                  && (r.core.packets[t].retries > WRITE_RETRIES ==> !r.ok && r.wire == w)
                  && (r.core.packets[t].retries <= WRITE_RETRIES ==> r.wire == Transmit(w, PacketWrite(e, |c.packets|, t))))
  {
    var first := FreshFrom(e, c.writtenUntil, false, c, w);
    FreshFromSends(e, c.writtenUntil, false, c, w);
    if first.stop {
      assert WriteRound(e, c, w) == Round(first.ok, first.core, first.wire);
    } else {
      var c1 := first.core;
      var r := RetryFrom(e, 0, c1, w);
      assert WriteRound(e, c, w) == Round(r.ok, r.core, r.wire);
      RetryRound(e, c1, w);
    }
  }
}
