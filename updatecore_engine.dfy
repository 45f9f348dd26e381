// UPD_CORE_t and the functions of updateCore.c that work on it: the
// acknowledge arrays and counters live in an object whose methods update
// them in place while they send commands and take in acknowledgements.
// Every method is proved to leave exactly the state the corresponding
// fold or handler of UpdateCore computes from the state it started in.
//
// The three parallel arrays per sector (pEraseState, pEraseTimeout,
// pEraseRetryCnt) and per packet (pWriteState, pWriteTimeout,
// pWriteRetryCnt) are one array of Slot each.
module UpdateEngine {
  import opened Bytes
  import opened UbxMsg
  import opened Flash
  import opened Platform
  import opened Receiver
  import opened UpdateCore
  import CLib

  class Engine {
    /** Rx: the session commands go out on and acknowledgements come in. */
    const rx: Session
    /** FlashOrg and FlashSize. */
    const blocks: seq<Block>
    const flashSize: u32
    /** MaxPendingWritesNum: the depth of the write queue. */
    const maxPendingWrites: u32
    const sectors: array<Slot>
    const packets: array<Slot>
    var pendingErases: u32
    var pendingWrites: u32
    var erasedUntil: nat
    var writtenUntil: nat
    /** eraseInProgres: a chip erase was started and has not been acked. */
    var eraseInProgress: bool
    /** pData / ImageSize and FwBase, set by updUpdate. */
    var image: seq<byte>
    var fwBase: u32

    /** NumberSectors and NumberPackets fit the I4 the source keeps them
        in, the flash organisation has blocks and fits a U4, and the two
        cursors stay within their arrays. */
    predicate Valid()
      reads this, rx, rx.buf
    {
      rx.Valid() && sectors != packets
      && sectors.Length < 0x8000_0000 && packets.Length < 0x8000_0000
      && |blocks| > 0 && Fits(blocks)
      && erasedUntil <= sectors.Length && writtenUntil <= packets.Length
    }

    /** The changing part of the handler, as UpdateCore sees it. */
    function State(): Core
      reads this, sectors, packets
    {
      Core(sectors[..], packets[..], pendingErases, pendingWrites, erasedUntil, writtenUntil, eraseInProgress)
    }

    /** What a scan reads and does not change, TIME_GET included. */
    function Setting(): UpdateCore.Env
      reads this, rx, rx.port
    {
      UpdateCore.Env(blocks, fwBase, image, maxPendingWrites, rx.port.now)
    }

    /** The sending side of the port. */
    function Link(): Wire
      reads this, rx, rx.port
    {
      Wire(rx.port.sent, rx.port.writeLimits)
    }

    /** updInit: nothing erased, written or pending; with no sector to
        erase every packet starts out erased. */
    constructor (rx: Session, numberSectors: nat, numberPackets: nat, blocks: seq<Block>,
                 flashSize: u32, maxPendingWrites: u32, eraseInProgress: bool)
      requires rx.Valid() && |blocks| > 0 && Fits(blocks)
      requires numberSectors < 0x8000_0000 && numberPackets < 0x8000_0000
      ensures Valid() && fresh(sectors) && fresh(packets)
      ensures State() == InitialCore(numberSectors, numberPackets, eraseInProgress)
      ensures this.rx == rx && this.blocks == blocks && this.flashSize == flashSize
      ensures this.maxPendingWrites == maxPendingWrites
      ensures image == [] && fwBase == 0
    {
      this.rx := rx;
      this.blocks := blocks;
      this.flashSize := flashSize;
      this.maxPendingWrites := maxPendingWrites;
      sectors := new Slot[numberSectors](_ => Slot(Init, 0, 0));
      packets := new Slot[numberPackets](_ => Slot(if numberSectors == 0 then EraseAck else Init, 0, 0));
      pendingErases := 0;
      pendingWrites := 0;
      erasedUntil := 0;
      writtenUntil := 0;
      this.eraseInProgress := eraseInProgress;
      image := [];
      fwBase := 0;
      new;
      assert sectors[..] == InitialCore(numberSectors, numberPackets, eraseInProgress).sectors;
      assert packets[..] == InitialCore(numberSectors, numberPackets, eraseInProgress).packets;
    }

    // -------------------------------------------------------------------
    // updEraseSector
    // -------------------------------------------------------------------

    /** One pass of updEraseSector's loop, at sector. */
    method EraseOne(sector: nat, found: bool) returns (stop: bool, ok: bool, found': bool)
      requires Valid() && sector < sectors.Length
      modifies this, sectors, packets, rx.port
      ensures Valid()
      ensures var st := EraseStep(old(Setting()), sector, found, old(State()), old(Link()));
              stop == st.stop && ok == st.ok && found' == st.found
              && State() == st.core && Link() == st.wire
      ensures rx.port.now == old(rx.port.now) && rx.port.incoming == old(rx.port.incoming)
      ensures rx.port.baudrate == old(rx.port.baudrate)
      ensures image == old(image) && fwBase == old(fwBase)
    {
      var packetNr := GetPacketNrForSector(sector, blocks, PACKETSIZE);
      if packetNr == -1 {
        return true, false, found;
      }
      var sec := sectors[sector];
      if sec.state == EraseAck {
        if !found {
          erasedUntil := sector + 1;
        }
        return false, true, found;
      }
      var timedOut := sec.state == EraseSent && sec.deadline <= rx.port.now;
      if timedOut {
        ExpireErase(sector);
      }
      stop, ok := EraseTry(sector, packetNr, timedOut);
      found' := true;
    }

    /** A timed-out erase of sector: one retry more, one pending erase less. */
    method ExpireErase(sector: nat)
      requires Valid() && sector < sectors.Length
      modifies this, sectors
      ensures Valid() && State() == Expire(sector, old(State()))
      ensures Setting() == old(Setting()) && Link() == old(Link())
      ensures unchanged(rx.port) && image == old(image) && fwBase == old(fwBase)
    {
      pendingErases := ToU32(pendingErases - 1);
      sectors[sector] := sectors[sector].(retries := ToU8(sectors[sector].retries + 1));
    }

    /** The rest of the pass for a sector not yet erased. */
    method EraseTry(sector: nat, packetNr: nat, timedOut: bool) returns (stop: bool, ok: bool)
      requires Valid() && sector < sectors.Length
      modifies this, sectors, packets, rx.port
      ensures Valid()
      ensures var st := UpdateCore.EraseTry(old(Setting()), sector, packetNr, timedOut, old(State()), old(Link()));
              stop == st.stop && ok == st.ok && State() == st.core && Link() == st.wire
      ensures rx.port.now == old(rx.port.now) && rx.port.incoming == old(rx.port.incoming)
      ensures rx.port.baudrate == old(rx.port.baudrate)
      ensures image == old(image) && fwBase == old(fwBase)
    {
      if timedOut && sectors[sector].retries > ERASE_RETRIES {
        return true, false;
      }
      if pendingErases < MAX_PENDING_ERASES && sectors[sector].deadline <= rx.port.now {
        ok := EraseSend(sector, packetNr);
        return !ok, ok;
      }
      return false, true;
    }

    /** The erase command of a pass. */
    method EraseSend(sector: nat, packetNr: nat) returns (sent: bool)
      requires Valid() && sector < sectors.Length
      modifies this, sectors, packets, rx.port
      ensures Valid()
      ensures var st := UpdateCore.EraseSend(old(Setting()), sector, packetNr, old(State()), old(Link()));
              sent == st.ok && State() == st.core && Link() == st.wire
      ensures rx.port.now == old(rx.port.now) && rx.port.incoming == old(rx.port.incoming)
      ensures rx.port.baudrate == old(rx.port.baudrate)
      ensures image == old(image) && fwBase == old(fwBase)
    {
      var address := ToU32(fwBase + packetNr * PACKETSIZE);
      sent := rx.SendMessage(CLASS_UPD, UPD_ERASE, EncodeLE32(address));
      if !sent {
        return;
      }
      pendingErases := ToU32(pendingErases + 1);
      sectors[sector] := Slot(EraseSent, rx.port.now + ERASE_TIMEOUT, sectors[sector].retries);
      if packetNr < packets.Length {
        packets[packetNr] := packets[packetNr].(state := EraseSent);
      }
    }

    /** One pass of updEraseSector's loop, as a step of the scan. */
    method ErasePass(sector: nat, found: bool) returns (stop: bool, ok: bool, found': bool)
      requires Valid() && sector < sectors.Length
      modifies this, sectors, packets, rx.port
      ensures Valid() && Setting() == old(Setting())
      ensures var goal := EraseFrom(old(Setting()), sector, found, old(State()), old(Link()));
              if stop then ok == goal.ok && State() == goal.core && Link() == goal.wire
              else EraseFrom(Setting(), sector + 1, found', State(), Link()) == goal
      ensures rx.port.now == old(rx.port.now) && rx.port.incoming == old(rx.port.incoming)
      ensures rx.port.baudrate == old(rx.port.baudrate)
      ensures image == old(image) && fwBase == old(fwBase)
    {
      EraseFromNext(Setting(), sector, found, State(), Link());
      stop, ok, found' := EraseOne(sector, found);
    }

    /** updEraseSector: the erase scan from erasedUntil on, which sends at
        most one erase per sector and stops at the first failure. */
    method EraseSector() returns (ok: bool)
      requires Valid()
      modifies this, sectors, packets, rx.port
      ensures Valid()
      ensures var r := EraseRound(old(Setting()), old(State()), old(Link()));
              ok == r.ok && State() == r.core && Link() == r.wire
      ensures rx.port.now == old(rx.port.now) && rx.port.incoming == old(rx.port.incoming)
      ensures rx.port.baudrate == old(rx.port.baudrate)
      ensures image == old(image) && fwBase == old(fwBase)
    {
      ghost var e, c0, w0 := Setting(), State(), Link();
      ghost var goal := EraseRound(e, c0, w0);
      var found := false;
      var sector := erasedUntil;
      while sector < sectors.Length
        invariant Valid() && sector <= sectors.Length
        invariant EraseFrom(e, sector, found, State(), Link()) == goal
        invariant Setting() == e
        invariant rx.port.incoming == old(rx.port.incoming) && rx.port.baudrate == old(rx.port.baudrate)
        decreases sectors.Length - sector
      {
        var stop;
        stop, ok, found := ErasePass(sector, found);
        if stop {
          return;
        }
        sector := sector + 1;
      }
      ok := true;
    }

    // -------------------------------------------------------------------
    // updSendWrite and updWritePacket
    // -------------------------------------------------------------------

    /** updSendWrite: the UPD-FLWRI for packet; TRUE iff the driver took
        it whole. */
    method SendWrite(packet: nat) returns (success: bool)
      requires Valid() && packet < packets.Length && ImageFits(image, packets.Length)
      modifies rx.port
      ensures success == Accepted(old(Link()), PacketWrite(old(Setting()), packets.Length, packet))
      ensures Link() == Transmit(old(Link()), PacketWrite(old(Setting()), packets.Length, packet))
      ensures rx.port.now == old(rx.port.now) && rx.port.incoming == old(rx.port.incoming)
      ensures rx.port.baudrate == old(rx.port.baudrate)
    {
      PacketInImage(image, packets.Length, packet);
      WriteSizeIsMin(|image|, packet);
      var tgtAddr := ToU32(fwBase + packet * PACKETSIZE);
      var start := packet * PACKETSIZE;
      var writeSize := PACKETSIZE;
      if |image| < ToU32((packet + 1) * PACKETSIZE) {
        writeSize := |image| - start;
      }
      var payload := EncodeLE32(tgtAddr) + EncodeLE32(writeSize) + image[start..start + writeSize];
      assert payload == WritePayload(fwBase, image, packet);
      assert Frame(CLASS_UPD, UPD_FLWRI, payload) == PacketWrite(Setting(), packets.Length, packet);
      success := rx.SendMessage(CLASS_UPD, UPD_FLWRI, payload);
    }

    /** One pass of updWritePacket's first loop, at packet. */
    method FreshOne(packet: nat, timeout: nat, found: bool) returns (stop: bool, ok: bool, found': bool)
      requires Valid() && packet < packets.Length && ImageFits(image, packets.Length)
      requires pendingWrites < maxPendingWrites && timeout == WriteTimeout(State())
      modifies this, packets, rx.port
      ensures Valid()
      ensures var st := FreshStep(old(Setting()), packet, found, old(State()), old(Link()));
              stop == st.stop && ok == st.ok && found' == st.found
              && State() == st.core && Link() == st.wire
      ensures rx.port.now == old(rx.port.now) && rx.port.incoming == old(rx.port.incoming)
      ensures rx.port.baudrate == old(rx.port.baudrate)
      ensures !stop ==> writtenUntil == old(writtenUntil) || writtenUntil == packet + 1
      ensures image == old(image) && fwBase == old(fwBase)
    {
      var pk := packets[packet];
      if pk.state == WriteAck && !found {
        writtenUntil := packet + 1;
        return false, true, false;
      }
      if pk.state != EraseAck {
        return false, true, true;
      }
      packets[packet] := pk.(state := WriteSent);
      ok := WriteSend(packet, timeout);
      return true, ok, true;
    }

    /** The write command of a pass, for a packet already marked
        ACK_WRITE_SENT. */
    method WriteSend(packet: nat, timeout: nat) returns (sent: bool)
      requires Valid() && packet < packets.Length && ImageFits(image, packets.Length)
      requires pendingWrites < maxPendingWrites && timeout == WriteTimeout(State())
      modifies this, packets, rx.port
      ensures Valid()
      ensures var st := UpdateCore.WriteSend(old(Setting()), packet, old(State()), old(Link()));
              sent == st.ok && State() == st.core && Link() == st.wire
      ensures rx.port.now == old(rx.port.now) && rx.port.incoming == old(rx.port.incoming)
      ensures rx.port.baudrate == old(rx.port.baudrate)
      ensures image == old(image) && fwBase == old(fwBase)
    {
      sent := SendWrite(packet);
      if sent {
        pendingWrites := pendingWrites + 1;
        packets[packet] := packets[packet].(deadline := rx.port.now + timeout);
      }
    }

    /** One pass of updWritePacket's second loop, at packet. */
    method RetryOne(packet: nat, timeout: nat) returns (stop: bool, ok: bool)
      requires Valid() && packet < packets.Length && ImageFits(image, packets.Length)
      requires timeout == WriteTimeout(State())
      modifies this, packets, rx.port
      ensures Valid()
      ensures var st := RetryStep(old(Setting()), packet, old(State()), old(Link()));
              stop == st.stop && ok == st.ok && State() == st.core && Link() == st.wire
      ensures rx.port.now == old(rx.port.now) && rx.port.incoming == old(rx.port.incoming)
      ensures rx.port.baudrate == old(rx.port.baudrate)
      ensures image == old(image) && fwBase == old(fwBase)
    {
      var actTime := rx.port.now;
      var pk := packets[packet];
      if !(pk.state == WriteSent && pk.deadline <= actTime) {
        return false, true;
      }
      if pendingWrites != 0 {
        pendingWrites := pendingWrites - 1;
      }
      packets[packet] := pk.(retries := ToU8(pk.retries + 1));
      if packets[packet].retries > WRITE_RETRIES {
        return true, false;
      }
      if pendingWrites >= maxPendingWrites {
        return false, true;
      }
      ok := WriteSend(packet, timeout);
      return true, ok;
    }

    /** updWritePacket: at most one write, a new one from writtenUntil on
        while the queue has room, else the first timed-out one. */
    method WritePacket() returns (ok: bool)
      requires Valid() && ImageFits(image, packets.Length)
      modifies this, packets, rx.port
      ensures Valid()
      ensures var r := WriteRound(old(Setting()), old(State()), old(Link()));
              ok == r.ok && State() == r.core && Link() == r.wire
      ensures rx.port.now == old(rx.port.now) && rx.port.incoming == old(rx.port.incoming)
      ensures rx.port.baudrate == old(rx.port.baudrate)
      ensures image == old(image) && fwBase == old(fwBase)
    {
      var timeout := if eraseInProgress then CHIP_ERASE_TIMEOUT else WRITE_TIMEOUT;
      var sent;
      sent, ok := SendNew(timeout);
      if !sent {
        ok := SendTimedOut(timeout);
      }
    }

    /** One pass of the first loop, in terms of the scan that remains. */
    method FreshPass(packet: nat, timeout: nat, found: bool) returns (stop: bool, ok: bool, found': bool, next: nat)
      requires Valid() && packet < packets.Length && ImageFits(image, packets.Length)
      requires pendingWrites < maxPendingWrites && timeout == WriteTimeout(State())
      modifies this, packets, rx.port
      ensures Valid() && Setting() == old(Setting()) && timeout == WriteTimeout(State())
      ensures var goal := FreshFrom(old(Setting()), packet, found, old(State()), old(Link()));
              if stop then goal.stop && ok == goal.ok && State() == goal.core && Link() == goal.wire
              else next == packet + 1 && FreshFrom(Setting(), next, found', State(), Link()) == goal
      ensures rx.port.now == old(rx.port.now) && rx.port.incoming == old(rx.port.incoming)
      ensures rx.port.baudrate == old(rx.port.baudrate)
      ensures !stop ==> writtenUntil == old(writtenUntil) || writtenUntil == next
      ensures image == old(image) && fwBase == old(fwBase)
    {
      FreshFromNext(Setting(), packet, found, State(), Link());
      stop, ok, found' := FreshOne(packet, timeout, found);
      next := packet + 1;
    }

    /** updWritePacket's first loop. */
    method SendNew(timeout: nat) returns (stop: bool, ok: bool)
      requires Valid() && ImageFits(image, packets.Length) && timeout == WriteTimeout(State())
      modifies this, packets, rx.port
      ensures Valid()
      ensures var st := FreshFrom(old(Setting()), old(writtenUntil), false, old(State()), old(Link()));
              stop == st.stop && ok == st.ok && State() == st.core && Link() == st.wire
      ensures timeout == WriteTimeout(State())
      ensures rx.port.now == old(rx.port.now) && rx.port.incoming == old(rx.port.incoming)
      ensures rx.port.baudrate == old(rx.port.baudrate)
      ensures image == old(image) && fwBase == old(fwBase)
    {
      ghost var e, c0, w0 := Setting(), State(), Link();
      ghost var goal := FreshFrom(e, c0.writtenUntil, false, c0, w0);
      var packet := writtenUntil;
      var found := false;
      while packet < packets.Length && pendingWrites < maxPendingWrites
        invariant Valid() && writtenUntil <= packet <= packets.Length
        invariant Setting() == e && image == old(image) && fwBase == old(fwBase)
        invariant timeout == WriteTimeout(State())
        invariant rx.port.incoming == old(rx.port.incoming) && rx.port.baudrate == old(rx.port.baudrate)
        invariant FreshFrom(e, packet, found, State(), Link()) == goal
        decreases packets.Length - packet
      {
        stop, ok, found, packet := FreshPass(packet, timeout, found);
        if stop {
          return;
        }
      }
      FreshFromDone(e, packet, found, State(), Link());
      return false, true;
    }

    /** updWritePacket's second loop. */
    method SendTimedOut(timeout: nat) returns (ok: bool)
      requires Valid() && ImageFits(image, packets.Length) && timeout == WriteTimeout(State())
      modifies this, packets, rx.port
      ensures Valid()
      ensures var st := RetryFrom(old(Setting()), 0, old(State()), old(Link()));
              ok == st.ok && State() == st.core && Link() == st.wire
      ensures rx.port.now == old(rx.port.now) && rx.port.incoming == old(rx.port.incoming)
      ensures rx.port.baudrate == old(rx.port.baudrate)
      ensures image == old(image) && fwBase == old(fwBase)
    {
      ghost var e, c0, w0 := Setting(), State(), Link();
      var packet := 0;
      while packet < packets.Length
        invariant Valid() && packet <= packets.Length
        invariant Setting() == e && image == old(image) && fwBase == old(fwBase)
        invariant timeout == WriteTimeout(State())
        invariant rx.port.incoming == old(rx.port.incoming) && rx.port.baudrate == old(rx.port.baudrate)
        invariant RetryFrom(e, packet, State(), Link()) == RetryFrom(e, 0, c0, w0)
        decreases packets.Length - packet
      {
        var stop;
        stop, ok := RetryOne(packet, timeout);
        if stop {
          return;
        }
        packet := packet + 1;
      }
      ok := true;
    }

    // -------------------------------------------------------------------
    // updProcessMessages
    // -------------------------------------------------------------------

    /** The body of updProcessMessages' loop for one UPD message. */
    method HandleMessage(m: seq<byte>) returns (status: Status)
      requires Valid() && IsFrame(m)
      modifies this, sectors, packets
      ensures Valid()
      ensures var h := Handle(blocks, fwBase, old(State()), m);
              status == h.status && State() == h.core
      ensures image == old(image) && fwBase == old(fwBase)
    {
      if LengthAt(m, 0) == UPD_ERASE_DATA1_PAYLOAD_SIZE && m[3] == UPD_ERASE {
        var address := LE32At(m, HEAD_SIZE);
        var sector := GetSectorNrForAddress(address, fwBase, 0, blocks);
        status := HandleEraseAck(sector, m[HEAD_SIZE + 4]);
      } else if LengthAt(m, 0) == UPD_FLWRI_DATA1_PAYLOAD_SIZE && m[3] == UPD_FLWRI {
        var address := LE32At(m, HEAD_SIZE);
        var packet := PacketNrForAddress(address, fwBase, PACKETSIZE);
        status := HandleWriteAck(packet, m[HEAD_SIZE + 4]);
      } else if LengthAt(m, 0) == UPD_CERASE_DATA1_PAYLOAD_SIZE && m[3] == UPD_CERASE && eraseInProgress {
        if m[HEAD_SIZE] != 1 {
          return Failure;
        }
        eraseInProgress := false;
        status := Success;
      } else {
        status := Success;
      }
    }

    /** The erase branch of updProcessMessages for sector (-1 for an
        address beyond the flash). */
    method HandleEraseAck(sector: int, success: byte) returns (status: Status)
      requires Valid()
      modifies this, sectors, packets
      ensures Valid()
      ensures var h := UpdateCore.HandleEraseAck(blocks, sector, success, old(State()));
              status == h.status && State() == h.core
      ensures image == old(image) && fwBase == old(fwBase)
    {
      if !(0 <= sector < sectors.Length) {
        return OutOfRange;
      }
      var sec := sectors[sector];
      if success == 0 {
        sectors[sector] := sec.(state := Init, retries := ToU8(sec.retries + 1));
        return Success;
      }
      if sec.state != EraseAck {
        sectors[sector] := sec.(state := EraseAck);
        var b := GetPacketNrForSector(sector, blocks, PACKETSIZE);
        var e := GetPacketNrForSector(sector + 1, blocks, PACKETSIZE);
        MarkPackets(ToU32(b), ToU32(e));
        pendingErases := ToU32(pendingErases - 1);
      }
      return Success;
    }

    /** The write branch of updProcessMessages for packet. */
    method HandleWriteAck(packet: u32, success: byte) returns (status: Status)
      requires Valid()
      modifies this, packets
      ensures Valid()
      ensures var h := UpdateCore.HandleWriteAck(packet, success, old(State()));
              status == h.status && State() == h.core
      ensures image == old(image) && fwBase == old(fwBase)
    {
      if success == 0 {
        return Failure;
      }
      if packet >= packets.Length {
        return OutOfRange;
      }
      var pk := packets[packet];
      if pk.state == WriteSent || pk.state == WriteAck {
        packets[packet] := pk.(state := WriteAck);
        if pendingWrites != 0 {
          pendingWrites := pendingWrites - 1;
        }
      }
      return Success;
    }

    /** The erase handler's loop: packets begin..end-1 below NumberPackets
        become ACK_ERASE_ACK. */
    method MarkPackets(begin: u32, end: u32)
      modifies packets
      ensures packets[..] == MarkErased(old(packets[..]), begin, end)
    {
      var packet: nat := begin;
      while packet < end && packet < packets.Length
        invariant begin <= packet && (packet == begin || (packet <= end && packet <= packets.Length))
        invariant packets[..] == MarkErased(old(packets[..]), begin, packet)
        decreases packets.Length - packet
      {
        packets[packet] := packets[packet].(state := EraseAck);
        packet := packet + 1;
      }
      assert MarkErased(old(packets[..]), begin, packet) == MarkErased(old(packets[..]), begin, end);
    }

    /** The read of updProcessMessages: rcvReceiveMessage with timeout 0
        for the UPD class, taking the next message after the ms already
        taken from s. */
    method NextMessage(ghost s: seq<byte>, ghost ms: seq<seq<byte>>, ghost after: seq<nat>) returns (msg: Option<seq<byte>>)
      requires Valid() && NoOversized(rx.Stream()) && Taken(s, ms, after, rx.Stream())
      modifies rx.buf, rx.buf.data, rx.port
      ensures Valid() && NoOversized(rx.Stream())
      ensures msg.Some? ==> IsFrame(msg.value) && msg.value[2] == CLASS_UPD
                            && Taken(s, ms + [msg.value], after + [|rx.Stream()|], rx.Stream())
                            && |rx.Stream()| < |old(rx.Stream())|
      ensures msg.None? ==> Taken(s, ms, after, rx.Stream())
      ensures rx.port.sent == old(rx.port.sent) && rx.port.writeLimits == old(rx.port.writeLimits)
      ensures rx.port.baudrate == old(rx.port.baudrate) && old(rx.port.now) <= rx.port.now
    {
      ghost var cuts;
      msg, cuts := rx.ReceiveMessage(0, CLASS_UPD, -1);
      if msg.Some? {
        TakenMore(s, ms, after, old(rx.Stream()), msg.value, rx.Stream());
      } else {
        TakenLess(s, ms, after, old(rx.Stream()), rx.Stream());
      }
    }

    /** The messages updProcessMessages handled so far: UPD frames taken
        off the stream s in order, whose handling from c0 left the
        present state with the given status. */
    ghost predicate HandledSoFar(s: seq<byte>, c0: Core, ms: seq<seq<byte>>, after: seq<nat>, status: Status)
      reads this, sectors, packets, rx, rx.buf, rx.buf.data, rx.port
      requires Valid()
    {
      AllFrames(ms) && (forall i :: 0 <= i < |ms| ==> ms[i][2] == CLASS_UPD)
      && Taken(s, ms, after, rx.Stream())
      && HandleAll(blocks, fwBase, c0, ms) == Handled(status, State())
    }

    /** One round of updProcessMessages: the next UPD message, if any, is
        taken after the ms0 already handled and is handled in turn; with
        none left the round sleeps 1 ms and is done. */
    method HandleNext(ghost s: seq<byte>, ghost c0: Core, ghost ms0: seq<seq<byte>>, ghost after0: seq<nat>)
      returns (done: bool, status: Status, ghost ms: seq<seq<byte>>, ghost after: seq<nat>)
      requires Valid() && NoOversized(rx.Stream()) && HandledSoFar(s, c0, ms0, after0, Success)
      modifies this, sectors, packets, rx.buf, rx.buf.data, rx.port
      ensures Valid() && NoOversized(rx.Stream()) && HandledSoFar(s, c0, ms, after, status)
      ensures !done ==> status == Success && |rx.Stream()| < |old(rx.Stream())|
      ensures rx.port.sent == old(rx.port.sent) && rx.port.writeLimits == old(rx.port.writeLimits)
      ensures rx.port.baudrate == old(rx.port.baudrate) && old(rx.port.now) <= rx.port.now
      ensures image == old(image) && fwBase == old(fwBase)
    {
      var msg := NextMessage(s, ms0, after0);
      if msg.None? {
        rx.Pause();
        return true, Success, ms0, after0;
      }
      ms, after := ms0 + [msg.value], after0 + [|rx.Stream()|];
      status := HandleTaken(s, c0, ms0, after, msg.value);
      done := status != Success;
    }

    /** Handles m, the UPD message taken right after ms0. */
    method HandleTaken(ghost s: seq<byte>, ghost c0: Core, ghost ms0: seq<seq<byte>>, ghost after: seq<nat>, m: seq<byte>)
      returns (status: Status)
      requires Valid() && IsFrame(m) && m[2] == CLASS_UPD
      requires AllFrames(ms0) && (forall i :: 0 <= i < |ms0| ==> ms0[i][2] == CLASS_UPD)
      requires HandleAll(blocks, fwBase, c0, ms0) == Handled(Success, State())
      requires Taken(s, ms0 + [m], after, rx.Stream())
      modifies this, sectors, packets
      ensures Valid() && HandledSoFar(s, c0, ms0 + [m], after, status)
      ensures rx.Stream() == old(rx.Stream())
      ensures image == old(image) && fwBase == old(fwBase)
    {
      status := HandleMessage(m);
      assert (ms0 + [m])[..|ms0|] == ms0;
    }

    /** updProcessMessages: handles the UPD messages waiting on the link,
        in order, until none is left (then sleeps 1 ms) or one does not
        succeed. The messages handled, ms, were taken off the incoming
        stream in that order. */
    method ProcessMessages() returns (status: Status, ghost ms: seq<seq<byte>>, ghost after: seq<nat>)
      requires Valid() && NoOversized(rx.Stream())
      modifies this, sectors, packets, rx.buf, rx.buf.data, rx.port
      ensures Valid() && NoOversized(rx.Stream())
      ensures AllFrames(ms) && forall i :: 0 <= i < |ms| ==> ms[i][2] == CLASS_UPD
      ensures Taken(old(rx.Stream()), ms, after, rx.Stream())
      ensures var h := HandleAll(blocks, fwBase, old(State()), ms);
              status == h.status && State() == h.core
      ensures rx.port.sent == old(rx.port.sent) && rx.port.writeLimits == old(rx.port.writeLimits)
      ensures rx.port.baudrate == old(rx.port.baudrate) && old(rx.port.now) <= rx.port.now
      ensures image == old(image) && fwBase == old(fwBase)
    {
      ghost var c0, s0 := State(), rx.Stream();
      ms, after, status := [], [], Success;
      var done := false;
      while !done
        invariant Valid() && NoOversized(rx.Stream()) && HandledSoFar(s0, c0, ms, after, status)
        invariant !done ==> status == Success
        invariant rx.port.sent == old(rx.port.sent) && rx.port.writeLimits == old(rx.port.writeLimits)
        invariant rx.port.baudrate == old(rx.port.baudrate) && old(rx.port.now) <= rx.port.now
        invariant image == old(image) && fwBase == old(fwBase)
        decreases !done, |rx.Stream()|
      {
        done, status, ms, after := HandleNext(s0, c0, ms, after);
      }
    }

    // -------------------------------------------------------------------
    // updUpdate
    // -------------------------------------------------------------------

    /** updUpdate's check that every sector was acked erased. */
    method EraseComplete() returns (complete: bool)
      ensures complete <==> AllErased(sectors[..])
    {
      var sector := 0;
      while sector < sectors.Length
        invariant sector <= sectors.Length
        invariant forall i :: 0 <= i < sector ==> sectors[i].state == EraseAck
      {
        if sectors[sector].state != EraseAck {
          return false;
        }
        sector := sector + 1;
      }
      return true;
    }

    /** updUpdate's check that every packet was acked written. */
    method WriteComplete() returns (complete: bool)
      ensures complete <==> AllWritten(packets[..])
    {
      var packet := 0;
      while packet < packets.Length
        invariant packet <= packets.Length
        invariant forall i :: 0 <= i < packet ==> packets[i].state == WriteAck
      {
        if packets[packet].state != WriteAck {
          return false;
        }
        packet := packet + 1;
      }
      return true;
    }

    /** The wait for the chip erase at the end of updUpdate: it fails when
        no UPD-CERASE arrives within CHIP_ERASE_TIMEOUT, and, for a reply
        whose payload is not 1 byte long, when its first payload byte is
        not 1. */
    method AwaitChipErase() returns (ok: bool, ghost reply: CLib.Option<seq<byte>>)
      requires Valid() && NoOversized(rx.Stream())
      modifies rx.buf, rx.buf.data, rx.port
      ensures Valid() && NoOversized(rx.Stream())
      ensures rx.port.sent == old(rx.port.sent) && rx.port.writeLimits == old(rx.port.writeLimits)
      ensures rx.port.baudrate == old(rx.port.baudrate) && old(rx.port.now) <= rx.port.now
      ensures reply.Some? ==> IsFrame(reply.value) && reply.value[2] == CLASS_UPD && reply.value[3] == UPD_CERASE
                              && EndsWith(old(rx.Stream()), reply.value + rx.Stream())
      ensures reply.None? ==> old(rx.port.now) + CHIP_ERASE_TIMEOUT <= rx.port.now
      ensures ok <==> reply.Some? && (LengthAt(reply.value, 0) != 1 ==> reply.value[HEAD_SIZE] == 1)
    {
      var cErase, cuts := rx.ReceiveMessage(CHIP_ERASE_TIMEOUT, CLASS_UPD, UPD_CERASE);
      reply := cErase;
      if cErase.None? {
        return false, reply;
      }
      if LengthAt(cErase.value, 0) != 1 && cErase.value[HEAD_SIZE] != 1 {
        return false, reply;
      }
      return true, reply;
    }

    /** updUpdate: alternates erase scans and write scans, each followed by
        the acknowledgements that arrived, until the last check of each
        phase found everything erased and written; at most fuel rounds of
        that loop are modelled. On success every sector was seen erased
        (in erased) and every packet seen written (in written) by the
        phases' last checks, and the final state passed the check that
        ran last. */
    /** The erase half of a round of updUpdate: updEraseSector, then
        updProcessMessages, then the check that every sector is acked. */
    method EraseStage() returns (status: Status, complete: bool)
      requires Valid() && NoOversized(rx.Stream())
      modifies this, sectors, packets, rx.buf, rx.buf.data, rx.port
      ensures Valid() && NoOversized(rx.Stream()) && image == old(image) && fwBase == old(fwBase)
      ensures complete ==> status == Success && AllErased(State().sectors)
    {
      var ok := EraseSector();
      if !ok {
        return Failure, false;
      }
      ghost var ms, after;
      status, ms, after := ProcessMessages();
      if status != Success {
        return status, false;
      }
      complete := EraseComplete();
    }

    /** The write half: updWritePacket, updProcessMessages, and the check
        that every packet is acked. */
    method WriteStage() returns (status: Status, complete: bool)
      requires Valid() && NoOversized(rx.Stream()) && ImageFits(image, packets.Length)
      modifies this, sectors, packets, rx.buf, rx.buf.data, rx.port
      ensures Valid() && NoOversized(rx.Stream()) && image == old(image) && fwBase == old(fwBase)
      ensures complete ==> status == Success && AllWritten(State().packets)
    {
      var ok := WritePacket();
      if !ok {
        return Failure, false;
      }
      ghost var ms, after;
      status, ms, after := ProcessMessages();
      if status != Success {
        return status, false;
      }
      complete := WriteComplete();
    }

    method Update(data: seq<byte>, base: u32, fuel: nat) returns (status: Status, ghost erased: Core, ghost written: Core)
      requires Valid() && NoOversized(rx.Stream()) && ImageFits(data, packets.Length)
      modifies this, sectors, packets, rx.buf, rx.buf.data, rx.port
      ensures Valid() && image == data && fwBase == base
      ensures status == Success ==> AllErased(erased.sectors) && AllWritten(written.packets)
                                    && (State() == erased || State() == written)
    {
      image := data;
      fwBase := base;
      var writeComplete := packets.Length == 0;
      var eraseComplete := sectors.Length == 0;
      erased, written := State(), State();
      var rounds := fuel;
      while !writeComplete || !eraseComplete
        invariant Valid() && NoOversized(rx.Stream()) && image == data && fwBase == base
        invariant eraseComplete ==> AllErased(erased.sectors)
        invariant writeComplete ==> AllWritten(written.packets)
        invariant State() == erased || State() == written
        decreases rounds
      {
        if rounds == 0 {
          return OutOfFuel, erased, written;
        }
        rounds := rounds - 1;
        if !eraseComplete {
          var s;
          s, eraseComplete := EraseStage();
          if s != Success {
            return s, erased, written;
          }
          erased := State();
        }
        if !writeComplete {
          var s;
          s, writeComplete := WriteStage();
          if s != Success {
            return s, erased, written;
          }
          written := State();
        }
      }
      if eraseInProgress {
        var ok, _ := AwaitChipErase();
        if !ok {
          return Failure, erased, written;
        }
      }
      return Success, erased, written;
    }
  }
}
