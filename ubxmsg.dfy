// UBX frame codec (ubxmsg.c, ubxmsg.h): building a frame
//   B5 62 | class | id | length LE16 | payload | ck_a ck_b
// and scanning a byte buffer for the first complete frame whose checksum
// verifies.
module UbxMsg {
  import opened Bytes
  import opened Checksum

  const SYNC_CHAR_1: byte := 0xB5
  const SYNC_CHAR_2: byte := 0x62
  const PREFIX_SIZE: nat := 2
  const CHKSUM_SIZE: nat := 2
  const HEAD_SIZE: nat := 6
  const FRAME_SIZE: nat := 8
  /** No receiver sends a frame longer than 2 * 8192 bytes. */
  const MAX_FRAME_SIZE: nat := 2 * 8192

  // classes
  const CLASS_ACK: byte := 0x05
  const CLASS_CFG: byte := 0x06
  const CLASS_UPD: byte := 0x09
  const CLASS_MON: byte := 0x0A
  // class ACK
  const ACK_NAK: byte := 0x00
  const ACK_ACK: byte := 0x01
  // class CFG
  const CFG_PORT: byte := 0x00
  const CFG_RST: byte := 0x04
  // class UPD
  const UPD_AUTHREAD: byte := 0x20
  const UPD_CERASE: byte := 0x16
  const UPD_CRC: byte := 0x0D
  const UPD_DOWNL: byte := 0x01
  const UPD_ERASE: byte := 0x0B
  const UPD_FLDET: byte := 0x08
  const UPD_FLWRI: byte := 0x0C
  const UPD_IDEN: byte := 0x06
  const UPD_QSIZE: byte := 0x09
  const UPD_RBOOT: byte := 0x0E
  const UPD_SAFE: byte := 0x07
  const UPD_SETQ: byte := 0x0F
  const UPD_UPLOAD: byte := 0x02
  const UPD_FIS: byte := 0x19
  const UPD_IMG: byte := 0x1A
  const UPD_AUTHWRITE: byte := 0x21
  const UPD_ROM: byte := 0x25
  // class MON
  const MON_VER: byte := 0x04

  // payload sizes of the acknowledge messages of the update class
  const UPD_CERASE_DATA1_PAYLOAD_SIZE: nat := 1
  const UPD_ERASE_DATA1_PAYLOAD_SIZE: nat := 5
  const UPD_FLWRI_DATA1_PAYLOAD_SIZE: nat := 5

  // ---------------------------------------------------------------------
  // Frame layout
  // ---------------------------------------------------------------------

  predicate SyncAt(buf: seq<byte>, i: nat)
  {
    i + 2 <= |buf| && buf[i] == SYNC_CHAR_1 && buf[i + 1] == SYNC_CHAR_2
  }

  /** Class, id and declared payload length of the header at i. */
  function ClassAt(buf: seq<byte>, i: nat): byte requires i + HEAD_SIZE <= |buf| { buf[i + 2] }
  function IdAt(buf: seq<byte>, i: nat): byte requires i + HEAD_SIZE <= |buf| { buf[i + 3] }
  function LengthAt(buf: seq<byte>, i: nat): u16 requires i + HEAD_SIZE <= |buf| { LE16At(buf, i + 4) }

  /** The header and declared payload of the frame at i lie in buf. */
  predicate CompleteAt(buf: seq<byte>, i: nat)
  {
    i + FRAME_SIZE <= |buf| && i + FRAME_SIZE + LengthAt(buf, i) <= |buf|
  }

  /** UbxCheckCrc's condition: the two bytes after the payload are ck_a and
      ck_b of the class byte through the end of the payload. */
  predicate CrcHolds(buf: seq<byte>, i: nat)
    requires CompleteAt(buf, i)
  {
    var n := LengthAt(buf, i);
    var c := U1Checksum(buf[i + PREFIX_SIZE .. i + HEAD_SIZE + n]);
    buf[i + HEAD_SIZE + n] == c % 0x100 && buf[i + HEAD_SIZE + n + 1] == c / 0x100
  }

  /** A frame the scan accepts: sync, a plausible length, complete, and a
      checksum that verifies. */
  predicate ValidFrameAt(buf: seq<byte>, i: nat)
  {
    SyncAt(buf, i) && CompleteAt(buf, i) && LengthAt(buf, i) + FRAME_SIZE <= MAX_FRAME_SIZE
    && CrcHolds(buf, i)
  }

  /** The frame UbxCreateMessage builds. The U2 length field keeps only the
      low 16 bits of the payload size. */
  function Frame(classId: byte, msgId: byte, payload: seq<byte>): seq<byte>
  {
    var body := [classId, msgId] + EncodeLE16(|payload| % 0x1_0000) + payload;
    var c := U1Checksum(body);
    [SYNC_CHAR_1, SYNC_CHAR_2] + body + [c % 0x100, c / 0x100]
  }

  // ---------------------------------------------------------------------
  // UbxCreateMessage
  // ---------------------------------------------------------------------

  /** Builds the frame in a fresh buffer of PayloadSize + 8 bytes: header,
      payload, then the checksum over everything but the sync pair. */
  method UbxCreateMessage(classId: byte, msgId: byte, payload: seq<byte>) returns (msg: seq<byte>)
    ensures msg == Frame(classId, msgId, payload)
    ensures |msg| == |payload| + FRAME_SIZE
  {
    var n := |payload|;
    var buf := new byte[n + FRAME_SIZE];
    var size := EncodeLE16(n % 0x1_0000);
    buf[0], buf[1], buf[2], buf[3], buf[4], buf[5] := SYNC_CHAR_1, SYNC_CHAR_2, classId, msgId, size[0], size[1];
    var i := 0;
    while i < n
      invariant 0 <= i <= n
      invariant buf[..HEAD_SIZE] == [SYNC_CHAR_1, SYNC_CHAR_2, classId, msgId, size[0], size[1]]
      invariant buf[HEAD_SIZE..HEAD_SIZE + i] == payload[..i]
    {
      buf[HEAD_SIZE + i] := payload[i];
      i := i + 1;
    }
    ghost var front := buf[..HEAD_SIZE + n];
    ghost var filled: seq<byte> := buf[..];
    FrontOfFrame(filled, classId, msgId, size, payload);
    assert buf[2..HEAD_SIZE + n] == front[2..];
    var crc := GetUbxChecksumU1(buf[2..HEAD_SIZE + n]);
    var lo: byte, hi: byte := crc % 0x100, crc / 0x100;
    buf[HEAD_SIZE + n] := lo;
    buf[HEAD_SIZE + n + 1] := hi;
    msg := buf[..];
    assert msg == filled[HEAD_SIZE + n := lo][HEAD_SIZE + n + 1 := hi];
    CloseFrame(filled, front, lo, hi);
  }

  /** Two bytes stored just past a filled front end the buffer with them. */
  lemma CloseFrame(filled: seq<byte>, front: seq<byte>, lo: byte, hi: byte)
    requires |filled| == |front| + 2 && filled[..|front|] == front
    ensures filled[|front| := lo][|front| + 1 := hi] == front + [lo, hi]
  {
  }

  /** A buffer holding the header and then the payload starts with the sync
      characters and the checksummed body. */
  lemma FrontOfFrame(buf: seq<byte>, classId: byte, msgId: byte, size: seq<byte>, payload: seq<byte>)
    requires |size| == 2 && HEAD_SIZE + |payload| <= |buf|
    requires buf[..HEAD_SIZE] == [SYNC_CHAR_1, SYNC_CHAR_2, classId, msgId, size[0], size[1]]
    requires buf[HEAD_SIZE..HEAD_SIZE + |payload|] == payload
    ensures buf[..HEAD_SIZE + |payload|] == [SYNC_CHAR_1, SYNC_CHAR_2] + ([classId, msgId] + size + payload)
    ensures buf[..HEAD_SIZE + |payload|][2..] == [classId, msgId] + size + payload
  {
    var n := |payload|;
    assert buf[..HEAD_SIZE + n] == buf[..HEAD_SIZE] + buf[HEAD_SIZE..HEAD_SIZE + n];
    assert size == [size[0], size[1]];
  }

  /** Bytes 0..5 are B5 62, class, id and the length; the payload follows
      verbatim, and ck_a, ck_b close the frame. */
  lemma FrameLayout(classId: byte, msgId: byte, payload: seq<byte>)
    requires |payload| < 0x1_0000
    ensures var f := Frame(classId, msgId, payload);
            var n := |payload|;
            |f| == n + FRAME_SIZE
            && f[0] == SYNC_CHAR_1 && f[1] == SYNC_CHAR_2 && f[2] == classId && f[3] == msgId
            && LE16At(f, 4) == n
            && f[HEAD_SIZE..HEAD_SIZE + n] == payload
            && f[HEAD_SIZE + n] == U1Checksum(f[PREFIX_SIZE..HEAD_SIZE + n]) % 0x100
            && f[HEAD_SIZE + n + 1] == U1Checksum(f[PREFIX_SIZE..HEAD_SIZE + n]) / 0x100
  {
    var f := Frame(classId, msgId, payload);
    var n := |payload|;
    var body := [classId, msgId] + EncodeLE16(n) + payload;
    assert f[PREFIX_SIZE..HEAD_SIZE + n] == body;
    assert f[HEAD_SIZE..HEAD_SIZE + n] == payload;
  }

  /** Every frame UbxCreateMessage builds passes UbxCheckCrc, and the scan
      accepts it when its length is plausible. */
  lemma CreatedFrameChecks(classId: byte, msgId: byte, payload: seq<byte>)
    requires |payload| < 0x1_0000
    ensures CompleteAt(Frame(classId, msgId, payload), 0)
    ensures CrcHolds(Frame(classId, msgId, payload), 0)
    ensures ClassAt(Frame(classId, msgId, payload), 0) == classId
    ensures IdAt(Frame(classId, msgId, payload), 0) == msgId
    ensures LengthAt(Frame(classId, msgId, payload), 0) == |payload|
    ensures |payload| + FRAME_SIZE <= MAX_FRAME_SIZE ==> ValidFrameAt(Frame(classId, msgId, payload), 0)
  {
    FrameLayout(classId, msgId, payload);
  }

  /** The fields of a created frame are recovered from it. */
  lemma FramePayload(classId: byte, msgId: byte, payload: seq<byte>)
    requires |payload| < 0x1_0000
    ensures Payload(Frame(classId, msgId, payload), 0) == payload
  {
    FrameLayout(classId, msgId, payload);
  }

  /** The payload of the complete frame at i. */
  function Payload(buf: seq<byte>, i: nat): (p: seq<byte>)
    requires CompleteAt(buf, i)
    ensures |p| == LengthAt(buf, i)
  {
    buf[i + HEAD_SIZE .. i + HEAD_SIZE + LengthAt(buf, i)]
  }

  /** A frame embedded in a larger buffer is read the same way. */
  lemma ValidFrameIn(pre: seq<byte>, f: seq<byte>, post: seq<byte>)
    requires ValidFrameAt(f, 0) && |f| == FRAME_SIZE + LengthAt(f, 0)
    ensures ValidFrameAt(pre + f + post, |pre|)
    ensures (pre + f + post)[|pre|..|pre| + |f|] == f
  {
    var s := pre + f + post;
    var i := |pre|;
    var n := LengthAt(f, 0);
    assert s[i..i + |f|] == f;
    assert s[i + PREFIX_SIZE .. i + HEAD_SIZE + n] == f[PREFIX_SIZE .. HEAD_SIZE + n];
  }

  // ---------------------------------------------------------------------
  // UbxCheckCrc
  // ---------------------------------------------------------------------

  method UbxCheckCrc(buf: seq<byte>, i: nat) returns (ok: bool)
    requires CompleteAt(buf, i)
    ensures ok == CrcHolds(buf, i)
  {
    var size := LE16At(buf, i + 4);
    var crc := GetUbxChecksumU1(buf[i + PREFIX_SIZE .. i + size + FRAME_SIZE - CHKSUM_SIZE]);
    var crcAPacket := buf[i + HEAD_SIZE + size];
    var crcBPacket := buf[i + HEAD_SIZE + size + 1];
    ok := crcAPacket == crc % 0x100 && crcBPacket == crc / 0x100;
  }

  // ---------------------------------------------------------------------
  // UbxSearchMsg
  // ---------------------------------------------------------------------

  /** The scan never reaches the branch in which a header whose length
      exceeds the 16384-byte limit is dropped by one byte while the stale
      length still fits the rest of the buffer (the source then reuses the
      stale header). */
  predicate NoStaleReuse(buf: seq<byte>)
  {
    forall i: nat :: i + FRAME_SIZE <= |buf| && SyncAt(buf, i)
      && LengthAt(buf, i) + FRAME_SIZE > MAX_FRAME_SIZE
      ==> |buf| - i - 1 < LengthAt(buf, i) + FRAME_SIZE
  }

  /** Outcome of the scan from p: whether a frame was found, and where the
      cursor *ppMsg stops. */
  function Search(buf: seq<byte>, p: nat): (r: (bool, nat))
    requires p <= |buf|
    requires NoStaleReuse(buf)
    decreases |buf| - p
  {
    if |buf| - p <= 2 then (false, p)
    else if !SyncAt(buf, p) then Search(buf, p + 1)
    else if |buf| - p < FRAME_SIZE then (false, p)
    else if LengthAt(buf, p) + FRAME_SIZE > MAX_FRAME_SIZE then (false, p + 1)
    else if |buf| - p < LengthAt(buf, p) + FRAME_SIZE then (false, p)
    else if CrcHolds(buf, p) then (true, p)
    else Search(buf, p + 1)
  }

  /** Looks for the first complete frame whose checksum verifies, dropping
      one byte at a time past unsynchronised or corrupt data. */
  method UbxSearchMsg(buf: seq<byte>) returns (found: bool, msg: nat)
    requires NoStaleReuse(buf)
    ensures (found, msg) == Search(buf, 0)
    ensures msg <= |buf|
    ensures found ==> ValidFrameAt(buf, msg)
  {
    var p := 0;
    var size := |buf|;
    var valid := false;
    while true
      invariant 0 <= p <= |buf| && size == |buf| - p
      invariant Search(buf, p) == Search(buf, 0)
      decreases size
    {
      while size > 2 && !(buf[p] == SYNC_CHAR_1 && buf[p + 1] == SYNC_CHAR_2)
        invariant 0 <= p <= |buf| && size == |buf| - p
        invariant Search(buf, p) == Search(buf, 0)
      {
        p := p + 1;
        size := size - 1;
      }
      if !(size > 2 && buf[p] == SYNC_CHAR_1 && buf[p + 1] == SYNC_CHAR_2) {
        return false, p;
      }
      msg := p;
      if size >= FRAME_SIZE {
        var hdrSize := LE16At(buf, p + 4);
        if hdrSize + FRAME_SIZE > MAX_FRAME_SIZE {
          p := p + 1;
          msg := p;
          size := size - 1;
        }
        if size >= hdrSize + FRAME_SIZE {
          var crcOk := UbxCheckCrc(buf, p);
          if crcOk {
            return true, p;
          } else {
            p := p + 1;
            msg := p;
            size := size - 1;
          }
        } else {
          return false, msg;
        }
      } else {
        return false, p;
      }
    }
  }

  /** What the scan from p promises: no acceptable frame starts between p
      and the cursor; on success the cursor starts one; on failure the scan
      ran out of bytes, met an incomplete frame, or dropped one byte of an
      oversized header. */
  lemma SearchSpec(buf: seq<byte>, p: nat)
    requires p <= |buf| && NoStaleReuse(buf)
    ensures var r := Search(buf, p);
            p <= r.1 <= |buf|
            && (forall j :: p <= j < r.1 ==> !ValidFrameAt(buf, j))
            && (r.0 ==> ValidFrameAt(buf, r.1))
            && (!r.0 ==> |buf| - r.1 <= 2
                         || (SyncAt(buf, r.1) && !CompleteAt(buf, r.1))
                         || (0 < r.1 && SyncAt(buf, r.1 - 1) && r.1 - 1 + FRAME_SIZE <= |buf|
                             && LengthAt(buf, r.1 - 1) + FRAME_SIZE > MAX_FRAME_SIZE))
  {
    SearchPassesOver(buf, p);
    SearchVerdict(buf, p);
  }

  /** The scan passes over no valid frame. */
  lemma {:induction false} SearchPassesOver(buf: seq<byte>, p: nat)
    requires p <= |buf| && NoStaleReuse(buf)
    ensures var r := Search(buf, p);
            p <= r.1 <= |buf| && forall j :: p <= j < r.1 ==> !ValidFrameAt(buf, j)
    decreases |buf| - p
  {
    if 2 < |buf| - p && (!SyncAt(buf, p) || (FRAME_SIZE <= |buf| - p
        && LengthAt(buf, p) + FRAME_SIZE <= MAX_FRAME_SIZE
        && LengthAt(buf, p) + FRAME_SIZE <= |buf| - p && !CrcHolds(buf, p))) {
      assert Search(buf, p) == Search(buf, p + 1) && !ValidFrameAt(buf, p);
      SearchPassesOver(buf, p + 1);
    }
  }

  /** Where the scan stops, a valid frame stands, or it stopped for one of
      the three reasons the source has for giving up. */
  lemma {:induction false} SearchVerdict(buf: seq<byte>, p: nat)
    requires p <= |buf| && NoStaleReuse(buf)
    ensures var r := Search(buf, p);
            (r.0 ==> ValidFrameAt(buf, r.1))
            && (!r.0 ==> |buf| - r.1 <= 2
                         || (SyncAt(buf, r.1) && !CompleteAt(buf, r.1))
                         || (0 < r.1 && SyncAt(buf, r.1 - 1) && r.1 - 1 + FRAME_SIZE <= |buf|
                             && LengthAt(buf, r.1 - 1) + FRAME_SIZE > MAX_FRAME_SIZE))
    decreases |buf| - p
  {
    if |buf| - p <= 2 {
      assert Search(buf, p) == (false, p);
    } else if !SyncAt(buf, p) {
      assert Search(buf, p) == Search(buf, p + 1);
      SearchVerdict(buf, p + 1);
    } else if |buf| - p < FRAME_SIZE {
      assert Search(buf, p) == (false, p);
    } else if LengthAt(buf, p) + FRAME_SIZE > MAX_FRAME_SIZE {
      assert Search(buf, p) == (false, p + 1);
    } else if |buf| - p < LengthAt(buf, p) + FRAME_SIZE {
      assert Search(buf, p) == (false, p);
    } else if CrcHolds(buf, p) {
      assert Search(buf, p) == (true, p);
    } else {
      assert Search(buf, p) == Search(buf, p + 1);
      SearchVerdict(buf, p + 1);
    }
  }

  /** A buffer that starts with a created frame yields that frame at
      offset 0. */
  lemma SearchFindsLeadingFrame(classId: byte, msgId: byte, payload: seq<byte>, rest: seq<byte>)
    requires |payload| + FRAME_SIZE <= MAX_FRAME_SIZE
    requires NoStaleReuse(Frame(classId, msgId, payload) + rest)
    ensures Search(Frame(classId, msgId, payload) + rest, 0) == (true, 0)
  {
    var f := Frame(classId, msgId, payload);
    CreatedFrameChecks(classId, msgId, payload);
    FrameLayout(classId, msgId, payload);
    ValidFrameIn([], f, rest);
    assert [] + f + rest == f + rest;
  }

  /** A buffer holding exactly one created frame yields it at offset 0. */
  lemma SearchFindsSingleFrame(classId: byte, msgId: byte, payload: seq<byte>)
    requires |payload| + FRAME_SIZE <= MAX_FRAME_SIZE
    ensures NoStaleReuse(Frame(classId, msgId, payload))
    ensures Search(Frame(classId, msgId, payload), 0) == (true, 0)
  {
    var f := Frame(classId, msgId, payload);
    FrameLayout(classId, msgId, payload);
    assert f + [] == f;
    SearchFindsLeadingFrame(classId, msgId, payload, []);
  }

  /** A complete frame whose checksum fails costs exactly one byte and the
      scan goes on. */
  lemma CorruptFrameSkipped(buf: seq<byte>, p: nat)
    requires p <= |buf| && NoStaleReuse(buf)
    requires SyncAt(buf, p) && CompleteAt(buf, p)
    requires LengthAt(buf, p) + FRAME_SIZE <= MAX_FRAME_SIZE && !CrcHolds(buf, p)
    ensures Search(buf, p) == Search(buf, p + 1)
  {
  }

  /** A declared length beyond the limit advances the cursor by exactly one
      byte and ends the scan. */
  lemma OversizedHeaderDropsOneByte(buf: seq<byte>, p: nat)
    requires p + FRAME_SIZE <= |buf| && NoStaleReuse(buf)
    requires SyncAt(buf, p) && LengthAt(buf, p) + FRAME_SIZE > MAX_FRAME_SIZE
    ensures Search(buf, p) == (false, p + 1)
  {
  }

  /** Whatever precedes the first sync pair is skipped. */
  lemma {:induction false} SearchSkipsNoise(noise: seq<byte>, buf: seq<byte>, p: nat)
    requires p <= |buf| && NoStaleReuse(buf)
    requires p + |noise| <= |buf| && buf[p..p + |noise|] == noise
    requires forall j :: p <= j < p + |noise| ==> !SyncAt(buf, j)
    requires |buf| - (p + |noise|) > 2
    ensures Search(buf, p) == Search(buf, p + |noise|)
    decreases |noise|
  {
    if |noise| > 0 {
      assert buf[p + 1..p + 1 + |noise[1..]|] == noise[1..];
      SearchSkipsNoise(noise[1..], buf, p + 1);
    }
  }
}
