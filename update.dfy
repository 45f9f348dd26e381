// update.c: the decisions UpdateFirmware takes around the update proper —
// the receiver's hardware generation read from UBX-MON-VER, the ROM size
// and ROM version tables, the image compatibility rule, the packet count,
// the UBX-UPD-CRC verify request and its reply check, the address of the
// erased-flash marker, and updateImageToRam, the chunked download of an
// image into the receiver's RAM.
module Update {
  import opened Bytes
  import opened UbxMsg
  import opened Checksum
  import opened Platform
  import opened Receiver
  import CLib
  import UpdateCore

  /** sizeof(APP_UBX_UPD_IMG_PAYLOAD_t.chunkData). */
  const CHUNK_SIZE: nat := 512
  /** updateImageToRam sends while fewer than this many chunks are unacked. */
  const MAX_UNACKED: nat := 5
  /** Offset of the HW version string in the MON-VER payload. */
  const HW_OFFSET: nat := 30

  // ---------------------------------------------------------------------
  // extractHwGeneration
  // ---------------------------------------------------------------------

  /** Where `while (*pChar && pChar < end) pChar++` stops when started at
      i with end at bound: the first index from i on that holds a NUL or
      has reached the bound. The byte is tested before the bound, so the
      stop may be at the bound itself. */
  function StopAt(m: seq<byte>, i: nat, bound: nat): (j: nat)
    requires i < |m| && bound < |m|
    ensures i <= j < |m| && (m[j] == 0 || bound <= j)
    ensures j <= bound || j == i
    ensures forall k :: i <= k < j ==> m[k] != 0
    decreases bound - i
  {
    if m[i] == 0 || bound <= i then i else StopAt(m, i + 1, bound)
  }

  /** A NUL at j with no NUL between i and j, and no bound before it, is
      where the scan stops. */
  lemma {:induction false} StopAtFirstNul(m: seq<byte>, i: nat, bound: nat, j: nat)
    requires i <= j <= bound < |m| && m[j] == 0
    requires forall k :: i <= k < j ==> m[k] != 0
    ensures StopAt(m, i, bound) == j
    decreases j - i
  {
    if i < j {
      StopAtFirstNul(m, i + 1, bound, j);
    }
  }

  /** The first byte after the payload of a frame: the scans' bound. */
  function PayloadEnd(m: seq<byte>): (e: nat)
    requires IsFrame(m)
    ensures e == |m| - CHKSUM_SIZE
  {
    HEAD_SIZE + LengthAt(m, 0)
  }

  /** The SW version string at the start of the payload is terminated. */
  predicate SwTerminated(m: seq<byte>)
    requires IsFrame(m)
  {
    m[StopAt(m, HEAD_SIZE, PayloadEnd(m))] == 0
  }

  /** The first byte of the HW string lies inside the copied frame whenever
      extractHwGeneration reads it. */
  predicate HwReadable(m: seq<byte>)
    requires IsFrame(m)
  {
    SwTerminated(m) ==> HEAD_SIZE + HW_OFFSET < |m|
  }

  /** The HW strings the tool knows, spelled in ASCII. */
  const HW_U9: seq<byte> := [0x30, 0x30, 0x31, 0x39, 0x30, 0x30, 0x30, 0x30]  // "00190000"
  const HW_U8: seq<byte> := [0x30, 0x30, 0x30, 0x38, 0x30, 0x30, 0x30, 0x30]  // "00080000"
  const HW_U7: seq<byte> := [0x30, 0x30, 0x30, 0x37, 0x30, 0x30, 0x30, 0x30]  // "00070000"
  const HW_U6: seq<byte> := [0x30, 0x30, 0x30, 0x34, 0x30, 0x30, 0x30, 0x37]  // "00040007"
  const HW_G51: seq<byte> := [0x30, 0x30, 0x30, 0x34, 0x30, 0x30, 0x30, 0x36] // "00040006"
  const HW_U5: seq<byte> := [0x30, 0x30, 0x30, 0x34, 0x30, 0x30, 0x30, 0x35]  // "00040005"

  /** The generation named by a NUL-terminated HW string. strncmp over 9
      bytes against an 8-character literal compares the terminating NUL
      too, so each test is string equality. */
  function GenerationOf(hw: seq<byte>): (g: nat)
    ensures g in {0, 50, 51, 60, 70, 80, 90}
  {
    if hw == HW_U9 then 90
    else if hw == HW_U8 then 80
    else if hw == HW_U7 then 70
    else if hw == HW_U6 then 60
    else if hw == HW_G51 then 51
    else if hw == HW_U5 then 50
    else 0
  }

  /** The generation extractHwGeneration reads from a MON-VER frame: 0
      unless both the SW and the HW scan stop on a NUL, else the table
      entry of the HW string. */
  function HwGeneration(m: seq<byte>): (g: nat)
    requires IsFrame(m) && HwReadable(m)
    ensures g in {0, 50, 51, 60, 70, 80, 90}
    ensures g != 0 ==> SwTerminated(m)
  {
    if !SwTerminated(m) then 0
    else
      var j := StopAt(m, HEAD_SIZE + HW_OFFSET, PayloadEnd(m));
      if m[j] != 0 then 0 else GenerationOf(m[HEAD_SIZE + HW_OFFSET..j])
  }

  /** The scan loop of extractHwGeneration. */
  method ScanString(m: seq<byte>, start: nat, bound: nat) returns (j: nat)
    requires start < |m| && bound < |m|
    ensures j == StopAt(m, start, bound)
  {
    j := start;
    while m[j] != 0 && j < bound
      invariant start <= j < |m| && (j <= bound || j == start)
      invariant StopAt(m, j, bound) == StopAt(m, start, bound)
      decreases bound - j
    {
      j := j + 1;
    }
  }

  /** extractHwGeneration: scans the SW string, then the HW string at
      payload offset 30, each up to the end of the payload, and maps the HW
      string through the table. */
  method ExtractHwGeneration(m: seq<byte>) returns (g: nat)
    requires IsFrame(m) && HwReadable(m)
    ensures g == HwGeneration(m)
  {
    var bound := HEAD_SIZE + LengthAt(m, 0);
    var sw := ScanString(m, HEAD_SIZE, bound);
    if m[sw] != 0 {
      return 0;
    }
    var hw := ScanString(m, HEAD_SIZE + HW_OFFSET, bound);
    if m[hw] != 0 {
      return 0;
    }
    var name := m[HEAD_SIZE + HW_OFFSET..hw];
    g := if name == HW_U9 then 90
      else if name == HW_U8 then 80
      else if name == HW_U7 then 70
      else if name == HW_U6 then 60
      else if name == HW_G51 then 51
      else if name == HW_U5 then 50
      else 0;
  }

  /** In a frame whose payload is p, a NUL-terminated run of p starting
      at from is scanned up to its NUL and reads as the same bytes. */
  lemma NulScan(f: seq<byte>, p: seq<byte>, from: nat, to: nat)
    requires |f| == |p| + FRAME_SIZE && f[HEAD_SIZE..HEAD_SIZE + |p|] == p
    requires from <= to < |p| && p[to] == 0
    requires forall k :: from <= k < to ==> p[k] != 0
    ensures StopAt(f, HEAD_SIZE + from, HEAD_SIZE + |p|) == HEAD_SIZE + to
    ensures f[HEAD_SIZE + from..HEAD_SIZE + to] == p[from..to]
  {
    SubSlice(f, HEAD_SIZE, p, from, to);
    NulScanStops(f, p, from, to);
  }

  lemma NulScanStops(f: seq<byte>, p: seq<byte>, from: nat, to: nat)
    requires |f| == |p| + FRAME_SIZE && f[HEAD_SIZE..HEAD_SIZE + |p|] == p
    requires from <= to < |p| && p[to] == 0
    requires forall k :: from <= k < to ==> p[k] != 0
    ensures StopAt(f, HEAD_SIZE + from, HEAD_SIZE + |p|) == HEAD_SIZE + to
  {
    forall k | HEAD_SIZE + from <= k < HEAD_SIZE + to
      ensures f[k] != 0
    {
      assert f[k] == p[k - HEAD_SIZE];
    }
    assert f[HEAD_SIZE + to] == p[to];
    StopAtFirstNul(f, HEAD_SIZE + from, HEAD_SIZE + |p|, HEAD_SIZE + to);
  }

  /** A MON-VER reply whose payload holds a NUL-terminated SW string of
      fewer than 30 bytes and, at offset 30, a NUL-terminated HW string
      yields the generation of that HW string. */
  lemma MonVerGeneration(p: seq<byte>, sw: nat, hw: nat)
    requires |p| + FRAME_SIZE <= MAX_FRAME_SIZE
    requires sw < HW_OFFSET && HW_OFFSET <= hw < |p| && p[sw] == 0 && p[hw] == 0
    requires forall k :: 0 <= k < sw ==> p[k] != 0
    requires forall k :: HW_OFFSET <= k < hw ==> p[k] != 0
    ensures IsFrame(Frame(CLASS_MON, MON_VER, p))
    ensures HwReadable(Frame(CLASS_MON, MON_VER, p))
    ensures HwGeneration(Frame(CLASS_MON, MON_VER, p)) == GenerationOf(p[HW_OFFSET..hw])
  {
    var f := Frame(CLASS_MON, MON_VER, p);
    FrameLayout(CLASS_MON, MON_VER, p);
    CreatedFrameChecks(CLASS_MON, MON_VER, p);
    assert PayloadEnd(f) == HEAD_SIZE + |p|;
    NulScan(f, p, 0, sw);
    NulScan(f, p, HW_OFFSET, hw);
  }

  /** Distinct HW strings name distinct generations. */
  lemma GenerationOfInjective(a: seq<byte>, b: seq<byte>)
    requires GenerationOf(a) != 0 && GenerationOf(a) == GenerationOf(b)
    ensures a == b
  {
  }

  // ---------------------------------------------------------------------
  // ROM size and ROM version
  // ---------------------------------------------------------------------

  /** romSize: the ROM of each generation in bytes, 0 when unknown. */
  function RomSize(generation: nat): (size: nat)
    ensures size != 0 <==> generation in {50, 51, 60, 70, 80, 90}
    ensures size % 1024 == 0 && size <= 672 * 1024
  {
    if generation == 50 then 384 * 1024
    else if generation == 51 || generation == 60 then 448 * 1024
    else if generation == 70 then 512 * 1024
    else if generation == 80 then 544 * 1024
    else if generation == 90 then 672 * 1024
    else 0
  }

  /** The run goes on past the ROM size check only with a known ROM size or
      a generation of 100 and up. */
  predicate RomSizeAccepted(generation: nat)
  {
    RomSize(generation) != 0 || 100 <= generation
  }

  /** Later generations never have a smaller ROM. */
  lemma RomSizeGrows(g1: nat, g2: nat)
    requires RomSize(g1) != 0 && RomSize(g2) != 0 && g1 <= g2
    ensures RomSize(g1) <= RomSize(g2)
  {
  }

  /** The ROM CRC-mix-read request: the address of the last ROM word, its
      size 4 and a 0, as three LE32 words in U4 arithmetic. */
  function RomCrcRequest(generation: nat): (p: seq<byte>)
    ensures |p| == 12 && LE32At(p, 4) == 4 && LE32At(p, 8) == 0
    ensures RomSize(generation) != 0 ==>
              LE32At(p, 0) + 4 == (if generation >= 70 then 0 else 0x0020_0000) + RomSize(generation)
  {
    var romBase: nat := if generation >= 70 then 0 else 0x0020_0000;
    var address := ToU32(romBase + RomSize(generation) - 4);
    LE32OfWritten([], address, EncodeLE32(4) + EncodeLE32(0));
    LE32OfWritten(EncodeLE32(address), 4, EncodeLE32(0));
    LE32OfWritten(EncodeLE32(address) + EncodeLE32(4), 0, []);
    assert EncodeLE32(address) + EncodeLE32(4) + EncodeLE32(0) + [] == EncodeLE32(address) + EncodeLE32(4) + EncodeLE32(0);
    EncodeLE32(address) + EncodeLE32(4) + EncodeLE32(0)
  }

  /** hwRomVer: the ROM version identified by the ROM's CRC, 0 when the CRC
      is unknown. */
  function RomVersion(crc: u32): nat
  {
    if crc == 0x0000_0000 then 200
    else if crc == 0xE046_F6C8 then 300
    else if crc == 0x3CB3_E4FF then 400
    else if crc == 0x806A_F596 then 500
    else if crc == 0xEA00_D0BD then 510
    else if crc == 0xB5CD_6FC1 then 600
    else if crc == 0x2BA1_23BA then 601
    else if crc == 0x2886_46C9 then 602
    else if crc == 0xB94D_4114 then 701
    else if crc == 0x494D_F1F9 then 703
    else if crc == 0xD5FC_E753 then 10
    else if crc == 0xFCE5_98B1 then 11
    else if crc == 0xED15_2ADE then 14
    else if crc == 0x100E_368D then 100
    else if crc == 0xDFAA_666C then 21
    else if crc == 0x041D_115D then 22
    else if crc == 0xA15A_F099 then 201
    else if crc == 0x2FEF_89EA then 301
    else if crc == 0x1893_C329 then 351
    else if crc == 0xCAAF_619C then 40
    else if crc == 0xDD3F_E36C then 101
    else if crc == 0x118B_2060 then 102
    else if crc == 0x3BFC_8935 then 404
    else 0
  }

  /** Each known ROM version is named by exactly one CRC. */
  lemma RomVersionInjective(a: u32, b: u32)
    requires RomVersion(a) != 0 && RomVersion(a) == RomVersion(b)
    ensures a == b
  {
  }

  /** An unknown ROM stops the run unless only an erase was asked for. */
  predicate RomVersionAccepted(crc: u32, eraseOnly: bool)
  {
    RomVersion(crc) != 0 || eraseOnly
  }

  // ---------------------------------------------------------------------
  // Compatibility, packet count, marker address
  // ---------------------------------------------------------------------

  /** The compatibility check as written: it rejects an image whose
      generation differs in its tens from the receiver's only when the
      image is of generation 91 and the receiver is not of generation 100. */
  predicate Compatible(imageGeneration: nat, generation: nat)
  {
    !(imageGeneration / 10 != generation / 10 && imageGeneration == 91 && generation != 100)
  }

  /** No image check is made for an erase-only or FIS-only run. */
  predicate ImageAccepted(eraseOnly: bool, fisOnly: bool, imageGeneration: nat, generation: nat)
  {
    eraseOnly || fisOnly || Compatible(imageGeneration, generation)
  }

  /** Only generation-91 images on receivers outside 90..99 and other than
      100 are rejected. */
  lemma IncompatibleExactly(imageGeneration: nat, generation: nat)
    ensures !Compatible(imageGeneration, generation)
            <==> imageGeneration == 91 && !(90 <= generation < 100) && generation != 100
  {
  }

  /** numberPackets: the file size in packets, rounded up. */
  function NumberPackets(fileSize: nat): (n: nat)
    ensures fileSize <= n * CHUNK_SIZE < fileSize + CHUNK_SIZE
  {
    if fileSize % CHUNK_SIZE != 0 then fileSize / CHUNK_SIZE + 1 else fileSize / CHUNK_SIZE
  }

  /** Chunk k of a transfer of NumberPackets(size) chunks starts inside the
      file. */
  lemma ChunkStarts(size: nat, k: nat)
    requires k < NumberPackets(size)
    ensures k * CHUNK_SIZE < size
  {
    assert (k + 1) * CHUNK_SIZE <= NumberPackets(size) * CHUNK_SIZE;
  }

  /** The packet count handed to updInit meets the engine's requirement
      that every packet starts inside the image. */
  lemma PacketCountFits(image: seq<byte>)
    requires |image| + CHUNK_SIZE <= U32_MOD
    ensures UpdateCore.ImageFits(image, NumberPackets(|image|))
  {
  }

  /** The address of the erased-flash marker: the 4 KiB boundary after
      FwBase + fileSize, in U4 arithmetic. */
  function MarkerAddress(fwBase: u32, fileSize: u32): u32
  {
    ToU32((ToU32(fwBase + fileSize) / 0x1000 + 1) * 0x1000)
  }

  /** Without wrap-around the marker is the first 4 KiB boundary strictly
      above the end of the image. */
  lemma MarkerAboveImage(fwBase: u32, fileSize: u32)
    requires fwBase + fileSize < U32_MOD - 0x1000
    ensures var a := MarkerAddress(fwBase, fileSize);
            a % 0x1000 == 0 && fwBase + fileSize < a <= fwBase + fileSize + 0x1000
  {
    var e := fwBase + fileSize;
    var q := e / 0x1000;
    assert e == q * 0x1000 + e % 0x1000;
    assert (q + 1) * 0x1000 == q * 0x1000 + 0x1000;
    assert (q + 1) * 0x1000 < U32_MOD;
  }

  /** An image ending in the last 4 KiB of the address space puts the
      marker at address 0. */
  lemma MarkerWraps(fwBase: u32, fileSize: u32)
    requires U32_MOD - 0x1000 <= fwBase + fileSize < U32_MOD
    ensures MarkerAddress(fwBase, fileSize) == 0
  {
    var e := fwBase + fileSize;
    assert e / 0x1000 == 0xF_FFFF;
  }

  // ---------------------------------------------------------------------
  // verifyImage
  // ---------------------------------------------------------------------

  /** The UPD-CRC request: for protocol version 2 and up a version byte 1
      and the region (0 for RAM, 1 for flash), then the address, the size
      and the word checksum pair of the image. */
  function VerifyRequest(image: seq<byte>, address: u32, updateRam: bool, version: nat): (p: seq<byte>)
    requires |image| < U32_MOD
    ensures var at := if version >= 2 then 2 else 0;
            |p| == at + 16
            && (version >= 2 ==> p[0] == 1 && p[1] == (if updateRam then 0 else 1))
            && LE32At(p, at) == address && LE32At(p, at + 4) == |image|
            && (LE32At(p, at + 8), LE32At(p, at + 12)) == U4Sums(image, |image| / 4)
  {
    var sums := U4Sums(image, |image| / 4);
    var head: seq<byte> := if version >= 2 then [1, if updateRam then 0 else 1] else [];
    var p := head + EncodeLE32(address) + EncodeLE32(|image|) + EncodeLE32(sums.0) + EncodeLE32(sums.1);
    LE32OfWritten(head, address, EncodeLE32(|image|) + EncodeLE32(sums.0) + EncodeLE32(sums.1));
    LE32OfWritten(head + EncodeLE32(address), |image|, EncodeLE32(sums.0) + EncodeLE32(sums.1));
    LE32OfWritten(head + EncodeLE32(address) + EncodeLE32(|image|), sums.0, EncodeLE32(sums.1));
    LE32OfWritten(head + EncodeLE32(address) + EncodeLE32(|image|) + EncodeLE32(sums.0), sums.1, []);
    assert p + [] == p;
    p
  }

  /** The reply check: a verify succeeds only on a 5-byte payload whose
      byte 4 is non-zero. */
  predicate VerifyAccepted(m: seq<byte>)
    requires IsFrame(m)
  {
    LengthAt(m, 0) == 5 && m[HEAD_SIZE + 4] != 0
  }

  /** On a reply built from payload p: accepted exactly when p has 5 bytes
      and the last of them is non-zero. */
  lemma VerifyReplyOf(p: seq<byte>)
    requires |p| + FRAME_SIZE <= MAX_FRAME_SIZE
    ensures IsFrame(Frame(CLASS_UPD, UPD_CRC, p))
    ensures VerifyAccepted(Frame(CLASS_UPD, UPD_CRC, p)) <==> |p| == 5 && p[4] != 0
  {
    FrameLayout(CLASS_UPD, UPD_CRC, p);
    CreatedFrameChecks(CLASS_UPD, UPD_CRC, p);
    if |p| == 5 {
      assert Frame(CLASS_UPD, UPD_CRC, p)[HEAD_SIZE..HEAD_SIZE + 5][4] == p[4];
    }
  }

  /** verifyImage: computes the word checksum of the image, polls UPD-CRC
      with the request above and reports the receiver's verdict. */
  method VerifyImage(rx: Session, image: seq<byte>, address: u32, updateRam: bool, version: nat)
    returns (ok: bool, ghost reply: CLib.Option<seq<byte>>)
    requires rx.Valid() && NoOversized(rx.Stream()) && |image| < U32_MOD
    modifies rx.buf, rx.buf.data, rx.port
    ensures rx.Valid() && NoOversized(rx.Stream())
    ensures 1 <= |rx.port.sent| - |old(rx.port.sent)| <= RETRY_COUNT
    ensures SentPrefixes(rx.port.sent, |old(rx.port.sent)|,
                         Frame(CLASS_UPD, UPD_CRC, VerifyRequest(image, address, updateRam, version)))
    ensures reply.Some? ==> IsFrame(reply.value) && reply.value[2] == CLASS_UPD && reply.value[3] == UPD_CRC
                            && EndsWith(old(rx.Stream()), reply.value + rx.Stream())
    ensures ok <==> reply.Some? && VerifyAccepted(reply.value)
  {
    var a, b := GetUbxChecksumU4(image, |image|);
    var head: seq<byte> := if version >= 2 then [1, if updateRam then 0 else 1] else [];
    var data := head + EncodeLE32(address) + EncodeLE32(|image|) + EncodeLE32(a) + EncodeLE32(b);
    assert data == VerifyRequest(image, address, updateRam, version);
    var msg := rx.PollMessage(CLASS_UPD, UPD_CRC, data, UpdateCore.CRC_TIMEOUT);
    reply := msg;
    ok := false;
    if msg.Some? {
      var success: byte := 0;
      if LengthAt(msg.value, 0) == 5 {
        success := msg.value[HEAD_SIZE + 4];
      }
      ok := success != 0;
    }
  }

  // ---------------------------------------------------------------------
  // updateImageToRam
  // ---------------------------------------------------------------------

  /** Chunk k: image[k*512, min((k+1)*512, ImageSize)) padded with zeros
      to 512 bytes. */
  function Chunk(image: seq<byte>, k: nat): (c: seq<byte>)
    requires k < NumberPackets(|image|)
    ensures |c| == CHUNK_SIZE
  {
    ChunkStarts(|image|, k);
    var start := k * CHUNK_SIZE;
    var n := if start + CHUNK_SIZE > |image| then |image| - start else CHUNK_SIZE;
    image[start..start + n] + Zeros(CHUNK_SIZE - n)
  }

  /** The UPD-IMG message for chunk k: its number as a U2, then the chunk. */
  function ChunkFrame(image: seq<byte>, k: nat): seq<byte>
    requires k < NumberPackets(|image|)
  {
    Frame(CLASS_UPD, UPD_IMG, EncodeLE16(k % 0x1_0000) + Chunk(image, k))
  }

  /** The UPD-IMG messages for chunks 0 .. n-1, in order. */
  function ChunkFrames(image: seq<byte>, n: nat): (fs: seq<seq<byte>>)
    requires n <= NumberPackets(|image|)
    ensures |fs| == n
  {
    if n == 0 then [] else ChunkFrames(image, n - 1) + [ChunkFrame(image, n - 1)]
  }

  /** The chunk data of chunks 0 .. n-1, one after the other, as the
      receiver lays them out. */
  function Joined(image: seq<byte>, n: nat): (j: seq<byte>)
    requires n <= NumberPackets(|image|)
    ensures |j| == n * CHUNK_SIZE
  {
    if n == 0 then [] else Joined(image, n - 1) + Chunk(image, n - 1)
  }

  /** The first n chunks hold the image's first n*512 bytes (all of it once
      they reach past its end) followed by zeros. */
  lemma {:induction false} JoinedLayout(image: seq<byte>, n: nat)
    requires n <= NumberPackets(|image|)
    ensures |Joined(image, n)| == n * CHUNK_SIZE
    ensures Joined(image, n)[..Min(n * CHUNK_SIZE, |image|)] == image[..Min(n * CHUNK_SIZE, |image|)]
    ensures forall i :: |image| <= i < n * CHUNK_SIZE ==> Joined(image, n)[i] == 0
  {
    if n > 0 {
      JoinedLayout(image, n - 1);
      ChunkStarts(|image|, n - 1);
      var start := (n - 1) * CHUNK_SIZE;
      var j := Joined(image, n - 1);
      var c := Chunk(image, n - 1);
      var cn := if start + CHUNK_SIZE > |image| then |image| - start else CHUNK_SIZE;
      assert |j| == start && Min(start, |image|) == start;
      assert n * CHUNK_SIZE == start + CHUNK_SIZE;
      assert c[..cn] == image[start..start + cn];
      var e := Min(n * CHUNK_SIZE, |image|);
      assert e == start + cn;
      assert (j + c)[..e] == j + c[..cn];
      assert image[..e] == image[..start] + image[start..start + cn];
      forall i | |image| <= i < n * CHUNK_SIZE
        ensures (j + c)[i] == 0
      {
        assert i >= start + cn;
        assert (j + c)[i] == c[i - start];
      }
    }
  }

  /** Round trip: the chunks of a complete transfer, laid end to end,
      start with the whole image and are padded with zeros only. */
  lemma ChunksRebuildImage(image: seq<byte>)
    ensures Joined(image, NumberPackets(|image|))[..|image|] == image
    ensures forall i :: |image| <= i < |Joined(image, NumberPackets(|image|))| ==>
              Joined(image, NumberPackets(|image|))[i] == 0
  {
    JoinedLayout(image, NumberPackets(|image|));
  }

  /** The number of ACK-ACK messages among frames. */
  function AckCount(frames: seq<seq<byte>>): (n: nat)
    ensures n <= |frames|
  {
    if |frames| == 0 then 0
    else
      var m := frames[|frames| - 1];
      AckCount(frames[..|frames| - 1]) + (if |m| > 3 && m[3] == ACK_ACK then 1 else 0)
  }

  /** An ACK-class reply whose payload names UPD-IMG; the class and id are
      read from the first two payload bytes. */
  predicate IsImgAck(m: seq<byte>)
  {
    IsFrame(m) && m[2] == CLASS_ACK && m[HEAD_SIZE] == CLASS_UPD && m[HEAD_SIZE + 1] == UPD_IMG
  }

  /** Every reply in acks is an ACK for UPD-IMG. */
  predicate AllAcked(acks: seq<seq<byte>>)
  {
    |acks| == 0
    || (AllAcked(acks[..|acks| - 1]) && IsImgAck(acks[|acks| - 1])
        && |acks[|acks| - 1]| > 3 && acks[|acks| - 1][3] == ACK_ACK)
  }

  /** A log of ACKs is a log, and one more reply naming UPD-IMG keeps it
      one: an ACK counts and keeps it all ACKs, a NAK ends it. */
  lemma AckLogged(acks: seq<seq<byte>>)
    requires AllAcked(acks)
    ensures AckLog(acks)
  {
  }

  lemma AckAppend(acks: seq<seq<byte>>, m: seq<byte>)
    requires AllAcked(acks) && IsImgAck(m) && |m| > 3
    ensures AckLog(acks + [m])
    ensures AckCount(acks + [m]) == AckCount(acks) + (if m[3] == ACK_ACK then 1 else 0)
    ensures m[3] == ACK_ACK ==> AllAcked(acks + [m])
    ensures m[3] != ACK_ACK ==> EndsInNak(acks + [m])
  {
    assert (acks + [m])[..|acks|] == acks;
  }

  /** The replies naming UPD-IMG: ACKs, except that the last may be a NAK. */
  predicate AckLog(acks: seq<seq<byte>>)
  {
    |acks| == 0 || (AllAcked(acks[..|acks| - 1]) && IsImgAck(acks[|acks| - 1]))
  }

  lemma {:induction false} AllAckedEach(acks: seq<seq<byte>>)
    requires AllAcked(acks)
    ensures forall i :: 0 <= i < |acks| ==> IsImgAck(acks[i]) && |acks[i]| > 3 && acks[i][3] == ACK_ACK
  {
    if |acks| > 0 {
      var front := acks[..|acks| - 1];
      AllAckedEach(front);
      assert forall i :: 0 <= i < |front| ==> acks[i] == front[i];
    }
  }

  lemma AckLogEach(acks: seq<seq<byte>>)
    requires AckLog(acks)
    ensures forall i :: 0 <= i < |acks| ==> IsImgAck(acks[i])
    ensures forall i :: 0 <= i < |acks| - 1 ==> |acks[i]| > 3 && acks[i][3] == ACK_ACK
  {
    if |acks| > 0 {
      var front := acks[..|acks| - 1];
      AllAckedEach(front);
      assert forall i :: 0 <= i < |front| ==> acks[i] == front[i];
    }
  }

  /** The last reply for UPD-IMG was a NAK. */
  predicate EndsInNak(acks: seq<seq<byte>>)
  {
    |acks| > 0 && |acks[|acks| - 1]| > 3 && acks[|acks| - 1][3] != ACK_ACK
  }

  /** Chunk k may go out after acked acks: the unacked count, computed as
      updateImageToRam does from the U2 chunk counter and the U acked
      counter in unsigned 32-bit arithmetic, is below five. */
  predicate InWindow(k: nat, acked: nat)
  {
    ToU32(k % 0x1_0000 - acked) < MAX_UNACKED
  }

  /** Every chunk k sent so far went out within the window, window[k]
      being the acks counted then, and no more than acked acks were
      counted by then. */
  predicate Windowed(window: seq<nat>, acked: nat)
  {
    |window| == 0
    || (Windowed(window[..|window| - 1], acked)
        && InWindow(|window| - 1, window[|window| - 1]) && window[|window| - 1] <= acked)
  }

  lemma {:induction false} WindowedLater(window: seq<nat>, acked: nat, later: nat)
    requires Windowed(window, acked) && acked <= later
    ensures Windowed(window, later)
  {
    if |window| > 0 {
      WindowedLater(window[..|window| - 1], acked, later);
    }
  }

  lemma WindowedSnoc(window: seq<nat>, acked: nat)
    requires Windowed(window, acked) && InWindow(|window|, acked)
    ensures Windowed(window + [acked], acked)
  {
    assert (window + [acked])[..|window|] == window;
  }

  lemma {:induction false} WindowedEach(window: seq<nat>, acked: nat)
    requires Windowed(window, acked)
    ensures forall k :: 0 <= k < |window| ==> InWindow(k, window[k]) && window[k] <= acked
  {
    if |window| > 0 {
      var front := window[..|window| - 1];
      WindowedEach(front, acked);
      assert forall k :: 0 <= k < |front| ==> window[k] == front[k];
    }
  }

  /** Sends chunk k (sent and sendStart its U2 number and byte offset):
      the chunk bytes, the rest of the 512 cleared, behind the chunk
      number. */
  method SendChunk(rx: Session, image: seq<byte>, sent: u16, sendStart: nat, ghost k: nat) returns (ok: bool)
    requires rx.Valid() && k < NumberPackets(|image|) && sent == k % 0x1_0000 && sendStart == k * CHUNK_SIZE
    modifies rx.port
    ensures rx.Valid() && rx.Stream() == old(rx.Stream())
    ensures rx.port.now == old(rx.port.now)
    ensures ok ==> rx.port.sent == old(rx.port.sent) + [ChunkFrame(image, k)]
    ensures !ok ==> exists f :: f < ChunkFrame(image, k) && rx.port.sent == old(rx.port.sent) + [f]
  {
    ChunkStarts(|image|, k);
    var sendSize := if sendStart + CHUNK_SIZE > |image| then |image| - sendStart else CHUNK_SIZE;
    var chunkData := image[sendStart..sendStart + sendSize];
    if sendSize < CHUNK_SIZE {
      chunkData := chunkData + Zeros(CHUNK_SIZE - sendSize);
    }
    var payload := EncodeLE16(sent) + chunkData;
    assert payload == EncodeLE16(k % 0x1_0000) + Chunk(image, k);
    ok := rx.SendMessage(CLASS_UPD, UPD_IMG, payload);
    if ok {
      var f := ChunkFrame(image, k);
      assert f[..|f|] == f;
    } else {
      var f := ChunkFrame(image, k);
      assert rx.port.sent[|rx.port.sent| - 1] < f;
    }
  }

  /** The send half of a round of updateImageToRam: the next chunk goes
      out when fewer than five are unacked and the image is not yet all
      sent. ok is false only when the driver cut the message short, which
      ends the transfer. */
  method SendRound(rx: Session, image: seq<byte>, sent: u16, sendStart: nat, acked: nat,
                   ghost count: nat, ghost base: seq<seq<byte>>)
    returns (ok: bool, nextSent: u16, nextStart: nat, ghost next: nat, ghost tail: seq<seq<byte>>)
    requires rx.Valid() && |image| + CHUNK_SIZE <= U32_MOD
    requires count <= NumberPackets(|image|) && sent == count % 0x1_0000 && sendStart == count * CHUNK_SIZE
    requires rx.port.sent == base + ChunkFrames(image, count)
    modifies rx.port
    ensures rx.Valid() && rx.Stream() == old(rx.Stream()) && rx.port.now == old(rx.port.now)
    ensures next <= NumberPackets(|image|) && nextSent == next % 0x1_0000 && nextStart == next * CHUNK_SIZE
    ensures next == count || (next == count + 1 && InWindow(count, acked))
    ensures rx.port.sent == base + ChunkFrames(image, next) + tail
    ensures ok ==> tail == []
    ensures !ok ==> next == count < NumberPackets(|image|) && |tail| == 1 && tail[0] < ChunkFrame(image, count)
  {
    ok, nextSent, nextStart, next, tail := true, sent, sendStart, count, [];
    if ToU32(sent - acked) < MAX_UNACKED && sendStart < |image| {
      assert count < NumberPackets(|image|);
      ok := SendChunk(rx, image, sent, sendStart, count);
      if ok {
        next := count + 1;
        ModAddLeftU16(count, 1);
        nextSent := (sent + 1) % 0x1_0000;
        nextStart := sendStart + CHUNK_SIZE;
      } else {
        tail := rx.port.sent[|base| + count..];
        assert base + ChunkFrames(image, count) + tail == rx.port.sent;
      }
    }
  }

  /** What one non-waiting read of an ACK-class message brought. */
  datatype Reply = NoImgReply | ImgAcked | ImgNaked

  /** The read of one round of updateImageToRam: rcvReceiveMessage with
      timeout 0 for the ACK class, keeping only a reply whose payload names
      UPD-IMG. Each call consumes input or lets time pass. */
  method AwaitImgAck(rx: Session) returns (r: Reply, ghost got: CLib.Option<seq<byte>>)
    requires rx.Valid() && NoOversized(rx.Stream())
    modifies rx.buf, rx.buf.data, rx.port
    ensures rx.Valid() && NoOversized(rx.Stream())
    ensures rx.port.sent == old(rx.port.sent) && old(rx.port.now) <= rx.port.now
    ensures EndsWith(old(rx.Stream()), rx.Stream())
    ensures |rx.Stream()| < |old(rx.Stream())| || old(rx.port.now) < rx.port.now
    ensures got.Some? ==> IsFrame(got.value) && got.value[2] == CLASS_ACK
                          && EndsWith(old(rx.Stream()), got.value + rx.Stream())
    ensures r != NoImgReply <==> got.Some? && IsImgAck(got.value)
    ensures r != NoImgReply ==> |got.value| > 3 && (r == ImgAcked <==> got.value[3] == ACK_ACK)
  {
    r := NoImgReply;
    var ack, cuts := rx.ReceiveMessage(0, CLASS_ACK, -1);
    got := ack;
    if ack.Some? {
      if ack.value[HEAD_SIZE] == CLASS_UPD && ack.value[HEAD_SIZE + 1] == UPD_IMG {
        r := if ack.value[3] != ACK_ACK then ImgNaked else ImgAcked;
      }
    }
  }

  /** The read half of a round of updateImageToRam: an ACK for UPD-IMG
      counts and pushes the deadline out, a NAK for it ends the transfer,
      and so does the deadline once it has passed. */
  method AckRound(rx: Session, acked: nat, timeLimit: nat, ghost acks: seq<seq<byte>>, ghost lastAck: nat,
                  ghost s0: seq<byte>, ghost after: seq<nat>)
    returns (stop: bool, nextAcked: nat, nextLimit: nat, ghost nextAcks: seq<seq<byte>>, ghost nextLast: nat,
             ghost nextAfter: seq<nat>)
    requires rx.Valid() && NoOversized(rx.Stream()) && Taken(s0, acks, after, rx.Stream())
    requires acked == AckCount(acks) && AllAcked(acks) && rx.port.now <= timeLimit == lastAck + POLL_TIMEOUT
    modifies rx.buf, rx.buf.data, rx.port
    ensures rx.Valid() && NoOversized(rx.Stream()) && rx.port.sent == old(rx.port.sent)
    ensures nextAcked == AckCount(nextAcks) && acked <= nextAcked && nextLimit == nextLast + POLL_TIMEOUT
    ensures AckLog(nextAcks) && Taken(s0, nextAcks, nextAfter, rx.Stream())
    ensures stop ==> nextAcked == acked && (EndsInNak(nextAcks) || nextLimit < rx.port.now)
    ensures !stop ==> AllAcked(nextAcks) && rx.port.now <= nextLimit
    ensures !stop ==> |rx.Stream()| < |old(rx.Stream())|
                      || (|rx.Stream()| == |old(rx.Stream())| && nextLimit == timeLimit && old(rx.port.now) < rx.port.now)
  {
    stop, nextAcked, nextLimit, nextAcks, nextLast, nextAfter := false, acked, timeLimit, acks, lastAck, after;
    ghost var s1 := rx.Stream();
    var reply, got := AwaitImgAck(rx);
    AckLogged(acks);
    TakenLess(s0, acks, after, s1, rx.Stream());
    if reply != NoImgReply {
      var m := got.value;
      AckAppend(acks, m);
      TakenMore(s0, acks, after, s1, m, rx.Stream());
      nextAcks, nextAfter := acks + [m], after + [|rx.Stream()|];
      if reply == ImgNaked {
        stop := true;
      } else {
        nextLimit := rx.port.now + POLL_TIMEOUT;
        nextLast := rx.port.now;
        nextAcked := acked + 1;
      }
    }
    if !stop && rx.port.now > nextLimit {
      stop := true;
    }
  }

  /** updateImageToRam: keeps at most five chunks unacknowledged, reads one
      ACK-class message per round without waiting, counts the ACK-ACKs for
      UPD-IMG and pushes the deadline out by POLL_TIMEOUT on each, and
      stops on a NAK for UPD-IMG, on a send the driver cuts short, or once
      the deadline has passed. It succeeds iff the acks cover the image.
      The ghost results: count chunks were sent in full and tail holds the
      cut-short one, if any; acks are the replies naming UPD-IMG; window[k]
      is how many acks had arrived when chunk k went out; lastAck is when
      the deadline was last pushed out. */
  method ImageToRam(rx: Session, image: seq<byte>)
    returns (success: bool, ghost count: nat, ghost tail: seq<seq<byte>>,
             ghost acks: seq<seq<byte>>, ghost window: seq<nat>, ghost lastAck: nat, ghost after: seq<nat>)
    requires rx.Valid() && NoOversized(rx.Stream())
    requires |image| + CHUNK_SIZE <= U32_MOD
    modifies rx.buf, rx.buf.data, rx.port
    ensures rx.Valid() && NoOversized(rx.Stream())
    ensures success <==> AckCount(acks) * CHUNK_SIZE >= |image|
    ensures forall i :: 0 <= i < |acks| ==> IsImgAck(acks[i])
    ensures forall i :: 0 <= i < |acks| - 1 ==> |acks[i]| > 3 && acks[i][3] == ACK_ACK
    ensures EndsInNak(acks) ==> !success
    ensures Taken(old(rx.Stream()), acks, after, rx.Stream())
    ensures count <= NumberPackets(|image|)
    ensures rx.port.sent == old(rx.port.sent) + ChunkFrames(image, count) + tail
    ensures tail != [] ==> |tail| == 1 && count < NumberPackets(|image|) && tail[0] < ChunkFrame(image, count) && !success
    ensures |window| == count
    ensures forall k :: 0 <= k < count ==> InWindow(k, window[k]) && window[k] <= AckCount(acks)
    ensures !success ==> EndsInNak(acks) || tail != [] || lastAck + POLL_TIMEOUT < rx.port.now
  {
    var sent: u16 := 0;
    var sendStart: nat := 0;
    var acked: nat := 0;
    var timeLimit := rx.port.now + POLL_TIMEOUT;
    var stop := false;
    count, tail, acks, window, lastAck, after := 0, [], [], [], rx.port.now, [];
    while !stop && acked * CHUNK_SIZE < |image|
      invariant rx.Valid() && NoOversized(rx.Stream())
      invariant count <= NumberPackets(|image|) && sent == count % 0x1_0000 && sendStart == count * CHUNK_SIZE
      invariant rx.port.sent == old(rx.port.sent) + ChunkFrames(image, count) + tail
      invariant acked == AckCount(acks)
      invariant AckLog(acks) && Taken(old(rx.Stream()), acks, after, rx.Stream())
      invariant |window| == count
      invariant Windowed(window, acked)
      invariant timeLimit == lastAck + POLL_TIMEOUT
      invariant !stop ==> tail == [] && AllAcked(acks) && rx.port.now <= timeLimit
      invariant stop ==> acked * CHUNK_SIZE < |image|
                         && (EndsInNak(acks) || tail != [] || timeLimit < rx.port.now)
      invariant tail != [] ==> |tail| == 1 && count < NumberPackets(|image|) && tail[0] < ChunkFrame(image, count)
      decreases !stop, |rx.Stream()|, timeLimit - rx.port.now
    {
      var ok, nextSent, nextStart, next, cut := SendRound(rx, image, sent, sendStart, acked, count, old(rx.port.sent));
      if next > count {
        WindowedSnoc(window, acked);
        window := window + [acked];
      }
      sent, sendStart, count, tail := nextSent, nextStart, next, cut;
      stop := !ok;
      if !stop {
        ghost var before := acked;
        stop, acked, timeLimit, acks, lastAck, after := AckRound(rx, acked, timeLimit, acks, lastAck, old(rx.Stream()), after);
        WindowedLater(window, before, acked);
      }
    }
    WindowedEach(window, acked);
    AckLogEach(acks);
    success := acked * CHUNK_SIZE >= |image|;
  }
}
