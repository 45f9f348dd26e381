// The FIS (flash information structure) handling of the tool
// (mergefis.c): the table-driven CRC-32 that guards a FIS, the conversion
// of the numbers and hex strings held in the flash database, the patching
// of the FIS table from a device entry, and merging a FIS into a firmware
// image. Walking the XML file and building its element tree are not part
// of this model; an element arrives here as a value.
module MergeFis {
  import opened Bytes
  import opened CLib
  import opened Checksum

  /** MERGEFIS_RETVAL_t. */
  datatype MergeFisResult =
    | Ok | FileNotFound | VersionError | IncorrectXml | JedecNotSupported
    | CodeCorrupted | CrcFailure | Unknown

  const FIS_CHECKSUM_SEED: bv32 := 0x12345678

  // Positions of the FIS fields (mergefis.h).
  const CAPABILITY_POSITION: nat := 0x1
  const MAJOR_REV_POSITION: nat := 0x4
  const MINOR_REV_POSITION: nat := 0x5
  const SUPPLY_TYPE_POSITION: nat := 0x7
  const SECTOR_SIZE_POSITION: nat := 0x8
  const SECTOR_COUNT_POSITION: nat := 0xC
  const HSP_POSITION: nat := 0x10
  const CFG_POSITION: nat := 0x14
  const MIN_ERASE_SUSPEND_POSITION: nat := 0x18
  const NUM_BYTES_WRITE_POSITION: nat := 0x1C
  const DEEP_SLEEP_OPCODE_POSITION: nat := 0x38
  const DEEP_SLEEP_WAKEUP_OPCODE_POSITION: nat := 0x39
  const DEEP_SLEEP_WAKEUP_TIMEOUT_POSITION: nat := 0x3A
  const REVISION_POSITION: nat := 0x3C
  const MAX_SPEED_POSITION: nat := 0x43
  const SECTOR_SIZE_VER3: nat := 0x1000
  const SECTOR_COUNT_POSITION_VER3: nat := 0x8

  // Capability bits of the byte at CAPABILITY_POSITION.
  const CAP_WRITE_SUSPEND: bv8 := 0x01
  const CAP_FAST_PROGRAM: bv8 := 0x02
  const CAP_DEEP_SLEEP: bv8 := 0x04
  const CAP_MAX_SPEED: bv8 := 0x10

  /** The FIS area of a firmware image: bytes 0x40 up to 0x1000. */
  const FIS_IMAGE_OFFSET: nat := 0x40
  const FIS_IMAGE_END: nat := 0x1000

  // ---------------------------------------------------------------------
  // CRC-32 (lib_crc_crc32)
  // ---------------------------------------------------------------------

  /** One shift of the register, bit by bit: XOR in the polynomial when the
      bit that leaves is set. */
  function Round(c: bv32): bv32
  {
    (c >> 1) ^ (0xEDB8_8320 & (0 - (c & 1)))
  }

  /** k shifts of the register. */
  function Rounds(c: bv32, k: nat): bv32
    decreases k
  {
    if k == 0 then c else Rounds(Round(c), k - 1)
  }

  /** The register shifted down a byte, as the table step keeps it. */
  function High(crc: bv32): bv32
  {
    (crc >> 8) & 0x00FF_FFFF
  }

  /** The table index of a byte given as the low bits of w. */
  function Index(crc: bv32, w: bv32): bv32
  {
    (crc ^ w) & 0xFF
  }

  /** One byte through the CRC: the low byte of the register XOR the byte,
      shifted through eight rounds, XOR the rest of the register. */
  function CrcStep(crc: bv32, w: bv32): bv32
  {
    High(crc) ^ Rounds(Index(crc, w), 8)
  }

  /** The register after running over data from seed; no final XOR. */
  function Crc32(seed: bv32, data: seq<byte>): bv32
  {
    if |data| == 0 then seed else CrcStep(Crc32(seed, data[..|data| - 1]), data[|data| - 1] as bv32)
  }

  /** lib_crc_kCrc32table, the byte-wise table of the reflected
      polynomial 0xEDB88320 (IEEE 802.3): entry i for i below 0x100, in four
      quarters of 64 entries, each written as a search over the index (each
      leaf line holds four consecutive entries) rather than as an array
      literal. */
  function CrcTable(i: bv32): bv32
  {
    if i < 0x40 then CrcTable0(i)
    else if i < 0x80 then CrcTable1(i)
    else if i < 0xC0 then CrcTable2(i)
    else CrcTable3(i)
  }

  /** Entries 0x00 to 0x3F of the table. */
  function CrcTable0(i: bv32): bv32
  {
    if i < 0x20 then
      if i < 0x10 then
        if i < 0x08 then
          if i < 0x04 then
            if i < 0x02 then (if i < 0x01 then 0x00000000 else 0x77073096) else (if i < 0x03 then 0xEE0E612C else 0x990951BA)
          else
            if i < 0x06 then (if i < 0x05 then 0x076DC419 else 0x706AF48F) else (if i < 0x07 then 0xE963A535 else 0x9E6495A3)
        else
          if i < 0x0C then
            if i < 0x0A then (if i < 0x09 then 0x0EDB8832 else 0x79DCB8A4) else (if i < 0x0B then 0xE0D5E91E else 0x97D2D988)
          else
            if i < 0x0E then (if i < 0x0D then 0x09B64C2B else 0x7EB17CBD) else (if i < 0x0F then 0xE7B82D07 else 0x90BF1D91)
      else
        if i < 0x18 then
          if i < 0x14 then
            if i < 0x12 then (if i < 0x11 then 0x1DB71064 else 0x6AB020F2) else (if i < 0x13 then 0xF3B97148 else 0x84BE41DE)
          else
            if i < 0x16 then (if i < 0x15 then 0x1ADAD47D else 0x6DDDE4EB) else (if i < 0x17 then 0xF4D4B551 else 0x83D385C7)
        else
          if i < 0x1C then
            if i < 0x1A then (if i < 0x19 then 0x136C9856 else 0x646BA8C0) else (if i < 0x1B then 0xFD62F97A else 0x8A65C9EC)
          else
            if i < 0x1E then (if i < 0x1D then 0x14015C4F else 0x63066CD9) else (if i < 0x1F then 0xFA0F3D63 else 0x8D080DF5)
    else
      if i < 0x30 then
        if i < 0x28 then
          if i < 0x24 then
            if i < 0x22 then (if i < 0x21 then 0x3B6E20C8 else 0x4C69105E) else (if i < 0x23 then 0xD56041E4 else 0xA2677172)
          else
            if i < 0x26 then (if i < 0x25 then 0x3C03E4D1 else 0x4B04D447) else (if i < 0x27 then 0xD20D85FD else 0xA50AB56B)
        else
          if i < 0x2C then
            if i < 0x2A then (if i < 0x29 then 0x35B5A8FA else 0x42B2986C) else (if i < 0x2B then 0xDBBBC9D6 else 0xACBCF940)
          else
            if i < 0x2E then (if i < 0x2D then 0x32D86CE3 else 0x45DF5C75) else (if i < 0x2F then 0xDCD60DCF else 0xABD13D59)
      else
        if i < 0x38 then
          if i < 0x34 then
            if i < 0x32 then (if i < 0x31 then 0x26D930AC else 0x51DE003A) else (if i < 0x33 then 0xC8D75180 else 0xBFD06116)
          else
            if i < 0x36 then (if i < 0x35 then 0x21B4F4B5 else 0x56B3C423) else (if i < 0x37 then 0xCFBA9599 else 0xB8BDA50F)
        else
          if i < 0x3C then
            if i < 0x3A then (if i < 0x39 then 0x2802B89E else 0x5F058808) else (if i < 0x3B then 0xC60CD9B2 else 0xB10BE924)
          else
            if i < 0x3E then (if i < 0x3D then 0x2F6F7C87 else 0x58684C11) else (if i < 0x3F then 0xC1611DAB else 0xB6662D3D)
  }

  /** Entries 0x40 to 0x7F of the table. */
  function CrcTable1(i: bv32): bv32
  {
    if i < 0x60 then
      if i < 0x50 then
        if i < 0x48 then
          if i < 0x44 then
            if i < 0x42 then (if i < 0x41 then 0x76DC4190 else 0x01DB7106) else (if i < 0x43 then 0x98D220BC else 0xEFD5102A)
          else
            if i < 0x46 then (if i < 0x45 then 0x71B18589 else 0x06B6B51F) else (if i < 0x47 then 0x9FBFE4A5 else 0xE8B8D433)
        else
          if i < 0x4C then
            if i < 0x4A then (if i < 0x49 then 0x7807C9A2 else 0x0F00F934) else (if i < 0x4B then 0x9609A88E else 0xE10E9818)
          else
            if i < 0x4E then (if i < 0x4D then 0x7F6A0DBB else 0x086D3D2D) else (if i < 0x4F then 0x91646C97 else 0xE6635C01)
      else
        if i < 0x58 then
          if i < 0x54 then
            if i < 0x52 then (if i < 0x51 then 0x6B6B51F4 else 0x1C6C6162) else (if i < 0x53 then 0x856530D8 else 0xF262004E)
          else
            if i < 0x56 then (if i < 0x55 then 0x6C0695ED else 0x1B01A57B) else (if i < 0x57 then 0x8208F4C1 else 0xF50FC457)
        else
          if i < 0x5C then
            if i < 0x5A then (if i < 0x59 then 0x65B0D9C6 else 0x12B7E950) else (if i < 0x5B then 0x8BBEB8EA else 0xFCB9887C)
          else
            if i < 0x5E then (if i < 0x5D then 0x62DD1DDF else 0x15DA2D49) else (if i < 0x5F then 0x8CD37CF3 else 0xFBD44C65)
    else
      if i < 0x70 then
        if i < 0x68 then
          if i < 0x64 then
            if i < 0x62 then (if i < 0x61 then 0x4DB26158 else 0x3AB551CE) else (if i < 0x63 then 0xA3BC0074 else 0xD4BB30E2)
          else
            if i < 0x66 then (if i < 0x65 then 0x4ADFA541 else 0x3DD895D7) else (if i < 0x67 then 0xA4D1C46D else 0xD3D6F4FB)
        else
          if i < 0x6C then
            if i < 0x6A then (if i < 0x69 then 0x4369E96A else 0x346ED9FC) else (if i < 0x6B then 0xAD678846 else 0xDA60B8D0)
          else
            if i < 0x6E then (if i < 0x6D then 0x44042D73 else 0x33031DE5) else (if i < 0x6F then 0xAA0A4C5F else 0xDD0D7CC9)
      else
        if i < 0x78 then
          if i < 0x74 then
            if i < 0x72 then (if i < 0x71 then 0x5005713C else 0x270241AA) else (if i < 0x73 then 0xBE0B1010 else 0xC90C2086)
          else
            if i < 0x76 then (if i < 0x75 then 0x5768B525 else 0x206F85B3) else (if i < 0x77 then 0xB966D409 else 0xCE61E49F)
        else
          if i < 0x7C then
            if i < 0x7A then (if i < 0x79 then 0x5EDEF90E else 0x29D9C998) else (if i < 0x7B then 0xB0D09822 else 0xC7D7A8B4)
          else
            if i < 0x7E then (if i < 0x7D then 0x59B33D17 else 0x2EB40D81) else (if i < 0x7F then 0xB7BD5C3B else 0xC0BA6CAD)
  }

  /** Entries 0x80 to 0xBF of the table. */
  function CrcTable2(i: bv32): bv32
  {
    if i < 0xA0 then
      if i < 0x90 then
        if i < 0x88 then
          if i < 0x84 then
            if i < 0x82 then (if i < 0x81 then 0xEDB88320 else 0x9ABFB3B6) else (if i < 0x83 then 0x03B6E20C else 0x74B1D29A)
          else
            if i < 0x86 then (if i < 0x85 then 0xEAD54739 else 0x9DD277AF) else (if i < 0x87 then 0x04DB2615 else 0x73DC1683)
        else
          if i < 0x8C then
            if i < 0x8A then (if i < 0x89 then 0xE3630B12 else 0x94643B84) else (if i < 0x8B then 0x0D6D6A3E else 0x7A6A5AA8)
          else
            if i < 0x8E then (if i < 0x8D then 0xE40ECF0B else 0x9309FF9D) else (if i < 0x8F then 0x0A00AE27 else 0x7D079EB1)
      else
        if i < 0x98 then
          if i < 0x94 then
            if i < 0x92 then (if i < 0x91 then 0xF00F9344 else 0x8708A3D2) else (if i < 0x93 then 0x1E01F268 else 0x6906C2FE)
          else
            if i < 0x96 then (if i < 0x95 then 0xF762575D else 0x806567CB) else (if i < 0x97 then 0x196C3671 else 0x6E6B06E7)
        else
          if i < 0x9C then
            if i < 0x9A then (if i < 0x99 then 0xFED41B76 else 0x89D32BE0) else (if i < 0x9B then 0x10DA7A5A else 0x67DD4ACC)
          else
            if i < 0x9E then (if i < 0x9D then 0xF9B9DF6F else 0x8EBEEFF9) else (if i < 0x9F then 0x17B7BE43 else 0x60B08ED5)
    else
      if i < 0xB0 then
        if i < 0xA8 then
          if i < 0xA4 then
            if i < 0xA2 then (if i < 0xA1 then 0xD6D6A3E8 else 0xA1D1937E) else (if i < 0xA3 then 0x38D8C2C4 else 0x4FDFF252)
          else
            if i < 0xA6 then (if i < 0xA5 then 0xD1BB67F1 else 0xA6BC5767) else (if i < 0xA7 then 0x3FB506DD else 0x48B2364B)
        else
          if i < 0xAC then
            if i < 0xAA then (if i < 0xA9 then 0xD80D2BDA else 0xAF0A1B4C) else (if i < 0xAB then 0x36034AF6 else 0x41047A60)
          else
            if i < 0xAE then (if i < 0xAD then 0xDF60EFC3 else 0xA867DF55) else (if i < 0xAF then 0x316E8EEF else 0x4669BE79)
      else
        if i < 0xB8 then
          if i < 0xB4 then
            if i < 0xB2 then (if i < 0xB1 then 0xCB61B38C else 0xBC66831A) else (if i < 0xB3 then 0x256FD2A0 else 0x5268E236)
          else
            if i < 0xB6 then (if i < 0xB5 then 0xCC0C7795 else 0xBB0B4703) else (if i < 0xB7 then 0x220216B9 else 0x5505262F)
        else
          if i < 0xBC then
            if i < 0xBA then (if i < 0xB9 then 0xC5BA3BBE else 0xB2BD0B28) else (if i < 0xBB then 0x2BB45A92 else 0x5CB36A04)
          else
            if i < 0xBE then (if i < 0xBD then 0xC2D7FFA7 else 0xB5D0CF31) else (if i < 0xBF then 0x2CD99E8B else 0x5BDEAE1D)
  }

  /** Entries 0xC0 to 0xFF of the table. */
  function CrcTable3(i: bv32): bv32
  {
    if i < 0xE0 then
      if i < 0xD0 then
        if i < 0xC8 then
          if i < 0xC4 then
            if i < 0xC2 then (if i < 0xC1 then 0x9B64C2B0 else 0xEC63F226) else (if i < 0xC3 then 0x756AA39C else 0x026D930A)
          else
            if i < 0xC6 then (if i < 0xC5 then 0x9C0906A9 else 0xEB0E363F) else (if i < 0xC7 then 0x72076785 else 0x05005713)
        else
          if i < 0xCC then
            if i < 0xCA then (if i < 0xC9 then 0x95BF4A82 else 0xE2B87A14) else (if i < 0xCB then 0x7BB12BAE else 0x0CB61B38)
          else
            if i < 0xCE then (if i < 0xCD then 0x92D28E9B else 0xE5D5BE0D) else (if i < 0xCF then 0x7CDCEFB7 else 0x0BDBDF21)
      else
        if i < 0xD8 then
          if i < 0xD4 then
            if i < 0xD2 then (if i < 0xD1 then 0x86D3D2D4 else 0xF1D4E242) else (if i < 0xD3 then 0x68DDB3F8 else 0x1FDA836E)
          else
            if i < 0xD6 then (if i < 0xD5 then 0x81BE16CD else 0xF6B9265B) else (if i < 0xD7 then 0x6FB077E1 else 0x18B74777)
        else
          if i < 0xDC then
            if i < 0xDA then (if i < 0xD9 then 0x88085AE6 else 0xFF0F6A70) else (if i < 0xDB then 0x66063BCA else 0x11010B5C)
          else
            if i < 0xDE then (if i < 0xDD then 0x8F659EFF else 0xF862AE69) else (if i < 0xDF then 0x616BFFD3 else 0x166CCF45)
    else
      if i < 0xF0 then
        if i < 0xE8 then
          if i < 0xE4 then
            if i < 0xE2 then (if i < 0xE1 then 0xA00AE278 else 0xD70DD2EE) else (if i < 0xE3 then 0x4E048354 else 0x3903B3C2)
          else
            if i < 0xE6 then (if i < 0xE5 then 0xA7672661 else 0xD06016F7) else (if i < 0xE7 then 0x4969474D else 0x3E6E77DB)
        else
          if i < 0xEC then
            if i < 0xEA then (if i < 0xE9 then 0xAED16A4A else 0xD9D65ADC) else (if i < 0xEB then 0x40DF0B66 else 0x37D83BF0)
          else
            if i < 0xEE then (if i < 0xED then 0xA9BCAE53 else 0xDEBB9EC5) else (if i < 0xEF then 0x47B2CF7F else 0x30B5FFE9)
      else
        if i < 0xF8 then
          if i < 0xF4 then
            if i < 0xF2 then (if i < 0xF1 then 0xBDBDF21C else 0xCABAC28A) else (if i < 0xF3 then 0x53B39330 else 0x24B4A3A6)
          else
            if i < 0xF6 then (if i < 0xF5 then 0xBAD03605 else 0xCDD70693) else (if i < 0xF7 then 0x54DE5729 else 0x23D967BF)
        else
          if i < 0xFC then
            if i < 0xFA then (if i < 0xF9 then 0xB3667A2E else 0xC4614AB8) else (if i < 0xFB then 0x5D681B02 else 0x2A6F2B94)
          else
            if i < 0xFE then (if i < 0xFD then 0xB40BBE37 else 0xC30C8EA1) else (if i < 0xFF then 0x5A05DF1B else 0x2D02EF8D)
  }


  /** Eight rounds written out. */
  lemma Unroll(c: bv32)
    ensures Rounds(c, 8) == Round(Round(Round(Round(Round(Round(Round(Round(c))))))))
  {
    assert Rounds(c, 8) == Rounds(Round(c), 7);
    assert Rounds(Round(c), 7) == Rounds(Round(Round(c)), 6);
    assert Rounds(Round(Round(c)), 6) == Rounds(Round(Round(Round(c))), 5);
    assert Rounds(Round(Round(Round(c))), 5) == Rounds(Round(Round(Round(Round(c)))), 4);
    assert Rounds(Round(Round(Round(Round(c)))), 4) == Rounds(Round(Round(Round(Round(Round(c))))), 3);
  }

  /** Every entry of the table is its index shifted through eight rounds:
      the table is the byte-wise form of the bit-wise CRC. */
  lemma TableEntry(y: bv32)
    requires y < 0x100
    ensures CrcTable(y) == Rounds(y, 8)
  {
    if y < 0x40 {
      TableEntry0(y);
    } else if y < 0x80 {
      TableEntry1(y);
    } else if y < 0xC0 {
      TableEntry2(y);
    } else {
      TableEntry3(y);
    }
  }

  /** Entries 0x00 to 0x3F. */
  lemma TableEntry0(y: bv32)
    requires 0x00 <= y < 0x40
    ensures CrcTable0(y) == Rounds(y, 8)
  {
    Unroll(y);
  }

  /** Entries 0x40 to 0x7F. */
  lemma TableEntry1(y: bv32)
    requires 0x40 <= y < 0x80
    ensures CrcTable1(y) == Rounds(y, 8)
  {
    Unroll(y);
  }

  /** Entries 0x80 to 0xBF. */
  lemma TableEntry2(y: bv32)
    requires 0x80 <= y < 0xC0
    ensures CrcTable2(y) == Rounds(y, 8)
  {
    Unroll(y);
  }

  /** Entries 0xC0 to 0xFF. */
  lemma TableEntry3(y: bv32)
    requires 0xC0 <= y < 0x100
    ensures CrcTable3(y) == Rounds(y, 8)
  {
    Unroll(y);
  }

  /** The table step is the specified step. */
  lemma TableStep(crc: bv32, w: bv32)
    ensures High(crc) ^ CrcTable(Index(crc, w)) == CrcStep(crc, w)
  {
    TableEntry(Index(crc, w));
  }

  /** One byte through the table, as lib_crc_crc32 does it. */
  function TableLookup(crc: bv32, w: bv32): (r: bv32)
    ensures r == CrcStep(crc, w)
  {
    TableStep(crc, w);
    High(crc) ^ CrcTable(Index(crc, w))
  }

  /** lib_crc_crc32: the register runs over the data byte by byte through
      the table. */
  method LibCrcCrc32(seed: bv32, data: seq<byte>) returns (crc: bv32)
    ensures crc == Crc32(seed, data)
  {
    crc := seed;
    var i := 0;
    while i < |data|
      invariant 0 <= i <= |data|
      invariant crc == Crc32(seed, data[..i])
    {
      assert data[..i + 1][..i] == data[..i];
      crc := TableLookup(crc, data[i] as bv32);
      i := i + 1;
    }
    assert data[..i] == data;
  }

  /** Over no bytes the seed comes back unchanged. */
  lemma Crc32Empty(seed: bv32)
    ensures Crc32(seed, []) == seed
  {
  }

  /** The CRC of data and one more byte is one more step. */
  lemma Crc32Snoc(seed: bv32, data: seq<byte>, b: byte)
    ensures Crc32(seed, data + [b]) == CrcStep(Crc32(seed, data), b as bv32)
  {
    assert (data + [b])[..|data|] == data;
  }

  /** The CRC of a concatenation continues from the CRC of its first part. */
  lemma {:induction false} Crc32Append(seed: bv32, u: seq<byte>, v: seq<byte>)
    ensures Crc32(seed, u + v) == Crc32(Crc32(seed, u), v)
  {
    if |v| == 0 {
      assert u + v == u;
    } else {
      var w, b := v[..|v| - 1], v[|v| - 1];
      assert v == w + [b];
      assert u + v == (u + w) + [b];
      Crc32Append(seed, u, w);
      Crc32Snoc(seed, u + w, b);
      Crc32Snoc(Crc32(seed, u), w, b);
    }
  }


  // ---------------------------------------------------------------------
  // Hex strings (hex_string_to_char_array)
  // ---------------------------------------------------------------------

  predicate IsHex(c: char)
  {
    '0' <= c <= '9' || 'a' <= c <= 'f' || 'A' <= c <= 'F'
  }

  function HexValue(c: char): (r: nat)
    requires IsHex(c)
    ensures r < 16
  {
    if '0' <= c <= '9' then c as int - '0' as int
    else if 'a' <= c <= 'f' then c as int - 'a' as int + 10
    else c as int - 'A' as int + 10
  }

  /** sscanf("%x") on the two characters c0 c1 (c1 is NUL past the end
      of the string), truncated to a char: leading white space and a sign
      are accepted, scanning stops at the first non-hex character, and a
      failed scan leaves the result 0. */
  function ScanHexPair(c0: char, c1: char): byte
  {
    if IsSpace(c0) || c0 == '+' then (if IsHex(c1) then HexValue(c1) else 0)
    else if c0 == '-' then (if IsHex(c1) then (0x100 - HexValue(c1)) % 0x100 else 0)
    else if IsHex(c0) then (if IsHex(c1) then 16 * HexValue(c0) + HexValue(c1) else HexValue(c0))
    else 0
  }

  /** The pair of the string that starts at index i. */
  function PairAt(hex: string, i: nat): byte
    requires i < |hex|
  {
    ScanHexPair(hex[i], if i + 1 < |hex| then hex[i + 1] else '\0')
  }

  /** The bytes hex_string_to_char_array stores: one per pair of
      characters, the last pair of an odd-length string being a single
      character. */
  function HexBytes(hex: string): (r: seq<byte>)
    ensures |r| == (|hex| + 1) / 2
  {
    seq((|hex| + 1) / 2, k requires 0 <= k < (|hex| + 1) / 2 => PairAt(hex, 2 * k))
  }

  /** Converts hex into bytes stored from data[at] on. */
  method HexStringToCharArray(hex: string, data: array<byte>, at: nat)
    requires at + (|hex| + 1) / 2 <= data.Length
    modifies data
    ensures data[..] == Patch(old(data[..]), at, HexBytes(hex))
  {
    var i, k := 0, 0;
    while i < |hex|
      invariant i == 2 * k && k <= (|hex| + 1) / 2
      invariant data[..] == Patch(old(data[..]), at, HexBytes(hex)[..k])
    {
      var c1 := if i + 1 < |hex| then hex[i + 1] else '\0';
      ghost var before := data[..];
      data[at + k] := ScanHexPair(hex[i], c1);
      assert data[..] == before[at + k := PairAt(hex, i)];
      HexStoreStep(old(data[..]), before, at, HexBytes(hex), k);
      i, k := i + 2, k + 1;
    }
    assert HexBytes(hex)[..k] == HexBytes(hex);
  }

  lemma HexStoreStep(s: seq<byte>, before: seq<byte>, at: nat, w: seq<byte>, k: nat)
    requires k < |w| && at + |w| <= |s|
    requires before == Patch(s, at, w[..k])
    ensures before[at + k := w[k]] == Patch(s, at, w[..k + 1])
  {
    assert w[..k + 1] == w[..k] + [w[k]];
  }

  function HexDigit(d: nat): (c: char)
    requires d < 16
    ensures IsHex(c) && HexValue(c) == d
  {
    if d < 10 then ('0' as int + d) as char else ('a' as int + d - 10) as char
  }

  /** Two hex digits per byte, most significant nibble first. */
  function HexEncode(bs: seq<byte>): (r: string)
    ensures |r| == 2 * |bs|
  {
    seq(2 * |bs|, i requires 0 <= i < 2 * |bs| =>
      if i % 2 == 0 then HexDigit(bs[i / 2] / 16) else HexDigit(bs[i / 2] % 16))
  }

  /** Converting the hex rendering of bytes gives the bytes back. */
  lemma HexRoundTrip(bs: seq<byte>)
    ensures HexBytes(HexEncode(bs)) == bs
  {
    var h := HexEncode(bs);
    forall k | 0 <= k < |bs|
      ensures HexBytes(h)[k] == bs[k]
    {
      assert h[2 * k] == HexDigit(bs[k] / 16);
      assert h[2 * k + 1] == HexDigit(bs[k] % 16);
    }
  }

  // ---------------------------------------------------------------------
  // Numbers (stringToU4)
  // ---------------------------------------------------------------------

  /** The character at index i, NUL at and past the end. */
  function CharAt(s: string, i: nat): char
  {
    if i < |s| then s[i] else '\0'
  }

  /** Where the digits start when s is a hex number ("0x..." or "x..."). */
  function HexOffset(s: string): Option<nat>
  {
    if CharAt(s, 0) == '0' && CharAt(s, 1) == 'x' then Some(2)
    else if CharAt(s, 0) == 'x' then Some(1)
    else None
  }

  /** The string after stringToU4: an odd number of hex digits gets a '0'
      written over the character in front of them. */
  function PaddedString(s: string): (r: string)
    ensures |r| == |s|
  {
    match HexOffset(s)
    case None => s
    case Some(off) =>
      if (|s| - off) % 2 == 0 then s else s[off - 1 := '0']
  }

  /** The digits handed to hex_string_to_char_array: an even number. */
  function HexDigitsOf(s: string): (r: string)
    requires HexOffset(s).Some?
    ensures |r| % 2 == 0
  {
    var off := HexOffset(s).value;
    if (|s| - off) % 2 == 0 then s[off..] else PaddedString(s)[off - 1..]
  }

  /** The 4-byte buffer is overrun by more than eight hex digits. */
  predicate U4Fits(s: string)
  {
    HexOffset(s).None? || |s| - HexOffset(s).value <= 8
  }

  /** Bytes read as a big-endian number. */
  function BigEndian(bs: seq<byte>): nat
  {
    if |bs| == 0 then 0 else BigEndian(bs[..|bs| - 1]) * 0x100 + bs[|bs| - 1]
  }

  lemma {:induction false} BigEndianBound(bs: seq<byte>)
    ensures BigEndian(bs) < Pow256(|bs|)
  {
    if |bs| > 0 {
      BigEndianBound(bs[..|bs| - 1]);
    }
  }

  function Pow256(n: nat): nat
  {
    if n == 0 then 1 else 0x100 * Pow256(n - 1)
  }

  /** stringToU4's result: None for FALSE (a negative decimal number),
      otherwise the value it stores. */
  function U4Value(s: string): (r: Option<u32>)
    requires U4Fits(s)
  {
    if HexOffset(s).Some? then
      var bs := HexBytes(HexDigitsOf(s));
      BigEndianBound(bs);
      assert Pow256(|bs|) <= U32_MOD by {
        assert |bs| <= 4;
        assert Pow256(4) == U32_MOD;
        Pow256Mono(|bs|, 4);
      }
      Some(BigEndian(bs))
    else
      var a := Atoi(s);
      if a < 0 then None else Some(a)
  }

  lemma {:induction false} Pow256Mono(m: nat, n: nat)
    requires m <= n
    ensures Pow256(m) <= Pow256(n)
    decreases n
  {
    if m < n {
      Pow256Mono(m, n - 1);
    }
  }

  /** The value a caller ends up with when it starts from 0 and ignores
      the result, as edit_table2 and mergefis_load2 do. */
  function U4OrZero(s: string): u32
    requires U4Fits(s)
  {
    match U4Value(s) case None => 0 case Some(v) => v
  }

  /** Converts the hex or decimal number held in str; str is changed as
      PaddedString says. */
  method StringToU4(str: array<char>) returns (r: Option<u32>)
    requires U4Fits(str[..])
    modifies str
    ensures r == U4Value(old(str[..]))
    ensures str[..] == PaddedString(old(str[..]))
  {
    ghost var s := str[..];
    var c0 := if str.Length > 0 then str[0] else '\0';
    var c1 := if str.Length > 1 then str[1] else '\0';
    assert c0 == CharAt(s, 0) && c1 == CharAt(s, 1);
    if (c0 == '0' && c1 == 'x') || c0 == 'x' {
      var offset := if c0 == 'x' then 1 else 2;
      assert HexOffset(s) == Some(offset);
      var len := str.Length - offset;
      if len % 2 != 0 {
        offset := offset - 1;
        str[offset] := '0';
        len := len + 1;
      }
      len := len / 2;
      if len > 4 {
        len := 4;
      }
      HexShape(s, str[..], offset);
      ghost var p := str[..];
      var n := ConvertHexDigits(str[offset..], len);
      r := Some(n);
      U4ValueHex(s);
      assert str[..] == p;
    } else {
      r := DecimalToU4(str[..]);
      U4ValueDecimal(s);
    }
  }

  /** The decimal branch of stringToU4: atoi, and FALSE for a negative
      result. */
  method DecimalToU4(s: string) returns (r: Option<u32>)
    ensures r == if Atoi(s) < 0 then None else Some(Atoi(s))
  {
    var atoiRes := Atoi(s);
    if atoiRes < 0 {
      r := None;
    } else {
      r := Some(atoiRes);
    }
  }

  /** The hex branch of stringToU4 after padding: the digits go through
      a zeroed buffer of len bytes and are read back big-endian. */
  method ConvertHexDigits(ds: string, len: nat) returns (n: u32)
    requires |ds| % 2 == 0 && len == |ds| / 2 <= 4
    ensures n == BigEndian(HexBytes(ds))
  {
    var value := new byte[len](_ => 0);
    ghost var zeros := value[..];
    HexStringToCharArray(ds, value, 0);
    PatchWhole(zeros, HexBytes(ds));
    n := ReadBigEndian(value);
  }

  /** The loop of stringToU4 that shifts the buffer's bytes into a U4. */
  method ReadBigEndian(value: array<byte>) returns (n: u32)
    requires value.Length <= 4
    ensures n == BigEndian(value[..])
  {
    n := 0;
    var i := 0;
    while i < value.Length
      invariant 0 <= i <= value.Length
      invariant n == BigEndian(value[..i])
    {
      assert value[..i + 1][..i] == value[..i];
      BigEndianStep(value[..i], value[i]);
      n := n * 0x100 + value[i];
      i := i + 1;
    }
    assert value[..i] == value[..];
  }

  /** What the hex branch of StringToU4 leaves in the string and hands to
      the conversion. */
  lemma HexShape(s: string, p: string, offset: nat)
    requires HexOffset(s).Some? && |p| == |s|
    requires var off := HexOffset(s).value;
             if (|s| - off) % 2 == 0 then offset == off && p == s
             else offset == off - 1 && p == s[offset := '0']
    ensures p == PaddedString(s) && offset <= |p| && p[offset..] == HexDigitsOf(s)
    ensures (|p| - offset) / 2 == |HexBytes(p[offset..])|
  {
  }

  lemma PatchWhole(z: seq<byte>, w: seq<byte>)
    requires |z| == |w|
    ensures Patch(z, 0, w) == w
  {
  }

  lemma BigEndianStep(bs: seq<byte>, b: byte)
    requires |bs| < 4
    ensures BigEndian(bs) < 0x100_0000
    ensures BigEndian(bs + [b]) == BigEndian(bs) * 0x100 + b
  {
    BigEndianBound(bs);
    Pow256Mono(|bs|, 3);
    assert Pow256(3) == 0x100_0000;
    assert (bs + [b])[..|bs|] == bs;
  }

  lemma U4ValueDecimal(s: string)
    requires HexOffset(s).None?
    ensures U4Fits(s) && U4Value(s) == if Atoi(s) < 0 then None else Some(Atoi(s))
  {
  }

  lemma U4ValueHex(s: string)
    requires U4Fits(s) && HexOffset(s).Some?
    ensures U4Value(s) == Some(BigEndian(HexBytes(HexDigitsOf(s))))
  {
  }

  /** The number written as digits, most significant digit first. */
  function HexNumber(ds: string): nat
    requires forall k :: 0 <= k < |ds| ==> IsHex(ds[k])
  {
    if |ds| == 0 then 0 else HexNumber(ds[..|ds| - 1]) * 16 + HexValue(ds[|ds| - 1])
  }

  /** A "0x" or "x" prefix followed by up to eight hex digits is read as
      that hex number, an odd digit count included. */
  lemma HexStringValue(prefix: string, ds: string)
    requires prefix == "0x" || prefix == "x"
    requires |ds| <= 8 && forall k :: 0 <= k < |ds| ==> IsHex(ds[k])
    ensures U4Fits(prefix + ds) && U4Value(prefix + ds) == Some(HexNumber(ds))
  {
    HexPrefixShape(prefix, ds);
    U4ValueHex(prefix + ds);
    PaddedDigitsValue(ds);
  }

  lemma HexPrefixShape(prefix: string, ds: string)
    requires prefix == "0x" || prefix == "x"
    requires |ds| <= 8
    ensures var s := prefix + ds;
            HexOffset(s) == Some(|prefix|) && U4Fits(s)
            && HexDigitsOf(s) == if |ds| % 2 == 0 then ds else "0" + ds
  {
    var s := prefix + ds;
    assert HexOffset(s) == Some(|prefix|);
    if |ds| % 2 == 0 {
      assert s[|prefix|..] == ds;
    } else {
      assert PaddedString(s)[|prefix| - 1..] == "0" + ds;
    }
  }

  /** Padding an odd digit count with '0' keeps the value. */
  lemma PaddedDigitsValue(ds: string)
    requires forall k :: 0 <= k < |ds| ==> IsHex(ds[k])
    ensures var d := if |ds| % 2 == 0 then ds else "0" + ds;
            (forall k :: 0 <= k < |d| ==> IsHex(d[k])) && BigEndian(HexBytes(d)) == HexNumber(ds)
  {
    if |ds| % 2 == 0 {
      EvenHexValue(ds);
    } else {
      var d := "0" + ds;
      assert forall k :: 0 < k < |d| ==> d[k] == ds[k - 1];
      EvenHexValue(d);
      LeadingZero(ds);
    }
  }

  /** An even-length hex string converts pair by pair into its value. */
  lemma {:induction false} EvenHexValue(ds: string)
    requires |ds| % 2 == 0 && forall k :: 0 <= k < |ds| ==> IsHex(ds[k])
    ensures BigEndian(HexBytes(ds)) == HexNumber(ds)
    decreases |ds|
  {
    if |ds| > 0 {
      var n := |ds|;
      var t := ds[..n - 2];
      EvenHexValue(t);
      HexBytesDropPair(ds);
      HexNumberDropPair(ds);
    }
  }

  lemma HexBytesDropPair(ds: string)
    requires |ds| >= 2 && |ds| % 2 == 0
    ensures var bs := HexBytes(ds);
            BigEndian(bs) == BigEndian(HexBytes(ds[..|ds| - 2])) * 0x100 + PairAt(ds, |ds| - 2)
  {
    var bs := HexBytes(ds);
    var t := ds[..|ds| - 2];
    assert bs[..|bs| - 1] == HexBytes(t) by {
      forall k | 0 <= k < |bs| - 1
        ensures bs[k] == HexBytes(t)[k]
      {
        assert PairAt(ds, 2 * k) == PairAt(t, 2 * k);
      }
    }
  }

  lemma HexNumberDropPair(ds: string)
    requires |ds| >= 2 && forall k :: 0 <= k < |ds| ==> IsHex(ds[k])
    ensures var n := |ds|;
            IsHex(ds[n - 2]) && IsHex(ds[n - 1]) && PairAt(ds, n - 2) == 16 * HexValue(ds[n - 2]) + HexValue(ds[n - 1])
            && HexNumber(ds) == HexNumber(ds[..n - 2]) * 0x100 + PairAt(ds, n - 2)
  {
    var n := |ds|;
    assert ds[..n - 1][..n - 2] == ds[..n - 2];
    assert IsHex(ds[n - 2]);
  }

  /** A leading '0' digit does not change the value. */
  lemma {:induction false} LeadingZero(ds: string)
    requires forall k :: 0 <= k < |ds| ==> IsHex(ds[k])
    ensures HexNumber("0" + ds) == HexNumber(ds)
    decreases |ds|
  {
    if |ds| > 0 {
      assert ("0" + ds)[..|ds|] == "0" + ds[..|ds| - 1];
      LeadingZero(ds[..|ds| - 1]);
    }
  }

  /** A decimal rendering of a number that fits an int is read back. */
  lemma DecimalStringValue(n: nat)
    requires n < 0x8000_0000
    ensures U4Fits(Dec(n)) && U4Value(Dec(n)) == Some(n)
  {
    var s := Dec(n);
    assert IsDigit(s[0]);
    if |s| > 1 {
      assert IsDigit(s[1]);
    }
    assert HexOffset(s).None?;
    AtoiDec(n);
  }

  // ---------------------------------------------------------------------
  // Element lookups (getAttrValue, getElemValue)
  // ---------------------------------------------------------------------

  /** An element of the flash database: its name, its text (if any), its
      attributes and its child elements. */
  datatype Attr = Attr(name: string, value: string)
  datatype Elem = Elem(name: string, value: Option<string>, attrs: seq<Attr>, children: seq<Elem>)

  /** The value of the last of the first n attributes called name. */
  function AttrValueIn(attrs: seq<Attr>, name: string, n: nat): Option<string>
    requires n <= |attrs|
  {
    if n == 0 then None
    else if attrs[n - 1].name == name then Some(attrs[n - 1].value)
    else AttrValueIn(attrs, name, n - 1)
  }

  function AttrValue(e: Elem, name: string): Option<string>
  {
    AttrValueIn(e.attrs, name, |e.attrs|)
  }

  /** The index of the last of the first n children called name. */
  function LastChildIn(children: seq<Elem>, name: string, n: nat): (r: Option<nat>)
    requires n <= |children|
    ensures r.Some? ==> r.value < n
  {
    if n == 0 then None
    else if children[n - 1].name == name then Some(n - 1)
    else LastChildIn(children, name, n - 1)
  }

  function LastChild(e: Elem, name: string): (r: Option<nat>)
    ensures r.Some? ==> r.value < |e.children|
  {
    LastChildIn(e.children, name, |e.children|)
  }

  /** The text of the last child called name; None also when that child
      has no text. */
  function ElemValue(e: Elem, name: string): Option<string>
  {
    match LastChild(e, name)
    case None => None
    case Some(i) => e.children[i].value
  }

  /** The last child called "cap". */
  function CapOf(e: Elem): Option<Elem>
  {
    match LastChild(e, "cap")
    case None => None
    case Some(i) => Some(e.children[i])
  }

  /** The last attribute of that name wins; None when there is none. */
  lemma {:induction false} AttrValueIsLast(attrs: seq<Attr>, name: string, n: nat)
    requires n <= |attrs|
    ensures AttrValueIn(attrs, name, n).None? <==> forall i :: 0 <= i < n ==> attrs[i].name != name
    ensures AttrValueIn(attrs, name, n).Some? ==>
              exists i :: 0 <= i < n && attrs[i].name == name && AttrValueIn(attrs, name, n).value == attrs[i].value
                          && forall j :: i < j < n ==> attrs[j].name != name
  {
    if n > 0 && attrs[n - 1].name != name {
      AttrValueIsLast(attrs, name, n - 1);
    }
  }

  /** The same for children. */
  lemma {:induction false} LastChildIsLast(children: seq<Elem>, name: string, n: nat)
    requires n <= |children|
    ensures LastChildIn(children, name, n).None? <==> forall i :: 0 <= i < n ==> children[i].name != name
    ensures LastChildIn(children, name, n).Some? ==>
              var i := LastChildIn(children, name, n).value;
              children[i].name == name && forall j :: i < j < n ==> children[j].name != name
  {
    if n > 0 && children[n - 1].name != name {
      LastChildIsLast(children, name, n - 1);
    }
  }

  method GetAttrValue(attrName: string, elem: Elem) returns (result: Option<string>)
    ensures result == AttrValue(elem, attrName)
  {
    result := None;
    var i := 0;
    while i < |elem.attrs|
      invariant 0 <= i <= |elem.attrs|
      invariant result == AttrValueIn(elem.attrs, attrName, i)
    {
      if elem.attrs[i].name == attrName {
        result := Some(elem.attrs[i].value);
      }
      i := i + 1;
    }
  }

  method GetElemValue(elemName: string, elem: Elem) returns (result: Option<string>)
    ensures result == ElemValue(elem, elemName)
  {
    result := None;
    ghost var last: Option<nat> := None;
    var i := 0;
    while i < |elem.children|
      invariant 0 <= i <= |elem.children|
      invariant last == LastChildIn(elem.children, elemName, i)
      invariant result == match last case None => None case Some(k) => elem.children[k].value
    {
      if elem.children[i].name == elemName {
        result := elem.children[i].value;
        last := Some(i);
      }
      i := i + 1;
    }
  }

  // ---------------------------------------------------------------------
  // The FIS table (edit_table2, mergefis_get_sector_count/size)
  // ---------------------------------------------------------------------

  /** What edit_table2 looks up in its container before writing: the
      supply attribute, the texts of the number elements and the last
      "cap" child. */
  datatype TableFields = TableFields(
    supply: Option<string>, sectorSize: Option<string>, sectorCount: Option<string>,
    cap: Option<Elem>, hsp: Option<string>, cfg: Option<string>,
    minEraseSuspend: Option<string>, numBytesWrite: Option<string>,
    deepSleepOpcode: Option<string>, deepSleepWakeupOpcode: Option<string>,
    deepSleepWakeupTimeout: Option<string>, maxSpeed: Option<string>)

  function FieldsOf(c: Elem): TableFields
  {
    TableFields(
      AttrValue(c, "supply"), ElemValue(c, "sectorSize"), ElemValue(c, "sectorCount"),
      CapOf(c), ElemValue(c, "hsp"), ElemValue(c, "cfg"),
      ElemValue(c, "minEraseSuspend"), ElemValue(c, "numBytesWrite"),
      ElemValue(c, "deepSleepOpcode"), ElemValue(c, "deepSleepWakeupOpcode"),
      ElemValue(c, "deepSleepWakeupTimeout"), ElemValue(c, "maxSpeed"))
  }

  predicate Fits(v: Option<string>)
  {
    v.Some? ==> U4Fits(v.value)
  }

  /** None of the numbers overruns stringToU4's buffer. */
  predicate NumbersFit(f: TableFields)
  {
    Fits(f.sectorSize) && Fits(f.sectorCount) && Fits(f.hsp) && Fits(f.cfg)
    && Fits(f.minEraseSuspend) && Fits(f.numBytesWrite) && Fits(f.deepSleepOpcode)
    && Fits(f.deepSleepWakeupOpcode) && Fits(f.deepSleepWakeupTimeout) && Fits(f.maxSpeed)
  }

  /** The settings once converted: whether the supply reads "1.8V", the
      four capability flags and the numbers, each None when absent. */
  datatype CapFlags = CapFlags(
    writeSuspend: Option<bool>, fastProgram: Option<bool>, deepSleep: Option<bool>, speed: Option<bool>)

  datatype TableValues = TableValues(
    supply: Option<bool>, sectorSize: Option<u32>, sectorCount: Option<u32>,
    cap: Option<CapFlags>, hsp: Option<u32>, cfg: Option<u32>,
    minEraseSuspend: Option<u32>, numBytesWrite: Option<u32>,
    deepSleepOpcode: Option<u32>, deepSleepWakeupOpcode: Option<u32>,
    deepSleepWakeupTimeout: Option<u32>, maxSpeed: Option<u32>)

  /** A present number setting as edit_table2 reads it into a U4 that
      starts at 0: its value, or 0 when stringToU4 fails. */
  function NumberOf(field: Option<string>): Option<u32>
    requires Fits(field)
  {
    match field
    case None => None
    case Some(t) => Some(U4OrZero(t))
  }

  /** A present capability attribute sets its flag when it reads 1 and
      clears it otherwise. */
  function FlagOf(attr: Option<string>): Option<bool>
  {
    match attr
    case None => None
    case Some(a) => Some(Atoi(a) == 1)
  }

  function CapFlagsOf(cap: Option<Elem>): Option<CapFlags>
  {
    match cap
    case None => None
    case Some(e) =>
      Some(CapFlags(FlagOf(AttrValue(e, "writeSuspend")), FlagOf(AttrValue(e, "fastProgram")),
                    FlagOf(AttrValue(e, "deepSleep")), FlagOf(AttrValue(e, "speed"))))
  }

  function ValuesOf(f: TableFields): TableValues
    requires NumbersFit(f)
  {
    TableValues(
      match f.supply case None => None case Some(v) => Some(HasPrefix(v, "1.8V")),
      NumberOf(f.sectorSize), NumberOf(f.sectorCount), CapFlagsOf(f.cap),
      NumberOf(f.hsp), NumberOf(f.cfg), NumberOf(f.minEraseSuspend), NumberOf(f.numBytesWrite),
      NumberOf(f.deepSleepOpcode), NumberOf(f.deepSleepWakeupOpcode),
      NumberOf(f.deepSleepWakeupTimeout), NumberOf(f.maxSpeed))
  }

  /** One past the highest byte edit_table2 writes. */
  function Needed(v: TableValues): nat
  {
    if v.maxSpeed.Some? then MAX_SPEED_POSITION + 1
    else if v.deepSleepWakeupTimeout.Some? then DEEP_SLEEP_WAKEUP_TIMEOUT_POSITION + 1
    else if v.deepSleepWakeupOpcode.Some? then DEEP_SLEEP_WAKEUP_OPCODE_POSITION + 1
    else if v.deepSleepOpcode.Some? then DEEP_SLEEP_OPCODE_POSITION + 1
    else if v.numBytesWrite.Some? then NUM_BYTES_WRITE_POSITION + 4
    else if v.minEraseSuspend.Some? then MIN_ERASE_SUSPEND_POSITION + 4
    else if v.cfg.Some? then CFG_POSITION + 4
    else if v.hsp.Some? then HSP_POSITION + 4
    else if v.sectorCount.Some? then SECTOR_COUNT_POSITION + 4
    else if v.sectorSize.Some? then SECTOR_SIZE_POSITION + 4
    else if v.supply.Some? then SUPPLY_TYPE_POSITION + 1
    else if v.cap.Some? then CAPABILITY_POSITION + 1
    else 0
  }

  /** Where each present setting ends: the table must reach so far. */
  lemma NeededBounds(v: TableValues)
    ensures v.maxSpeed.Some? ==> Needed(v) >= MAX_SPEED_POSITION + 1
    ensures v.deepSleepWakeupTimeout.Some? ==> Needed(v) >= DEEP_SLEEP_WAKEUP_TIMEOUT_POSITION + 1
    ensures v.deepSleepWakeupOpcode.Some? ==> Needed(v) >= DEEP_SLEEP_WAKEUP_OPCODE_POSITION + 1
    ensures v.deepSleepOpcode.Some? ==> Needed(v) >= DEEP_SLEEP_OPCODE_POSITION + 1
    ensures v.numBytesWrite.Some? ==> Needed(v) >= NUM_BYTES_WRITE_POSITION + 4
    ensures v.minEraseSuspend.Some? ==> Needed(v) >= MIN_ERASE_SUSPEND_POSITION + 4
    ensures v.cfg.Some? ==> Needed(v) >= CFG_POSITION + 4
    ensures v.hsp.Some? ==> Needed(v) >= HSP_POSITION + 4
    ensures v.sectorCount.Some? ==> Needed(v) >= SECTOR_COUNT_POSITION + 4
    ensures v.sectorSize.Some? ==> Needed(v) >= SECTOR_SIZE_POSITION + 4
    ensures v.supply.Some? ==> Needed(v) >= SUPPLY_TYPE_POSITION + 1
    ensures v.cap.Some? ==> Needed(v) >= CAPABILITY_POSITION + 1
  {
  }

  /** edit_table2 can run on a table of that length with that container. */
  predicate EditFits(len: nat, c: Elem)
  {
    NumbersFit(FieldsOf(c)) && len >= Needed(ValuesOf(FieldsOf(c)))
  }

  /** Bit 0 of the supply byte becomes whether the part is a 1.8 V one. */
  function SupplyBits(b: bv8, is1V8: bool): bv8
  {
    (b & 0xFE) | (if is1V8 then 1 else 0)
  }

  function SupplyByte(b: byte, is1V8: bool): byte
  {
    SupplyBits(b as bv8, is1V8) as int
  }

  /** One capability bit: set or cleared as the flag says, kept when
      there is no flag. */
  function CapFlag(v: bv8, mask: bv8, flag: Option<bool>): bv8
  {
    match flag
    case None => v
    case Some(on) => (v & !mask) | (if on then mask else 0)
  }

  /** The capability byte after the four flags, in the source's order. */
  function CapBits(b: bv8, flags: CapFlags): bv8
  {
    var v := CapFlag(b, CAP_WRITE_SUSPEND, flags.writeSuspend);
    var v := CapFlag(v, CAP_FAST_PROGRAM, flags.fastProgram);
    var v := CapFlag(v, CAP_DEEP_SLEEP, flags.deepSleep);
    CapFlag(v, CAP_MAX_SPEED, flags.speed)
  }

  function CapByte(b: byte, flags: CapFlags): byte
  {
    CapBits(b as bv8, flags) as int
  }

  /** The supply setting changes bit 0 only. */
  lemma SupplyBitsSpec(b: bv8, is1V8: bool)
    ensures SupplyBits(b, is1V8) & 0xFE == b & 0xFE
    ensures (SupplyBits(b, is1V8) & 1 == 1) == is1V8
  {
  }

  /** The capability settings change the four flag bits only, each as its
      flag says. */
  lemma CapBitsSpec(b: bv8, flags: CapFlags)
    ensures var r := CapBits(b, flags);
            r & 0xE8 == b & 0xE8
            && (flags.writeSuspend.Some? ==> (r & CAP_WRITE_SUSPEND != 0 <==> flags.writeSuspend.value))
            && (flags.writeSuspend.None? ==> r & CAP_WRITE_SUSPEND == b & CAP_WRITE_SUSPEND)
            && (flags.fastProgram.Some? ==> (r & CAP_FAST_PROGRAM != 0 <==> flags.fastProgram.value))
            && (flags.fastProgram.None? ==> r & CAP_FAST_PROGRAM == b & CAP_FAST_PROGRAM)
            && (flags.deepSleep.Some? ==> (r & CAP_DEEP_SLEEP != 0 <==> flags.deepSleep.value))
            && (flags.deepSleep.None? ==> r & CAP_DEEP_SLEEP == b & CAP_DEEP_SLEEP)
            && (flags.speed.Some? ==> (r & CAP_MAX_SPEED != 0 <==> flags.speed.value))
            && (flags.speed.None? ==> r & CAP_MAX_SPEED == b & CAP_MAX_SPEED)
  {
  }

  /** A 32-bit setting stored little-endian when present. */
  function PutWord(s: seq<byte>, pos: nat, v: Option<u32>): (r: seq<byte>)
    requires v.Some? ==> pos + 4 <= |s|
    ensures |r| == |s|
    ensures v.Some? ==> LE32At(r, pos) == v.value
    ensures forall k :: 0 <= k < |s| && !(v.Some? && pos <= k < pos + 4) ==> r[k] == s[k]
  {
    match v
    case None => s
    case Some(x) =>
      LE32OfPatch(s, pos, x);
      Patch(s, pos, EncodeLE32(x))
  }

  /** A one-byte setting (the low byte of the number) when present. */
  function PutLow(s: seq<byte>, pos: nat, v: Option<u32>): (r: seq<byte>)
    requires v.Some? ==> pos < |s|
    ensures |r| == |s|
    ensures v.Some? ==> r[pos] == v.value % 0x100
    ensures forall k :: 0 <= k < |s| && !(v.Some? && k == pos) ==> r[k] == s[k]
  {
    match v
    case None => s
    case Some(x) => s[pos := ToU8(x)]
  }

  function PutSupply(s: seq<byte>, supply: Option<bool>): (r: seq<byte>)
    requires supply.Some? ==> SUPPLY_TYPE_POSITION < |s|
    ensures |r| == |s|
  {
    match supply
    case None => s
    case Some(b) => s[SUPPLY_TYPE_POSITION := SupplyByte(s[SUPPLY_TYPE_POSITION], b)]
  }

  function PutCap(s: seq<byte>, cap: Option<CapFlags>): (r: seq<byte>)
    requires cap.Some? ==> CAPABILITY_POSITION < |s|
    ensures |r| == |s|
  {
    match cap
    case None => s
    case Some(flags) => s[CAPABILITY_POSITION := CapByte(s[CAPABILITY_POSITION], flags)]
  }

  /** The FIS table after edit_table2 with container c. */
  function EditedTable(s: seq<byte>, c: Elem): (r: seq<byte>)
    requires EditFits(|s|, c)
    ensures |r| == |s|
  {
    ApplyValues(s, ValuesOf(FieldsOf(c)))
  }

  /** The writes of edit_table2, in its order: the supply, the sector
      geometry and the capabilities, then the other 32-bit numbers, then
      the single-byte opcodes and speed. */
  function ApplyValues(s: seq<byte>, v: TableValues): (r: seq<byte>)
    requires |s| >= Needed(v)
    ensures |r| == |s|
  {
    PutOpcodes(PutNumbers(PutHead(s, v), v), v)
  }

  predicate WrittenHead(v: TableValues, j: nat)
  {
    (v.cap.Some? && j == CAPABILITY_POSITION)
    || (v.supply.Some? && j == SUPPLY_TYPE_POSITION)
    || (v.sectorSize.Some? && SECTOR_SIZE_POSITION <= j < SECTOR_SIZE_POSITION + 4)
    || (v.sectorCount.Some? && SECTOR_COUNT_POSITION <= j < SECTOR_COUNT_POSITION + 4)
  }

  predicate WrittenNumbers(v: TableValues, j: nat)
  {
    (v.hsp.Some? && HSP_POSITION <= j < HSP_POSITION + 4)
    || (v.cfg.Some? && CFG_POSITION <= j < CFG_POSITION + 4)
    || (v.minEraseSuspend.Some? && MIN_ERASE_SUSPEND_POSITION <= j < MIN_ERASE_SUSPEND_POSITION + 4)
    || (v.numBytesWrite.Some? && NUM_BYTES_WRITE_POSITION <= j < NUM_BYTES_WRITE_POSITION + 4)
  }

  predicate WrittenOpcodes(v: TableValues, j: nat)
  {
    (v.deepSleepOpcode.Some? && j == DEEP_SLEEP_OPCODE_POSITION)
    || (v.deepSleepWakeupOpcode.Some? && j == DEEP_SLEEP_WAKEUP_OPCODE_POSITION)
    || (v.deepSleepWakeupTimeout.Some? && j == DEEP_SLEEP_WAKEUP_TIMEOUT_POSITION)
    || (v.maxSpeed.Some? && j == MAX_SPEED_POSITION)
  }

  /** The bytes edit_table2 may write for the settings v: the supply byte,
      the capability byte, the 32-bit fields at 0x8 to 0x1F and the
      single bytes at 0x38, 0x39, 0x3A and 0x43, each only when its
      setting is present. */
  predicate Written(v: TableValues, j: nat)
  {
    WrittenHead(v, j) || WrittenNumbers(v, j) || WrittenOpcodes(v, j)
  }

  function PutHead(s: seq<byte>, v: TableValues): (r: seq<byte>)
    requires |s| >= Needed(v)
    ensures |r| == |s|
    ensures forall j :: 0 <= j < |s| && !WrittenHead(v, j) ==> r[j] == s[j]
    ensures v.supply.Some? ==> r[SUPPLY_TYPE_POSITION] == SupplyByte(s[SUPPLY_TYPE_POSITION], v.supply.value)
    ensures v.cap.Some? ==> r[CAPABILITY_POSITION] == CapByte(s[CAPABILITY_POSITION], v.cap.value)
    ensures v.sectorSize.Some? ==> LE32At(r, SECTOR_SIZE_POSITION) == v.sectorSize.value
    ensures v.sectorCount.Some? ==> LE32At(r, SECTOR_COUNT_POSITION) == v.sectorCount.value
  {
    NeededBounds(v);
    var s1 := PutSupply(s, v.supply);
    var s2 := PutWord(s1, SECTOR_SIZE_POSITION, v.sectorSize);
    var s3 := PutWord(s2, SECTOR_COUNT_POSITION, v.sectorCount);
    var s4 := PutCap(s3, v.cap);
    assert v.supply.Some? ==> s4[SUPPLY_TYPE_POSITION] == s1[SUPPLY_TYPE_POSITION];
    s4
  }

  function PutNumbers(s: seq<byte>, v: TableValues): (r: seq<byte>)
    requires |s| >= Needed(v)
    ensures |r| == |s|
    ensures forall j :: 0 <= j < |s| && !WrittenNumbers(v, j) ==> r[j] == s[j]
    ensures v.hsp.Some? ==> LE32At(r, HSP_POSITION) == v.hsp.value
    ensures v.cfg.Some? ==> LE32At(r, CFG_POSITION) == v.cfg.value
    ensures v.minEraseSuspend.Some? ==> LE32At(r, MIN_ERASE_SUSPEND_POSITION) == v.minEraseSuspend.value
    ensures v.numBytesWrite.Some? ==> LE32At(r, NUM_BYTES_WRITE_POSITION) == v.numBytesWrite.value
  {
    NeededBounds(v);
    var s5 := PutWord(s, HSP_POSITION, v.hsp);
    var s6 := PutWord(s5, CFG_POSITION, v.cfg);
    var s7 := PutWord(s6, MIN_ERASE_SUSPEND_POSITION, v.minEraseSuspend);
    PutWord(s7, NUM_BYTES_WRITE_POSITION, v.numBytesWrite)
  }

  function PutOpcodes(s: seq<byte>, v: TableValues): (r: seq<byte>)
    requires |s| >= Needed(v)
    ensures |r| == |s|
    ensures forall j :: 0 <= j < |s| && !WrittenOpcodes(v, j) ==> r[j] == s[j]
    ensures v.deepSleepOpcode.Some? ==> r[DEEP_SLEEP_OPCODE_POSITION] == v.deepSleepOpcode.value % 0x100
    ensures v.deepSleepWakeupOpcode.Some? ==> r[DEEP_SLEEP_WAKEUP_OPCODE_POSITION] == v.deepSleepWakeupOpcode.value % 0x100
    ensures v.deepSleepWakeupTimeout.Some? ==> r[DEEP_SLEEP_WAKEUP_TIMEOUT_POSITION] == v.deepSleepWakeupTimeout.value % 0x100
    ensures v.maxSpeed.Some? ==> r[MAX_SPEED_POSITION] == v.maxSpeed.value % 0x100
  {
    NeededBounds(v);
    var s9 := PutLow(s, DEEP_SLEEP_OPCODE_POSITION, v.deepSleepOpcode);
    var s10 := PutLow(s9, DEEP_SLEEP_WAKEUP_OPCODE_POSITION, v.deepSleepWakeupOpcode);
    var s11 := PutLow(s10, DEEP_SLEEP_WAKEUP_TIMEOUT_POSITION, v.deepSleepWakeupTimeout);
    PutLow(s11, MAX_SPEED_POSITION, v.maxSpeed)
  }

  /** `U4 x = 0; stringToU4(text, &x);`: the value, or 0 when the
      conversion fails. */
  method ReadU4(text: string) returns (v: u32)
    requires U4Fits(text)
    ensures v == U4OrZero(text)
  {
    var str := new char[|text|](i requires 0 <= i < |text| => text[i]);
    assert str[..] == text;
    var r := StringToU4(str);
    v := if r.Some? then r.value else 0;
  }

  /** The four byte assignments of a little-endian 32-bit field. */
  method StoreLE32(a: array<byte>, pos: nat, v: u32)
    requires pos + 4 <= a.Length
    modifies a
    ensures a[..] == Patch(old(a[..]), pos, EncodeLE32(v))
  {
    ByteSplit(v);
    a[pos] := v % 0x100;
    a[pos + 1] := (v / 0x100) % 0x100;
    a[pos + 2] := (v / 0x1_0000) % 0x100;
    a[pos + 3] := v / 0x100_0000;
    ghost var w := EncodeLE32(v);
    ghost var p := Patch(old(a[..]), pos, w);
    assert forall k :: 0 <= k < a.Length ==> a[k] == p[k] by {
      forall k | 0 <= k < a.Length
        ensures a[k] == p[k]
      {
        if pos <= k < pos + 4 {
          assert p[k] == p[pos..pos + 4][k - pos];
        }
      }
    }
    assert a[..] == p;
  }

  /** A present number setting through stringToU4. */
  method ReadNumber(field: Option<string>) returns (n: Option<u32>)
    requires Fits(field)
    ensures n == NumberOf(field)
  {
    n := None;
    if field.Some? {
      var v := ReadU4(field.value);
      n := Some(v);
    }
  }

  /** One 32-bit setting of edit_table2. */
  method PutWordAt(fis: array<byte>, pos: nat, v: Option<u32>)
    requires v.Some? ==> pos + 4 <= fis.Length
    modifies fis
    ensures fis[..] == PutWord(old(fis[..]), pos, v)
  {
    if v.Some? {
      StoreLE32(fis, pos, v.value);
    }
  }

  /** One single-byte setting of edit_table2. */
  method PutLowAt(fis: array<byte>, pos: nat, v: Option<u32>)
    requires v.Some? ==> pos < fis.Length
    modifies fis
    ensures fis[..] == PutLow(old(fis[..]), pos, v)
  {
    if v.Some? {
      fis[pos] := v.value % 0x100;
    }
  }

  /** The supply bit of edit_table2. */
  method PutSupplyAt(fis: array<byte>, is1V8: Option<bool>)
    requires is1V8.Some? ==> SUPPLY_TYPE_POSITION < fis.Length
    modifies fis
    ensures fis[..] == PutSupply(old(fis[..]), is1V8)
  {
    if is1V8.Some? {
      var s: bv8 := if is1V8.value then 1 else 0;
      fis[SUPPLY_TYPE_POSITION] := ((fis[SUPPLY_TYPE_POSITION] as bv8 & 0xFE) | (s & 0x1)) as int;
    }
  }

  /** The four attributes of the cap element, in turn. */
  method ReadCapFlags(cap: Option<Elem>) returns (flags: Option<CapFlags>)
    ensures flags == CapFlagsOf(cap)
  {
    flags := None;
    if cap.Some? {
      var writeSuspend := GetAttrValue("writeSuspend", cap.value);
      var fastProgram := GetAttrValue("fastProgram", cap.value);
      var deepSleep := GetAttrValue("deepSleep", cap.value);
      var capMaxSpeed := GetAttrValue("speed", cap.value);
      var wS := ReadFlag(writeSuspend);
      var fP := ReadFlag(fastProgram);
      var dS := ReadFlag(deepSleep);
      var mS := ReadFlag(capMaxSpeed);
      flags := Some(CapFlags(wS, fP, dS, mS));
    }
  }

  /** `atoi(attr) == 1` for a present attribute. */
  method ReadFlag(attr: Option<string>) returns (flag: Option<bool>)
    ensures flag == FlagOf(attr)
  {
    flag := None;
    if attr.Some? {
      flag := Some(Atoi(attr.value) == 1);
    }
  }

  /** The capability byte: each present flag sets or clears its bit. */
  method PutCapAt(fis: array<byte>, flags: Option<CapFlags>)
    requires flags.Some? ==> CAPABILITY_POSITION < fis.Length
    modifies fis
    ensures fis[..] == PutCap(old(fis[..]), flags)
  {
    if flags.Some? {
      var fisValue: bv8 := fis[CAPABILITY_POSITION] as bv8;
      fisValue := SetCapFlag(fisValue, CAP_WRITE_SUSPEND, flags.value.writeSuspend);
      fisValue := SetCapFlag(fisValue, CAP_FAST_PROGRAM, flags.value.fastProgram);
      fisValue := SetCapFlag(fisValue, CAP_DEEP_SLEEP, flags.value.deepSleep);
      fisValue := SetCapFlag(fisValue, CAP_MAX_SPEED, flags.value.speed);
      fis[CAPABILITY_POSITION] := fisValue as int;
    }
  }

  /** One capability flag applied to the byte being built. */
  method SetCapFlag(v: bv8, mask: bv8, flag: Option<bool>) returns (r: bv8)
    ensures r == CapFlag(v, mask, flag)
  {
    match flag
    case None =>
      r := v;
    case Some(on) =>
      var bit: bv8 := if on then mask else 0;
      r := (v & !mask) | bit;
  }

  /** Edits the leading table of a FIS with the settings of container:
      every setting present is written, in the order of the source. */
  method EditTable2(fis: array<byte>, container: Elem)
    requires EditFits(fis.Length, container)
    modifies fis
    ensures fis[..] == EditedTable(old(fis[..]), container)
  {
    var supply := GetAttrValue("supply", container);
    var secSize := GetElemValue("sectorSize", container);
    var secCount := GetElemValue("sectorCount", container);
    var cap: Option<Elem> := None;
    var i := 0;
    while i < |container.children|
      invariant 0 <= i <= |container.children|
      invariant cap == match LastChildIn(container.children, "cap", i)
                       case None => None case Some(k) => Some(container.children[k])
    {
      if container.children[i].name == "cap" {
        cap := Some(container.children[i]);
      }
      i := i + 1;
    }
    var hsp := GetElemValue("hsp", container);
    var cfg := GetElemValue("cfg", container);
    var minEraseSuspend := GetElemValue("minEraseSuspend", container);
    var numBytesWrite := GetElemValue("numBytesWrite", container);
    var deepSleepOpcode := GetElemValue("deepSleepOpcode", container);
    var deepSleepWakeupOpcode := GetElemValue("deepSleepWakeupOpcode", container);
    var deepSleepWakeupTimeout := GetElemValue("deepSleepWakeupTimeout", container);
    var maxSpeed := GetElemValue("maxSpeed", container);
    var f := TableFields(supply, secSize, secCount, cap, hsp, cfg, minEraseSuspend, numBytesWrite,
                         deepSleepOpcode, deepSleepWakeupOpcode, deepSleepWakeupTimeout, maxSpeed);
    assert f == FieldsOf(container);
    var v := ReadValues(f);
    WriteValues(fis, v);
  }

  /** The conversions of edit_table2 once its settings are looked up:
      the supply test, the capability flags and stringToU4 on each
      number. */
  method ReadValues(f: TableFields) returns (v: TableValues)
    requires NumbersFit(f)
    ensures v == ValuesOf(f)
  {
    var supply: Option<bool> := None;
    if f.supply.Some? {
      supply := Some(HasPrefix(f.supply.value, "1.8V"));
    }
    var sectorSize := ReadNumber(f.sectorSize);
    var sectorCount := ReadNumber(f.sectorCount);
    var cap := ReadCapFlags(f.cap);
    var hsp := ReadNumber(f.hsp);
    var cfg := ReadNumber(f.cfg);
    var minEraseSuspend := ReadNumber(f.minEraseSuspend);
    var numBytesWrite := ReadNumber(f.numBytesWrite);
    var deepSleepOpcode := ReadNumber(f.deepSleepOpcode);
    var deepSleepWakeupOpcode := ReadNumber(f.deepSleepWakeupOpcode);
    var deepSleepWakeupTimeout := ReadNumber(f.deepSleepWakeupTimeout);
    var maxSpeed := ReadNumber(f.maxSpeed);
    v := TableValues(supply, sectorSize, sectorCount, cap, hsp, cfg, minEraseSuspend, numBytesWrite,
                     deepSleepOpcode, deepSleepWakeupOpcode, deepSleepWakeupTimeout, maxSpeed);
  }

  /** The writes of edit_table2, in its order. */
  method WriteValues(fis: array<byte>, v: TableValues)
    requires fis.Length >= Needed(v)
    modifies fis
    ensures fis[..] == ApplyValues(old(fis[..]), v)
  {
    WriteHead(fis, v);
    WriteNumbers(fis, v);
    WriteOpcodes(fis, v);
  }

  method WriteHead(fis: array<byte>, v: TableValues)
    requires fis.Length >= Needed(v)
    modifies fis
    ensures fis[..] == PutHead(old(fis[..]), v)
  {
    NeededBounds(v);
    PutSupplyAt(fis, v.supply);
    PutWordAt(fis, SECTOR_SIZE_POSITION, v.sectorSize);
    PutWordAt(fis, SECTOR_COUNT_POSITION, v.sectorCount);
    PutCapAt(fis, v.cap);
  }

  method WriteNumbers(fis: array<byte>, v: TableValues)
    requires fis.Length >= Needed(v)
    modifies fis
    ensures fis[..] == PutNumbers(old(fis[..]), v)
  {
    NeededBounds(v);
    PutWordAt(fis, HSP_POSITION, v.hsp);
    PutWordAt(fis, CFG_POSITION, v.cfg);
    PutWordAt(fis, MIN_ERASE_SUSPEND_POSITION, v.minEraseSuspend);
    PutWordAt(fis, NUM_BYTES_WRITE_POSITION, v.numBytesWrite);
  }

  method WriteOpcodes(fis: array<byte>, v: TableValues)
    requires fis.Length >= Needed(v)
    modifies fis
    ensures fis[..] == PutOpcodes(old(fis[..]), v)
  {
    NeededBounds(v);
    PutLowAt(fis, DEEP_SLEEP_OPCODE_POSITION, v.deepSleepOpcode);
    PutLowAt(fis, DEEP_SLEEP_WAKEUP_OPCODE_POSITION, v.deepSleepWakeupOpcode);
    PutLowAt(fis, DEEP_SLEEP_WAKEUP_TIMEOUT_POSITION, v.deepSleepWakeupTimeout);
    PutLowAt(fis, MAX_SPEED_POSITION, v.maxSpeed);
  }

  /** edit_table2 leaves every other byte of the table as it was. */
  lemma ApplyValuesFrame(s: seq<byte>, v: TableValues)
    requires |s| >= Needed(v)
    ensures forall j :: 0 <= j < |s| && !Written(v, j) ==> ApplyValues(s, v)[j] == s[j]
  {
    var h := PutHead(s, v);
    var n := PutNumbers(h, v);
    assert ApplyValues(s, v) == PutOpcodes(n, v);
  }

  /** What edit_table2 leaves in the supply and capability bytes and the
      sector geometry. */
  lemma ApplyValuesHeadStores(s: seq<byte>, v: TableValues)
    requires |s| >= Needed(v)
    ensures var r := ApplyValues(s, v);
            (v.supply.Some? ==> r[SUPPLY_TYPE_POSITION] == SupplyByte(s[SUPPLY_TYPE_POSITION], v.supply.value))
            && (v.cap.Some? ==> r[CAPABILITY_POSITION] == CapByte(s[CAPABILITY_POSITION], v.cap.value))
            && (v.sectorSize.Some? ==> LE32At(r, SECTOR_SIZE_POSITION) == v.sectorSize.value)
            && (v.sectorCount.Some? ==> LE32At(r, SECTOR_COUNT_POSITION) == v.sectorCount.value)
  {
    var h := PutHead(s, v);
    var n := PutNumbers(h, v);
    var r := PutOpcodes(n, v);
    assert ApplyValues(s, v) == r;
    if v.supply.Some? {
      assert r[SUPPLY_TYPE_POSITION] == n[SUPPLY_TYPE_POSITION] == h[SUPPLY_TYPE_POSITION];
    }
    if v.cap.Some? {
      assert r[CAPABILITY_POSITION] == n[CAPABILITY_POSITION] == h[CAPABILITY_POSITION];
    }
    assert forall j :: SECTOR_SIZE_POSITION <= j < SECTOR_COUNT_POSITION + 4 && j < |s| ==> r[j] == h[j];
  }

  /** What edit_table2 leaves in the other 32-bit fields and in the
      single-byte fields. */
  lemma ApplyValuesTailStores(s: seq<byte>, v: TableValues)
    requires |s| >= Needed(v)
    ensures var r := ApplyValues(s, v);
            (v.hsp.Some? ==> LE32At(r, HSP_POSITION) == v.hsp.value)
            && (v.cfg.Some? ==> LE32At(r, CFG_POSITION) == v.cfg.value)
            && (v.minEraseSuspend.Some? ==> LE32At(r, MIN_ERASE_SUSPEND_POSITION) == v.minEraseSuspend.value)
            && (v.numBytesWrite.Some? ==> LE32At(r, NUM_BYTES_WRITE_POSITION) == v.numBytesWrite.value)
            && (v.deepSleepOpcode.Some? ==> r[DEEP_SLEEP_OPCODE_POSITION] == v.deepSleepOpcode.value % 0x100)
            && (v.deepSleepWakeupOpcode.Some? ==> r[DEEP_SLEEP_WAKEUP_OPCODE_POSITION] == v.deepSleepWakeupOpcode.value % 0x100)
            && (v.deepSleepWakeupTimeout.Some? ==> r[DEEP_SLEEP_WAKEUP_TIMEOUT_POSITION] == v.deepSleepWakeupTimeout.value % 0x100)
            && (v.maxSpeed.Some? ==> r[MAX_SPEED_POSITION] == v.maxSpeed.value % 0x100)
  {
    var h := PutHead(s, v);
    var n := PutNumbers(h, v);
    var r := PutOpcodes(n, v);
    assert ApplyValues(s, v) == r;
    assert forall j :: HSP_POSITION <= j < NUM_BYTES_WRITE_POSITION + 4 && j < |s| ==> r[j] == n[j];
  }

  /** Bytes 4 and 5 hold 3 and 0: a version-3 FIS. */
  predicate IsVersion3(fis: seq<byte>)
    requires |fis| > MINOR_REV_POSITION
  {
    fis[MAJOR_REV_POSITION] == 3 && fis[MINOR_REV_POSITION] == 0
  }

  /** mergefis_get_sector_count. */
  function SectorCount(fis: seq<byte>): u32
    requires |fis| >= SECTOR_COUNT_POSITION + 4
  {
    if IsVersion3(fis) then LE16At(fis, SECTOR_COUNT_POSITION_VER3) else LE32At(fis, SECTOR_COUNT_POSITION)
  }

  /** mergefis_get_sector_size. */
  function SectorSize(fis: seq<byte>): u32
    requires |fis| >= SECTOR_SIZE_POSITION + 4
  {
    if IsVersion3(fis) then SECTOR_SIZE_VER3 else LE32At(fis, SECTOR_SIZE_POSITION)
  }

  /** The getters read back what edit_table2 wrote on a table that is not
      version 3; the version bytes themselves are never written, and a
      field without a setting reads as before. */
  lemma SectorReadBack(s: seq<byte>, c: Elem)
    requires EditFits(|s|, c) && |s| >= SECTOR_COUNT_POSITION + 4
    ensures var r := EditedTable(s, c); var f := FieldsOf(c);
            (IsVersion3(r) <==> IsVersion3(s))
            && (!IsVersion3(s) && f.sectorSize.Some? ==> SectorSize(r) == U4OrZero(f.sectorSize.value))
            && (!IsVersion3(s) && f.sectorCount.Some? ==> SectorCount(r) == U4OrZero(f.sectorCount.value))
            && (f.sectorSize.None? ==> SectorSize(r) == SectorSize(s))
            && (f.sectorCount.None? && (f.sectorSize.None? || !IsVersion3(s)) ==> SectorCount(r) == SectorCount(s))
  {
    var f := FieldsOf(c);
    var v := ValuesOf(f);
    assert v.sectorSize == NumberOf(f.sectorSize) && v.sectorCount == NumberOf(f.sectorCount);
    ValuesReadBack(s, v);
  }

  lemma ValuesReadBack(s: seq<byte>, v: TableValues)
    requires |s| >= Needed(v) && |s| >= SECTOR_COUNT_POSITION + 4
    ensures var r := ApplyValues(s, v);
            (IsVersion3(r) <==> IsVersion3(s))
            && (!IsVersion3(s) && v.sectorSize.Some? ==> SectorSize(r) == v.sectorSize.value)
            && (!IsVersion3(s) && v.sectorCount.Some? ==> SectorCount(r) == v.sectorCount.value)
            && (v.sectorSize.None? ==> SectorSize(r) == SectorSize(s))
            && (v.sectorCount.None? && (v.sectorSize.None? || !IsVersion3(s)) ==> SectorCount(r) == SectorCount(s))
  {
    ApplyValuesFrame(s, v);
    ApplyValuesHeadStores(s, v);
    var r := ApplyValues(s, v);
    assert !Written(v, MAJOR_REV_POSITION) && !Written(v, MINOR_REV_POSITION);
    if v.sectorSize.None? {
      assert !Written(v, 8) && !Written(v, 9) && !Written(v, 10) && !Written(v, 11);
      assert r[8] == s[8] && r[9] == s[9] && r[10] == s[10] && r[11] == s[11];
    }
    if v.sectorCount.None? {
      assert !Written(v, 12) && !Written(v, 13) && !Written(v, 14) && !Written(v, 15);
      assert r[12] == s[12] && r[13] == s[13] && r[14] == s[14] && r[15] == s[15];
    }
  }

  // ---------------------------------------------------------------------
  // Re-checksumming the image (UpdateImageCrc, mergefis_merge)
  // ---------------------------------------------------------------------

  /** The image after UpdateImageCrc: the word-checksum pair over the
      bytes from 4 up to n - 8 (whole words only) stored at n - 8. */
  function ImageWithCrc(s: seq<byte>, n: nat): (r: seq<byte>)
    requires 12 <= n <= |s|
    ensures |r| == |s|
  {
    var p := U4Sums(s[4..], (n - 12) / 4);
    Patch(s, n - 8, EncodeLE32(p.0) + EncodeLE32(p.1))
  }

  /** Stores the checksum pair of the image and checks it again. */
  method UpdateImageCrc(image: array<byte>, imageSize: nat) returns (ok: bool)
    requires 12 <= imageSize <= image.Length
    modifies image
    ensures image[..] == ImageWithCrc(old(image[..]), imageSize)
    ensures ok == ChecksumU4Holds(image[..][4..], imageSize - 12)
  {
    StoreImageCrc(image, imageSize);
    ok := CheckUbxChecksumU4(image[4..], imageSize - 12);
    assert image[4..] == image[..][4..];
  }

  /** The store half of UpdateImageCrc: the pair of word checksums over
      [4, imageSize - 8) written little-endian at imageSize - 8. */
  method StoreImageCrc(image: array<byte>, imageSize: nat)
    requires 12 <= imageSize <= image.Length
    modifies image
    ensures image[..] == ImageWithCrc(old(image[..]), imageSize)
  {
    var crcpos := imageSize - 8;
    var crcrangesize := crcpos - 4;
    ghost var s := image[..];
    var crcA, crcB := GetUbxChecksumU4(image[4..], crcrangesize);
    assert (crcA, crcB) == U4Sums(s[4..], (imageSize - 12) / 4) by {
      assert s[4..] == image[4..] && crcrangesize == imageSize - 12;
    }
    ghost var w := EncodeLE32(crcA) + EncodeLE32(crcB);
    assert ImageWithCrc(s, imageSize) == Patch(s, crcpos, w);
    StoreLE32(image, crcpos, crcA);
    StoreLE32(image, crcpos + 4, crcB);
    PatchAdjacent(s, crcpos, EncodeLE32(crcA), EncodeLE32(crcB));
  }

  /** On a word-aligned image size the stored pair always checks. */
  lemma AlignedImageCrcHolds(s: seq<byte>, n: nat)
    requires 12 <= n <= |s| && n % 4 == 0
    ensures ChecksumU4Holds(ImageWithCrc(s, n)[4..], n - 12)
  {
    var d := s[4..];
    var k := (n - 12) / 4;
    assert 4 * k == n - 12;
    var p := U4Sums(d, k);
    var w := EncodeLE32(p.0) + EncodeLE32(p.1);
    StoredChecksumVerifies(d, n - 12, s[n..]);
    var r := ImageWithCrc(s, n);
    assert r == s[..n - 8] + w + s[n..];
    assert r[4..] == d[..4 * k] + EncodeLE32(p.0) + EncodeLE32(p.1) + s[n..];
  }

  /** The merged image: the FIS copied over bytes 0x40 to 0x1000, then
      the checksum pair updated. */
  function MergedImage(s: seq<byte>, n: nat, fis: seq<byte>): (r: seq<byte>)
    requires FIS_IMAGE_END <= |s| && FIS_IMAGE_END - FIS_IMAGE_OFFSET <= |fis| && 12 <= n <= |s|
    ensures |r| == |s|
  {
    ImageWithCrc(Patch(s, FIS_IMAGE_OFFSET, fis[..FIS_IMAGE_END - FIS_IMAGE_OFFSET]), n)
  }

  /** Merges the FIS into the image and re-checksums it. */
  method MergeFisMerge(data: array<byte>, imageSize: nat, fis: seq<byte>) returns (r: MergeFisResult)
    requires FIS_IMAGE_END <= data.Length && FIS_IMAGE_END - FIS_IMAGE_OFFSET <= |fis|
    requires 12 <= imageSize <= data.Length
    modifies data
    ensures data[..] == MergedImage(old(data[..]), imageSize, fis)
    ensures r == if ChecksumU4Holds(data[..][4..], imageSize - 12) then Ok else CrcFailure
  {
    forall i | 0 <= i < FIS_IMAGE_END - FIS_IMAGE_OFFSET {
      data[FIS_IMAGE_OFFSET + i] := fis[i];
    }
    ghost var w := fis[..FIS_IMAGE_END - FIS_IMAGE_OFFSET];
    ghost var p := Patch(old(data[..]), FIS_IMAGE_OFFSET, w);
    assert forall k :: 0 <= k < data.Length ==> data[k] == p[k] by {
      forall k | 0 <= k < data.Length
        ensures data[k] == p[k]
      {
        if FIS_IMAGE_OFFSET <= k < FIS_IMAGE_END {
          assert p[k] == p[FIS_IMAGE_OFFSET..FIS_IMAGE_END][k - FIS_IMAGE_OFFSET];
        }
      }
    }
    assert data[..] == p;
    var ok := UpdateImageCrc(data, imageSize);
    r := if ok then Ok else CrcFailure;
  }

  /** mergefis_merge succeeds whenever the image size is a multiple of 4. */
  lemma MergeAlignedOk(s: seq<byte>, n: nat, fis: seq<byte>)
    requires FIS_IMAGE_END <= |s| && FIS_IMAGE_END - FIS_IMAGE_OFFSET <= |fis| && 12 <= n <= |s|
    requires n % 4 == 0
    ensures ChecksumU4Holds(MergedImage(s, n, fis)[4..], n - 12)
  {
    AlignedImageCrcHolds(Patch(s, FIS_IMAGE_OFFSET, fis[..FIS_IMAGE_END - FIS_IMAGE_OFFSET]), n);
  }

  /** The merged image holds the FIS at 0x40 when the checksum lies past
      it, and the rest of the image outside the checksum as before. */
  lemma MergedImageContents(s: seq<byte>, n: nat, fis: seq<byte>)
    requires FIS_IMAGE_END <= |s| && FIS_IMAGE_END - FIS_IMAGE_OFFSET <= |fis| && 12 <= n <= |s|
    ensures var r := MergedImage(s, n, fis);
            (n >= FIS_IMAGE_END + 8 ==> r[FIS_IMAGE_OFFSET..FIS_IMAGE_END] == fis[..FIS_IMAGE_END - FIS_IMAGE_OFFSET])
            && forall k :: 0 <= k < |s| && !(FIS_IMAGE_OFFSET <= k < FIS_IMAGE_END) && !(n - 8 <= k < n) ==> r[k] == s[k]
  {
    var w := fis[..FIS_IMAGE_END - FIS_IMAGE_OFFSET];
    var p := Patch(s, FIS_IMAGE_OFFSET, w);
    var r := MergedImage(s, n, fis);
    if n >= FIS_IMAGE_END + 8 {
      assert forall k :: FIS_IMAGE_OFFSET <= k < FIS_IMAGE_END ==> r[k] == p[k];
      assert r[FIS_IMAGE_OFFSET..FIS_IMAGE_END] == p[FIS_IMAGE_OFFSET..FIS_IMAGE_END];
    }
  }
}
