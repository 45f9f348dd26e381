// Firmware image checks (image.c): ValidateImage, which tells the receiver
// generation an image was built for from its header magic or its footer
// and accepts it only when its pointers and its word checksum are sound,
// and the 0xFF padding that OpenAndBufferFile appends to a file. Opening
// and reading the file, and the log messages, are not part of this model.
module Image {
  import opened Bytes
  import opened CLib
  import opened Checksum
  import opened MergeFis

  /** sizeof(FWHEADER_t): twelve U4 words. */
  const HEADER_SIZE: nat := 48

  /** The header words used here, by their index in FWHEADER_t. */
  const WORD_MAGIC: nat := 0
  const WORD_BASE: nat := 3
  const WORD_START: nat := 4
  const WORD_END: nat := 5

  /** Flash base address on u-blox 5/6. */
  const EXT2_BASE: nat := 0x0080_0000

  /** The seed of the footer CRC. */
  const FOOTER_SEED: bv32 := 0x0F5D_4C69

  /** A U4 built from four characters, the first in the low byte. */
  function MagicWord(c0: char, c1: char, c2: char, c3: char): u32
    requires c0 < 0x80 as char && c1 < 0x80 as char && c2 < 0x80 as char && c3 < 0x80 as char
  {
    c0 as int + 0x100 * c1 as int + 0x1_0000 * c2 as int + 0x100_0000 * c3 as int
  }

  const MAGIC_G50: u32 := MagicWord('U', 'B', 'X', '5')
  const MAGIC_G51: u32 := MagicWord('U', 'B', '5', '1')
  const MAGIC_G70: u32 := MagicWord('U', 'B', 'X', '7')
  const MAGIC_G80: u32 := MagicWord('U', 'B', 'X', '8')

  /** The bytes of the footer magic "UBFL". */
  const FOOTER_MAGIC: seq<byte> := ['U' as int, 'B' as int, 'F' as int, 'L' as int]

  /** What ValidateImage reads out of a footer (FWFOOTERINFO_t). */
  datatype FooterInfo = FooterInfo(numberOfImages: u32, imagesSize: seq<u32>, cfgSize: u32)

  /** ValidateImage's result and the footer information after it. */
  datatype Validation = Validation(generation: u32, footer: FooterInfo)

  // ---------------------------------------------------------------------
  // The header
  // ---------------------------------------------------------------------

  function HeaderWord(image: seq<byte>, k: nat): u32
    requires 4 * k + 4 <= |image|
  {
    LE32At(image, 4 * k)
  }

  /** The generation the header magic names; UB51 stands for u-blox 6. */
  function MagicGeneration(magic: u32): (g: u32)
    ensures g in {0, 50, 60, 70, 80}
    ensures g == 0 <==> magic !in {MAGIC_G50, MAGIC_G51, MAGIC_G70, MAGIC_G80}
  {
    if magic == MAGIC_G50 then 50
    else if magic == MAGIC_G51 then 60
    else if magic == MAGIC_G70 then 70
    else if magic == MAGIC_G80 then 80
    else 0
  }

  /** x & 0xFF800000: the low 23 bits cleared. */
  function Top9(x: u32): u32
  {
    x / 0x80_0000 * 0x80_0000
  }

  /** (x & 0xFF800000) == EXT2_BASE: x lies in the 8 MiB from EXT2_BASE on. */
  predicate InExt2(x: u32)
  {
    Top9(x) == EXT2_BASE
  }

  /** The three image pointers are ordered and all lie in the flash. */
  predicate PointersOk(image: seq<byte>)
    requires |image| >= HEADER_SIZE
  {
    var base, start, end := HeaderWord(image, WORD_BASE), HeaderWord(image, WORD_START), HeaderWord(image, WORD_END);
    !(end < start || start < base || !InExt2(end) || !InExt2(base) || !InExt2(start))
  }

  /** crcrange: from byte 4 up to the even part of pEnd, taken relative to
      pBase, in 32-bit unsigned arithmetic. */
  function CrcRange(image: seq<byte>): u32
    requires |image| >= HEADER_SIZE
  {
    var end := HeaderWord(image, WORD_END);
    var crcpos := ToU32(end as int - end % 2 - HeaderWord(image, WORD_BASE));
    ToU32(crcpos as int - 4)
  }

  // ---------------------------------------------------------------------
  // The footer
  // ---------------------------------------------------------------------

  /** The footer magic ends i bytes before the end of the image. */
  predicate MagicAt(image: seq<byte>, i: nat)
    requires i + 4 <= |image|
  {
    var p := |image| - 4 - i;
    image[p] == FOOTER_MAGIC[0] && image[p + 1] == FOOTER_MAGIC[1]
    && image[p + 2] == FOOTER_MAGIC[2] && image[p + 3] == FOOTER_MAGIC[3]
  }

  /** Where the footer magic is found when the search starts i bytes
      before the end: the first hit going towards the start, at most three
      bytes of padding away from the end. */
  function FindFooter(image: seq<byte>, i: nat): (r: Option<nat>)
    requires |image| >= HEADER_SIZE && i <= 4
    ensures r.Some? ==> |image| - 7 <= r.value <= |image| - 4
    decreases 4 - i
  {
    if i == 4 then None
    else if MagicAt(image, i) then Some(|image| - 4 - i)
    else FindFooter(image, i + 1)
  }

  /** The number of image sizes, from the word 12 bytes before the magic. */
  function FooterCount(image: seq<byte>, p: nat): u32
    requires 12 <= p <= |image| - 4
  {
    LE32At(image, p - 12)
  }

  /** Version word 0, at most two image sizes, and the CRC word in front of
      the sizes matching the CRC-32 of the sizes up to the magic. */
  predicate FooterValid(image: seq<byte>, p: nat)
    requires 24 <= p <= |image| - 4
  {
    var n := FooterCount(image, p);
    LE32At(image, p - 4) == 0 && n <= 2
    && Crc32(FOOTER_SEED, image[p - 12 - 4 * n..p + 4]) as int == LE32At(image, p - 16 - 4 * n)
  }

  /** The footer information once a valid footer is read: the sizes of the
      images it lists (the other slots unchanged) and the configuration size. */
  function FooterFields(image: seq<byte>, p: nat, footer: FooterInfo): (f: FooterInfo)
    requires 24 <= p <= |image| - 4 && |footer.imagesSize| == 2 && FooterCount(image, p) <= 2
    ensures |f.imagesSize| == 2
  {
    var n := FooterCount(image, p);
    FooterInfo(n,
      seq(2, j requires 0 <= j < 2 => if j < n then LE32At(image, p - 12 - 4 * n + 4 * j) else footer.imagesSize[j]),
      LE32At(image, p - 8))
  }

  /** Whether the footer, if any, lets the header checks go on. */
  predicate FooterAllows(image: seq<byte>)
    requires |image| >= HEADER_SIZE
  {
    match FindFooter(image, 0)
    case None => true
    case Some(p) => FooterValid(image, p)
  }

  // ---------------------------------------------------------------------
  // ValidateImage
  // ---------------------------------------------------------------------

  /** When ValidateImage gets as far as the word checksum, the range it
      checks lies within the file. */
  predicate ValidateDefined(image: seq<byte>)
  {
    (|image| >= HEADER_SIZE && MagicGeneration(HeaderWord(image, WORD_MAGIC)) != 0 && FooterAllows(image))
      ==> SumInRange(image)
  }

  /** Sound pointers give a checksum range that lies within the file. */
  predicate SumInRange(image: seq<byte>)
    requires |image| >= HEADER_SIZE
  {
    PointersOk(image) ==> CrcRange(image) / 4 * 4 + 8 <= |image| - 4
  }

  /** The pointer and checksum checks for an image whose header names
      generation gen. */
  function Checked(image: seq<byte>, gen: u32, f: FooterInfo): Validation
    requires |image| >= HEADER_SIZE && SumInRange(image)
  {
    if !PointersOk(image) then Validation(0, f)
    else Validation(if ChecksumU4Holds(image[4..], CrcRange(image)) then gen else 0, f)
  }

  /** ValidateImage(image, |image|, footer). */
  function Validate(image: seq<byte>, footer: FooterInfo): Validation
    requires ValidateDefined(image) && |footer.imagesSize| == 2
  {
    if |image| < HEADER_SIZE then Validation(0, footer)
    else
      var gen := MagicGeneration(HeaderWord(image, WORD_MAGIC));
      match FindFooter(image, 0)
      case Some(p) =>
        var counted := footer.(numberOfImages := FooterCount(image, p));
        if !FooterValid(image, p) then Validation(0, counted)
        else
          var f := FooterFields(image, p, counted);
          if gen == 0 then Validation(91, f) else Checked(image, gen, f)
      case None =>
        if gen == 0 then Validation(0, footer) else Checked(image, gen, footer)
  }

  /** Looks for the footer magic at the end of the image, allowing for up
      to three bytes of padding. */
  method SearchFooter(image: seq<byte>) returns (found: Option<nat>)
    requires |image| >= HEADER_SIZE
    ensures found == FindFooter(image, 0)
  {
    found := None;
    var i := 0;
    while i < 4
      invariant 0 <= i <= 4
      invariant FindFooter(image, 0) == FindFooter(image, i)
    {
      var p := |image| - 4 - i;
      if image[p] == 'U' as int && image[p + 1] == 'B' as int && image[p + 2] == 'F' as int && image[p + 3] == 'L' as int {
        found := Some(p);
        return;
      }
      i := i + 1;
    }
  }

  /** Reads the image sizes and the configuration size of a valid footer. */
  method ReadFooter(image: seq<byte>, p: nat, footer: FooterInfo) returns (f: FooterInfo)
    requires 24 <= p <= |image| - 4 && |footer.imagesSize| == 2 && FooterCount(image, p) <= 2
    requires footer.numberOfImages == FooterCount(image, p)
    ensures f == FooterFields(image, p, footer)
  {
    var n := footer.numberOfImages;
    var footerSize := 5 * 4 + 4 * n;
    var sizes := footer.imagesSize;
    var i := 0;
    while i < n
      invariant 0 <= i <= n && |sizes| == 2
      invariant forall j :: 0 <= j < 2 ==>
                  sizes[j] == if j < i then LE32At(image, p - 12 - 4 * n + 4 * j) else footer.imagesSize[j]
    {
      sizes := sizes[i := LE32At(image, p - (footerSize - 4 * (i + 2)))];
      i := i + 1;
    }
    f := FooterInfo(n, sizes, LE32At(image, p - 2 * 4));
  }

  /** The footer check: version, count and CRC, evaluated in that order. */
  method CheckFooter(image: seq<byte>, p: nat) returns (ok: bool)
    requires 24 <= p <= |image| - 4
    ensures ok == FooterValid(image, p)
  {
    var version := LE32At(image, p - 4);
    var n := FooterCount(image, p);
    if version != 0 || n > 2 {
      assert !FooterValid(image, p);
      return false;
    }
    var footerSize := 5 * 4 + 4 * n;
    var crc := LE32At(image, p - (footerSize - 4));
    var covered := image[p - (footerSize - 2 * 4)..p - (footerSize - 2 * 4) + (footerSize - 4)];
    assert covered == image[p - 12 - 4 * n..p + 4];
    var c := LibCrcCrc32(FOOTER_SEED, covered);
    assert c == Crc32(FOOTER_SEED, image[p - 12 - 4 * n..p + 4]);
    assert crc == LE32At(image, p - 16 - 4 * n);
    ok := c as int == crc;
  }

  /** The pointer and checksum checks, once a generation is known. */
  method CheckPointersAndSum(image: seq<byte>, gen: u32, f: FooterInfo) returns (v: Validation)
    requires |image| >= HEADER_SIZE && SumInRange(image)
    ensures v == Checked(image, gen, f)
  {
    var base := LE32At(image, 4 * WORD_BASE);
    var start := LE32At(image, 4 * WORD_START);
    var end := LE32At(image, 4 * WORD_END);
    if end < start || start < base || Top9(end) != EXT2_BASE || Top9(base) != EXT2_BASE || Top9(start) != EXT2_BASE {
      return Validation(0, f);
    }
    var crcpos := ToU32(end as int - end % 2 - base);
    var crcrange := ToU32(crcpos as int - 4);
    var crcOk := CheckUbxChecksumU4(image[4..], crcrange);
    v := Validation(if crcOk then gen else 0, f);
  }

  /** ValidateImage: the generation an image is for, or 0 when it is not
      a valid image, together with the footer information it reads. */
  method ValidateImage(image: seq<byte>, footer: FooterInfo) returns (generation: u32, footerOut: FooterInfo)
    requires ValidateDefined(image) && |footer.imagesSize| == 2
    ensures Validation(generation, footerOut) == Validate(image, footer)
  {
    footerOut := footer;
    if |image| < HEADER_SIZE {
      return 0, footerOut;
    }
    var magic := LE32At(image, 0);
    var gen := if magic == MAGIC_G50 then 50
               else if magic == MAGIC_G51 then 60
               else if magic == MAGIC_G70 then 70
               else if magic == MAGIC_G80 then 80
               else 0;
    var found := SearchFooter(image);
    if found.Some? {
      var p := found.value;
      footerOut := footerOut.(numberOfImages := FooterCount(image, p));
      var ok := CheckFooter(image, p);
      if !ok {
        return 0, footerOut;
      }
      footerOut := ReadFooter(image, p, footerOut);
      if gen == 0 {
        return 91, footerOut;
      }
    }
    if gen == 0 {
      return 0, footerOut;
    }
    var v := CheckPointersAndSum(image, gen, footerOut);
    generation, footerOut := v.generation, v.footer;
  }

  // ---------------------------------------------------------------------
  // Properties of ValidateImage
  // ---------------------------------------------------------------------

  /** A file shorter than the header is rejected and the footer left alone. */
  lemma ShortImageRejected(image: seq<byte>, footer: FooterInfo)
    requires |image| < HEADER_SIZE && |footer.imagesSize| == 2
    ensures Validate(image, footer) == Validation(0, footer)
  {
  }

  /** The four header magics spell UBX5, UB51, UBX7 and UBX8 and name
      u-blox 5, 6, 7 and 8. */
  lemma HeaderMagics()
    ensures MagicGeneration(LE32At(['U' as int, 'B' as int, 'X' as int, '5' as int], 0)) == 50
    ensures MagicGeneration(LE32At(['U' as int, 'B' as int, '5' as int, '1' as int], 0)) == 60
    ensures MagicGeneration(LE32At(['U' as int, 'B' as int, 'X' as int, '7' as int], 0)) == 70
    ensures MagicGeneration(LE32At(['U' as int, 'B' as int, 'X' as int, '8' as int], 0)) == 80
  {
  }

  /** The footer search returns the first hit, i bytes before the end for
      the least i below 4 at which the magic lies. */
  lemma {:induction false} FindFooterFirst(image: seq<byte>, i: nat)
    requires |image| >= HEADER_SIZE && i <= 4
    ensures FindFooter(image, i).None? <==> forall k :: i <= k < 4 ==> !MagicAt(image, k)
    ensures FindFooter(image, i).Some? ==>
              exists k :: i <= k < 4 && FindFooter(image, i).value == |image| - 4 - k && MagicAt(image, k)
                          && forall m :: i <= m < k ==> !MagicAt(image, m)
    decreases 4 - i
  {
    if i < 4 && !MagicAt(image, i) {
      FindFooterFirst(image, i + 1);
    }
  }

  /** Every result is 0, a header generation, or 91 for a u-blox 9 image. */
  lemma ValidateResults(image: seq<byte>, footer: FooterInfo)
    requires ValidateDefined(image) && |footer.imagesSize| == 2
    ensures Validate(image, footer).generation in {0, 50, 60, 70, 80, 91}
  {
  }

  /** A footer that is found but fails its checks rejects the image, with
      only the image count recorded. */
  lemma InvalidFooterRejects(image: seq<byte>, footer: FooterInfo)
    requires ValidateDefined(image) && |footer.imagesSize| == 2 && |image| >= HEADER_SIZE
    requires FindFooter(image, 0).Some? && !FooterValid(image, FindFooter(image, 0).value)
    ensures Validate(image, footer)
            == Validation(0, footer.(numberOfImages := FooterCount(image, FindFooter(image, 0).value)))
  {
  }

  /** 91 exactly for an image without header magic whose footer is found
      and valid. */
  lemma NinetyOneIffFooterOnly(image: seq<byte>, footer: FooterInfo)
    requires ValidateDefined(image) && |footer.imagesSize| == 2
    ensures Validate(image, footer).generation == 91 <==>
              |image| >= HEADER_SIZE && MagicGeneration(HeaderWord(image, WORD_MAGIC)) == 0
              && FindFooter(image, 0).Some? && FooterValid(image, FindFooter(image, 0).value)
  {
  }

  /** An image with header magic is accepted with that generation exactly
      when its footer (if any) is valid, its pointers are sound and the
      word checksum over bytes 4 to crcpos holds. */
  lemma HeaderImageAccepted(image: seq<byte>, footer: FooterInfo)
    requires ValidateDefined(image) && |footer.imagesSize| == 2 && |image| >= HEADER_SIZE
    requires MagicGeneration(HeaderWord(image, WORD_MAGIC)) != 0
    ensures Validate(image, footer).generation != 0 <==>
              FooterAllows(image) && PointersOk(image) && ChecksumU4Holds(image[4..], CrcRange(image))
    ensures Validate(image, footer).generation != 0 ==>
              Validate(image, footer).generation == MagicGeneration(HeaderWord(image, WORD_MAGIC))
  {
  }

  // ---------------------------------------------------------------------
  // The footer format
  // ---------------------------------------------------------------------

  /** Words laid out little-endian one after the other. */
  function Words(ws: seq<u32>): (r: seq<byte>)
    ensures |r| == 4 * |ws|
  {
    if |ws| == 0 then [] else Words(ws[..|ws| - 1]) + EncodeLE32(ws[|ws| - 1])
  }

  lemma {:induction false} WordsAt(ws: seq<u32>, j: nat)
    requires j < |ws|
    ensures Words(ws)[4 * j..4 * j + 4] == EncodeLE32(ws[j])
  {
    var init := ws[..|ws| - 1];
    var w, v := Words(ws), Words(init);
    assert w == v + EncodeLE32(ws[|ws| - 1]);
    if j < |ws| - 1 {
      WordsAt(init, j);
      assert init[j] == ws[j];
      assert w[..|v|] == v;
      SubSlice(w, 0, v, 4 * j, 4 * j + 4);
    } else {
      assert w[|v|..] == EncodeLE32(ws[j]);
    }
  }

  /** The part of a footer that its CRC covers: the image sizes, their
      count, the configuration size, version 0 and the magic. */
  function FooterBody(sizes: seq<u32>, cfg: u32): (r: seq<byte>)
    requires |sizes| <= 2
    ensures |r| == 16 + 4 * |sizes|
  {
    Words(sizes) + EncodeLE32(|sizes|) + EncodeLE32(cfg) + EncodeLE32(0) + FOOTER_MAGIC
  }

  /** A footer: the CRC word in front of its body. */
  function Footer(sizes: seq<u32>, cfg: u32): (r: seq<byte>)
    requires |sizes| <= 2
    ensures |r| == 20 + 4 * |sizes|
  {
    EncodeLE32(Crc32(FOOTER_SEED, FooterBody(sizes, cfg)) as int) + FooterBody(sizes, cfg)
  }

  /** Two image-size slots after the sizes listed are read into them. */
  function SizesRead(sizes: seq<u32>, slots: seq<u32>): (r: seq<u32>)
    requires |sizes| <= 2 && |slots| == 2
  {
    [if 0 < |sizes| then sizes[0] else slots[0], if 1 < |sizes| then sizes[1] else slots[1]]
  }

  /** A footer whose magic lies at p ends the image, but for bytes of 0xFF
      after it: its body runs up to p + 4 and its CRC word, in front of the
      body, holds the CRC of the body. */
  predicate FooterEndsAt(image: seq<byte>, p: nat, sizes: seq<u32>, cfg: u32)
    requires |sizes| <= 2
  {
    16 + 4 * |sizes| <= p && p + 4 <= |image|
    && image[p - 12 - 4 * |sizes|..p + 4] == FooterBody(sizes, cfg)
    && LE32At(image, p - 16 - 4 * |sizes|) == Crc32(FOOTER_SEED, FooterBody(sizes, cfg)) as int
    && forall k :: p + 4 <= k < |image| ==> image[k] == 0xFF
  }

  /** Content, a footer and pad bytes of 0xFF: the footer ends the image
      with its magic 16 + 4 * |sizes| bytes after the content. */
  lemma FooterLayout(content: seq<byte>, sizes: seq<u32>, cfg: u32, pad: nat)
    requires |sizes| <= 2
    ensures FooterEndsAt(content + Footer(sizes, cfg) + Pad(pad), |content| + 16 + 4 * |sizes|, sizes, cfg)
  {
    var body := FooterBody(sizes, cfg);
    var crc := Crc32(FOOTER_SEED, body) as int;
    assert Footer(sizes, cfg) == EncodeLE32(crc) + body;
    FramedLayout(content + Footer(sizes, cfg) + Pad(pad), content, crc, body, pad, |sizes|, |content| + 16 + 4 * |sizes|);
  }

  /** Content, a CRC word, a body of 16 + 4 * n bytes and pad bytes of 0xFF:
      the body ends at p + 4 and the CRC word lies in front of it. */
  lemma FramedLayout(image: seq<byte>, content: seq<byte>, crc: u32, body: seq<byte>, pad: nat, n: nat, p: nat)
    requires image == content + (EncodeLE32(crc) + body) + Pad(pad)
    requires |body| == 16 + 4 * n && p == |content| + 16 + 4 * n
    ensures 16 + 4 * n <= p && p + 4 <= |image|
    ensures image[p - 12 - 4 * n..p + 4] == body
    ensures LE32At(image, p - 16 - 4 * n) == crc
    ensures forall k :: p + 4 <= k < |image| ==> image[k] == 0xFF
  {
    var framed := EncodeLE32(crc) + body;
    PartsAt(image, content, framed, Pad(pad));
    SubSlice(image, |content|, framed, 4, |framed|);
    assert framed[4..] == body;
    SubSlice(image, |content|, framed, 0, 4);
    LE32Slice(image, |content|, crc);
  }

  /** The parts of a + b + c lie where their lengths put them. */
  lemma PartsAt(s: seq<byte>, a: seq<byte>, b: seq<byte>, c: seq<byte>)
    requires s == a + b + c
    ensures s[|a|..|a| + |b|] == b
    ensures forall k :: |a| + |b| <= k < |s| ==> s[k] == c[k - |a| - |b|]
  {
  }

  /** A footer ending the image at p with at most three bytes after it:
      the search finds its magic at p, its check passes and it lists the
      sizes. */
  lemma FooterAt(image: seq<byte>, p: nat, sizes: seq<u32>, cfg: u32)
    requires |sizes| <= 2 && |image| >= HEADER_SIZE
    requires FooterEndsAt(image, p, sizes, cfg) && |image| <= p + 7
    ensures FindFooter(image, 0) == Some(p)
    ensures FooterValid(image, p) && FooterCount(image, p) == |sizes|
  {
    FooterAtFound(image, p, sizes, cfg);
    FooterAtValid(image, p, sizes, cfg);
  }

  /** The search half of FooterAt. */
  lemma FooterAtFound(image: seq<byte>, p: nat, sizes: seq<u32>, cfg: u32)
    requires |sizes| <= 2 && |image| >= HEADER_SIZE
    requires FooterEndsAt(image, p, sizes, cfg) && |image| <= p + 7
    ensures FindFooter(image, 0) == Some(p)
  {
    FooterWordsAt(image, p, sizes, cfg);
    FooterFound(image, p);
  }

  /** The check half of FooterAt. */
  lemma FooterAtValid(image: seq<byte>, p: nat, sizes: seq<u32>, cfg: u32)
    requires |sizes| <= 2 && |image| >= HEADER_SIZE
    requires FooterEndsAt(image, p, sizes, cfg) && |image| <= p + 7
    ensures FooterValid(image, p) && FooterCount(image, p) == |sizes|
  {
    var body := FooterBody(sizes, cfg);
    FooterWordsAt(image, p, sizes, cfg);
    FooterCrcHolds(image, p, sizes, body);
  }

  /** The words of a footer ending the image at p read back into the
      footer information. */
  lemma FooterReadAt(image: seq<byte>, p: nat, sizes: seq<u32>, cfg: u32, footer: FooterInfo)
    requires |sizes| <= 2 && |footer.imagesSize| == 2 && 24 <= p
    requires FooterEndsAt(image, p, sizes, cfg)
    ensures FooterCount(image, p) == |sizes|
    ensures FooterFields(image, p, footer.(numberOfImages := |sizes|))
            == FooterInfo(|sizes|, SizesRead(sizes, footer.imagesSize), cfg)
  {
    FooterWordsAt(image, p, sizes, cfg);
    FooterFieldsRead(image, p, sizes, cfg, footer.(numberOfImages := |sizes|));
  }

  /** The CRC check of a footer at p that lists the sizes, whose covered
      bytes are body and whose CRC word holds the CRC of body. */
  lemma FooterCrcHolds(image: seq<byte>, p: nat, sizes: seq<u32>, body: seq<byte>)
    requires 24 <= p <= |image| - 4 && |sizes| <= 2 && FooterCount(image, p) == |sizes|
    requires LE32At(image, p - 4) == 0 && image[p - 12 - 4 * |sizes|..p + 4] == body
    requires LE32At(image, p - 16 - 4 * |sizes|) == Crc32(FOOTER_SEED, body) as int
    ensures FooterValid(image, p)
  {
  }

  /** The footer information read from the words of a footer at p. */
  lemma FooterFieldsRead(image: seq<byte>, p: nat, sizes: seq<u32>, cfg: u32, footer: FooterInfo)
    requires |sizes| <= 2 && 24 <= p <= |image| - 4 && |footer.imagesSize| == 2
    requires FooterCount(image, p) == |sizes| && LE32At(image, p - 8) == cfg
    requires 0 < |sizes| ==> LE32At(image, p - 12 - 4 * |sizes|) == sizes[0]
    requires 1 < |sizes| ==> LE32At(image, p - 12 - 4 * |sizes| + 4) == sizes[1]
    requires footer.numberOfImages == |sizes|
    ensures FooterFields(image, p, footer) == FooterInfo(|sizes|, SizesRead(sizes, footer.imagesSize), cfg)
  {
    var f := FooterFields(image, p, footer);
    assert f.imagesSize[0] == SizesRead(sizes, footer.imagesSize)[0];
    assert f.imagesSize[1] == SizesRead(sizes, footer.imagesSize)[1];
  }

  /** The search finds a magic at p followed by up to three bytes of 0xFF. */
  lemma FooterFound(image: seq<byte>, p: nat)
    requires |image| >= HEADER_SIZE && p + 4 <= |image| <= p + 7
    requires image[p] == FOOTER_MAGIC[0] && image[p + 1] == FOOTER_MAGIC[1]
    requires image[p + 2] == FOOTER_MAGIC[2] && image[p + 3] == FOOTER_MAGIC[3]
    requires forall k :: p + 4 <= k < |image| ==> image[k] == 0xFF
    ensures FindFooter(image, 0) == Some(p)
  {
    var pad := |image| - 4 - p;
    forall k | 0 <= k < pad
      ensures !MagicAt(image, k)
    {
      assert image[|image| - 1 - k] == 0xFF;
    }
    assert MagicAt(image, pad);
    FindFooterFirstHit(image, 0, pad);
  }

  /** The first hit: from j on, no magic before i and the magic at i. */
  lemma {:induction false} FindFooterFirstHit(image: seq<byte>, j: nat, i: nat)
    requires |image| >= HEADER_SIZE && j <= i < 4 && MagicAt(image, i)
    requires forall k :: j <= k < i ==> !MagicAt(image, k)
    ensures FindFooter(image, j) == Some(|image| - 4 - i)
    decreases i - j
  {
    if j < i {
      FindFooterFirstHit(image, j + 1, i);
    }
  }

  /** Where the words of a footer body lie within it. */
  predicate BodyWords(body: seq<byte>, sizes: seq<u32>, cfg: u32)
    requires |sizes| <= 2 && |body| == 16 + 4 * |sizes|
  {
    var n := |sizes|;
    (forall j :: 0 <= j < n ==> body[4 * j..4 * j + 4] == EncodeLE32(sizes[j]))
    && body[4 * n..4 * n + 4] == EncodeLE32(n)
    && body[4 * n + 4..4 * n + 8] == EncodeLE32(cfg)
    && body[4 * n + 8..4 * n + 12] == EncodeLE32(0)
    && body[4 * n + 12..4 * n + 16] == FOOTER_MAGIC
  }

  /** A footer body holds its words where the format puts them. */
  lemma FooterBodyWords(sizes: seq<u32>, cfg: u32)
    requires |sizes| <= 2
    ensures BodyWords(FooterBody(sizes, cfg), sizes, cfg)
  {
    var rest := EncodeLE32(|sizes|) + EncodeLE32(cfg) + EncodeLE32(0) + FOOTER_MAGIC;
    assert FooterBody(sizes, cfg) == Words(sizes) + rest;
    BodyWordsOf(FooterBody(sizes, cfg), sizes, cfg, rest);
  }

  /** The same for any body laid out as Words(sizes) and a tail. */
  lemma BodyWordsOf(body: seq<byte>, sizes: seq<u32>, cfg: u32, rest: seq<byte>)
    requires |sizes| <= 2
    requires rest == EncodeLE32(|sizes|) + EncodeLE32(cfg) + EncodeLE32(0) + FOOTER_MAGIC
    requires body == Words(sizes) + rest
    ensures |body| == 16 + 4 * |sizes| && BodyWords(body, sizes, cfg)
  {
    var n := |sizes|;
    assert body[4 * n..] == rest;
    BodyHead(body, sizes, rest);
    BodyTail(body, 4 * n, rest, n, cfg);
  }

  /** The words of a body made of Words(sizes) and a tail. */
  lemma BodyHead(body: seq<byte>, sizes: seq<u32>, rest: seq<byte>)
    requires body == Words(sizes) + rest
    ensures forall j :: 0 <= j < |sizes| ==> body[4 * j..4 * j + 4] == EncodeLE32(sizes[j])
  {
    var w := Words(sizes);
    assert body[..|w|] == w;
    forall j | 0 <= j < |sizes|
      ensures body[4 * j..4 * j + 4] == EncodeLE32(sizes[j])
    {
      WordsAt(sizes, j);
      SubSlice(body, 0, w, 4 * j, 4 * j + 4);
    }
  }

  /** The four words of a footer tail placed at q. */
  lemma BodyTail(body: seq<byte>, q: nat, rest: seq<byte>, n: u32, cfg: u32)
    requires rest == EncodeLE32(n) + EncodeLE32(cfg) + EncodeLE32(0) + FOOTER_MAGIC
    requires q + 16 == |body| && body[q..] == rest
    ensures body[q..q + 4] == EncodeLE32(n)
    ensures body[q + 4..q + 8] == EncodeLE32(cfg)
    ensures body[q + 8..q + 12] == EncodeLE32(0)
    ensures body[q + 12..q + 16] == FOOTER_MAGIC
  {
    assert body[q..q + 16] == rest;
    assert rest[0..4] == EncodeLE32(n);
    assert rest[4..8] == EncodeLE32(cfg);
    assert rest[8..12] == EncodeLE32(0);
    assert rest[12..16] == FOOTER_MAGIC;
    SubSlice(body, q, rest, 0, 4);
    SubSlice(body, q, rest, 4, 8);
    SubSlice(body, q, rest, 8, 12);
    SubSlice(body, q, rest, 12, 16);
  }

  /** The words and the magic of a footer body that runs up to p + 4 read
      back as what it holds. */
  lemma FooterWordsAt(image: seq<byte>, p: nat, sizes: seq<u32>, cfg: u32)
    requires |sizes| <= 2 && 12 + 4 * |sizes| <= p && p + 4 <= |image|
    requires image[p - 12 - 4 * |sizes|..p + 4] == FooterBody(sizes, cfg)
    ensures 0 < |sizes| ==> LE32At(image, p - 12 - 4 * |sizes|) == sizes[0]
    ensures 1 < |sizes| ==> LE32At(image, p - 12 - 4 * |sizes| + 4) == sizes[1]
    ensures LE32At(image, p - 12) == |sizes|
    ensures LE32At(image, p - 8) == cfg
    ensures LE32At(image, p - 4) == 0
    ensures image[p] == FOOTER_MAGIC[0] && image[p + 1] == FOOTER_MAGIC[1]
    ensures image[p + 2] == FOOTER_MAGIC[2] && image[p + 3] == FOOTER_MAGIC[3]
  {
    FooterBodyWords(sizes, cfg);
    WordsIn(image, p, sizes, cfg, FooterBody(sizes, cfg));
  }

  /** The words of a body laid out as a footer body, read in the image the
      body ends at p + 4. */
  lemma WordsIn(image: seq<byte>, p: nat, sizes: seq<u32>, cfg: u32, body: seq<byte>)
    requires |sizes| <= 2 && 12 + 4 * |sizes| <= p && p + 4 <= |image|
    requires |body| == 16 + 4 * |sizes| && BodyWords(body, sizes, cfg)
    requires image[p - 12 - 4 * |sizes|..p + 4] == body
    ensures 0 < |sizes| ==> LE32At(image, p - 12 - 4 * |sizes|) == sizes[0]
    ensures 1 < |sizes| ==> LE32At(image, p - 12 - 4 * |sizes| + 4) == sizes[1]
    ensures LE32At(image, p - 12) == |sizes|
    ensures LE32At(image, p - 8) == cfg
    ensures LE32At(image, p - 4) == 0
    ensures image[p] == FOOTER_MAGIC[0] && image[p + 1] == FOOTER_MAGIC[1]
    ensures image[p + 2] == FOOTER_MAGIC[2] && image[p + 3] == FOOTER_MAGIC[3]
  {
    var n := |sizes|;
    var q := p - 12 - 4 * n;
    assert image[q..q + |body|] == body;
    if 0 < n {
      WordIn(image, q, body, 0, sizes[0]);
    }
    if 1 < n {
      WordIn(image, q, body, 4, sizes[1]);
    }
    WordIn(image, q, body, 4 * n, n);
    WordIn(image, q, body, 4 * n + 4, cfg);
    WordIn(image, q, body, 4 * n + 8, 0);
    SubSlice(image, q, body, 4 * n + 12, 4 * n + 16);
    assert image[p..p + 4] == FOOTER_MAGIC;
    assert image[p] == image[p..p + 4][0] && image[p + 1] == image[p..p + 4][1];
    assert image[p + 2] == image[p..p + 4][2] && image[p + 3] == image[p..p + 4][3];
  }

  /** A word of a part placed at q, read in the whole. */
  lemma WordIn(s: seq<byte>, q: nat, t: seq<byte>, a: nat, x: u32)
    requires q + |t| <= |s| && s[q..q + |t|] == t
    requires a + 4 <= |t| && t[a..a + 4] == EncodeLE32(x)
    ensures LE32At(s, q + a) == x
  {
    SubSlice(s, q, t, a, a + 4);
    LE32Slice(s, q + a, x);
  }

  /** A word read where its encoding lies. */
  lemma LE32Slice(s: seq<byte>, i: nat, x: u32)
    requires i + 4 <= |s| && s[i..i + 4] == EncodeLE32(x)
    ensures LE32At(s, i) == x
  {
    assert s[i] == s[i..i + 4][0] && s[i + 1] == s[i..i + 4][1];
    assert s[i + 2] == s[i..i + 4][2] && s[i + 3] == s[i..i + 4][3];
  }

  // ---------------------------------------------------------------------
  // Padding (OpenAndBufferFile)
  // ---------------------------------------------------------------------

  /** n bytes of 0xFF, the value of erased flash. */
  function Pad(n: nat): (r: seq<byte>)
    ensures |r| == n && forall k :: 0 <= k < n ==> r[k] == 0xFF
  {
    seq(n, _ => 0xFF)
  }

  /** The number of 0xFF bytes appended: (4 - (size & 3)) & 3. */
  function PadCount(size: nat): (k: nat)
    ensures k < 4 && (size + k) % 4 == 0
  {
    (4 - size % 4) % 4
  }

  /** The file content padded with 0xFF up to a multiple of four bytes. */
  function PaddedFile(content: seq<byte>): (r: seq<byte>)
    ensures |r| % 4 == 0 && |content| <= |r| < |content| + 4
    ensures r[..|content|] == content
    ensures forall k :: |content| <= k < |r| ==> r[k] == 0xFF
  {
    content + Pad(PadCount(|content|))
  }

  /** The buffer OpenAndBufferFile hands back for a file that reads as
      content, and the size it reports. */
  method BufferFile(content: seq<byte>) returns (buf: array<byte>, size: nat)
    ensures fresh(buf)
    ensures buf[..] == PaddedFile(content) && size == buf.Length
  {
    var filesize := |content|;
    var ffAppend := PadCount(filesize);
    buf := new byte[filesize + ffAppend];
    forall i | 0 <= i < filesize {
      buf[i] := content[i];
    }
    forall i | filesize <= i < filesize + ffAppend {
      buf[i] := 0xFF;
    }
    size := filesize + ffAppend;
    assert buf[..] == PaddedFile(content);
  }

  /** Padding is what makes a footer line up: the padded file of content
      followed by a footer ends in that footer, with its magic 16 + 4 *
      |sizes| bytes after the content and at most three bytes after it. */
  lemma PaddedFooterLaidOut(content: seq<byte>, sizes: seq<u32>, cfg: u32, image: seq<byte>)
    requires |sizes| <= 2 && image == PaddedFile(content + Footer(sizes, cfg))
    ensures FooterEndsAt(image, |content| + 16 + 4 * |sizes|, sizes, cfg)
    ensures |image| <= |content| + 16 + 4 * |sizes| + 7
  {
    var pad := PadCount(|content + Footer(sizes, cfg)|);
    assert image == content + Footer(sizes, cfg) + Pad(pad);
    FooterLayout(content, sizes, cfg, pad);
  }
}
