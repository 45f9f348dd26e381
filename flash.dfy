// Flash geometry (flash.c, flash.h): a flash is described by a list of
// blocks, each "Count sectors of Size bytes". The lookups below convert
// between byte sizes, addresses, sector numbers and packet numbers.
module Flash {
  import opened Bytes

  /** One BLOCK_DEF_t: Count sectors of Size bytes each. */
  datatype Block = Block(count: u32, size: u32)

  // ---------------------------------------------------------------------
  // The sector list a block list describes
  // ---------------------------------------------------------------------

  /** The lookups step to the next block once the sector counter reaches
      Count, after at least one sector, so a block contributes
      max(Count, 1) sectors. */
  function Eff(b: Block): nat
  {
    if b.count == 0 then 1 else b.count
  }

  function Repeat(x: nat, n: nat): (r: seq<nat>)
    ensures |r| == n && forall k :: 0 <= k < n ==> r[k] == x
  {
    if n == 0 then [] else Repeat(x, n - 1) + [x]
  }

  /** The sizes of all sectors, in address order. */
  function SectorSizes(blocks: seq<Block>): seq<nat>
  {
    if |blocks| == 0 then []
    else SectorSizes(blocks[..|blocks| - 1]) + Repeat(blocks[|blocks| - 1].size, Eff(blocks[|blocks| - 1]))
  }

  /** Index of the first sector of block j. */
  function Start(blocks: seq<Block>, j: nat): nat
    requires j <= |blocks|
  {
    |SectorSizes(blocks[..j])|
  }

  /** Sum of the first n entries of s. */
  function PrefixSum(s: seq<nat>, n: nat): nat
    requires n <= |s|
  {
    if n == 0 then 0 else PrefixSum(s, n - 1) + s[n - 1]
  }

  /** Total size of the flash in bytes. */
  function FlashSize(blocks: seq<Block>): nat
  {
    PrefixSum(SectorSizes(blocks), |SectorSizes(blocks)|)
  }

  /** The U4 sums of the lookups never wrap on a flash below 4 GiB. */
  predicate Fits(blocks: seq<Block>)
  {
    FlashSize(blocks) < U32_MOD
  }

  lemma {:induction false} SectorSizesPrefix(blocks: seq<Block>, j: nat)
    requires j <= |blocks|
    ensures |SectorSizes(blocks[..j])| <= |SectorSizes(blocks)|
    ensures SectorSizes(blocks)[..|SectorSizes(blocks[..j])|] == SectorSizes(blocks[..j])
    decreases |blocks| - j
  {
    if j < |blocks| {
      var last := blocks[..|blocks| - 1];
      assert blocks[..j] == last[..j];
      SectorSizesPrefix(last, j);
      assert blocks[..|blocks|] == blocks;
    } else {
      assert blocks[..j] == blocks;
    }
  }

  /** Sector blocksec of block b is sector Start(b) + blocksec of the list. */
  lemma SectorAt(blocks: seq<Block>, b: nat, blocksec: nat)
    requires b < |blocks| && blocksec < Eff(blocks[b])
    ensures Start(blocks, b + 1) == Start(blocks, b) + Eff(blocks[b])
    ensures Start(blocks, b) + blocksec < |SectorSizes(blocks)|
    ensures SectorSizes(blocks)[Start(blocks, b) + blocksec] == blocks[b].size
  {
    var pre := blocks[..b + 1];
    assert pre[..|pre| - 1] == blocks[..b];
    SectorSizesPrefix(blocks, b + 1);
    var k := Start(blocks, b) + blocksec;
    assert SectorSizes(pre)[k] == blocks[b].size;
    assert SectorSizes(blocks)[..|SectorSizes(pre)|][k] == SectorSizes(blocks)[k];
  }

  lemma StartEnd(blocks: seq<Block>)
    ensures Start(blocks, |blocks|) == |SectorSizes(blocks)|
  {
    assert blocks[..|blocks|] == blocks;
  }

  lemma {:induction false} PrefixSumMono(s: seq<nat>, i: nat, j: nat)
    requires i <= j <= |s|
    ensures PrefixSum(s, i) <= PrefixSum(s, j)
    decreases j - i
  {
    if i < j {
      PrefixSumMono(s, i, j - 1);
    }
  }

  // ---------------------------------------------------------------------
  // Cursor over the sectors: (block, blocksec) and the flat index
  // ---------------------------------------------------------------------

  /** The loops' cursor (block, blocksec) designates sector idx. */
  predicate Cursor(blocks: seq<Block>, block: nat, blocksec: nat, idx: nat)
  {
    block <= |blocks|
    && (block < |blocks| ==> blocksec < Eff(blocks[block]))
    && (block == |blocks| ==> blocksec == 0)
    && idx == Start(blocks, block) + blocksec
  }

  /** Advancing the cursor past sector idx as the lookups do. */
  lemma CursorStep(blocks: seq<Block>, block: nat, blocksec: nat, idx: nat)
    requires Cursor(blocks, block, blocksec, idx) && block < |blocks|
    ensures idx < |SectorSizes(blocks)| && SectorSizes(blocks)[idx] == blocks[block].size
    ensures var rolls := blocksec + 1 >= blocks[block].count;
            var nb := if rolls then block + 1 else block;
            var ns := if rolls then 0 else blocksec + 1;
            Cursor(blocks, nb, ns, idx + 1)
            && (nb == |blocks| <==> idx + 1 == |SectorSizes(blocks)|)
  {
    SectorAt(blocks, block, blocksec);
    StartEnd(blocks);
    if block + 1 < |blocks| {
      SectorAt(blocks, block + 1, 0);
    }
  }

  lemma CursorInit(blocks: seq<Block>)
    ensures Cursor(blocks, 0, 0, 0)
    ensures |blocks| == 0 <==> |SectorSizes(blocks)| == 0
  {
    assert blocks[..0] == [];
    if |blocks| > 0 {
      SectorAt(blocks, 0, 0);
    }
  }

  lemma CursorAtEnd(blocks: seq<Block>, block: nat, blocksec: nat, idx: nat)
    requires Cursor(blocks, block, blocksec, idx)
    ensures idx <= |SectorSizes(blocks)|
    ensures block == |blocks| <==> idx == |SectorSizes(blocks)|
  {
    StartEnd(blocks);
    if block < |blocks| {
      SectorAt(blocks, block, blocksec);
      SectorSizesPrefix(blocks, block + 1);
      assert Start(blocks, block + 1) <= |SectorSizes(blocks)|;
    }
  }

  // ---------------------------------------------------------------------
  // Skipping to an offset (the first loop of three lookups)
  // ---------------------------------------------------------------------

  /** The index the offset loop stops at, or -1 once it steps past the last
      sector. */
  function SkipFrom(s: seq<nat>, idx: nat, addr: nat, offset: nat): int
    requires idx <= |s|
    decreases |s| - idx
  {
    if addr >= offset then idx
    else if idx == |s| then -1
    else if idx + 1 == |s| then -1
    else SkipFrom(s, idx + 1, addr + s[idx], offset)
  }

  /** The offset loop stops at the first sector starting at or after the
      offset, and fails when the flash ends first. */
  lemma {:induction false} SkipFromSpec(s: seq<nat>, idx: nat, offset: nat)
    requires idx <= |s|
    requires forall j: nat :: j < idx ==> PrefixSum(s, j) < offset
    ensures var m := SkipFrom(s, idx, PrefixSum(s, idx), offset);
            (m >= 0 ==> idx <= m && m <= |s| && (m < |s| || m == idx)
                        && PrefixSum(s, m) >= offset
                        && forall j: nat :: j < m ==> PrefixSum(s, j) < offset)
            && (m == -1 ==> forall j: nat :: j < |s| ==> PrefixSum(s, j) < offset)
    decreases |s| - idx
  {
    if PrefixSum(s, idx) >= offset {
    } else if idx == |s| || idx + 1 == |s| {
    } else {
      SkipFromSpec(s, idx + 1, offset);
    }
  }

  /** One pass of the offset loop. */
  lemma SkipStep(s: seq<nat>, idx: nat, addr: nat, offset: nat)
    requires idx < |s| && addr < offset && addr == PrefixSum(s, idx)
    ensures PrefixSum(s, idx + 1) == addr + s[idx]
    ensures SkipFrom(s, idx, addr, offset)
            == if idx + 1 == |s| then -1 else SkipFrom(s, idx + 1, addr + s[idx], offset)
  {
  }

  // ---------------------------------------------------------------------
  // GetSectorNrForSize
  // ---------------------------------------------------------------------

  /** Number of sectors counted from idx until their sizes reach fw, or -1
      if the flash ends first. */
  function CountFrom(s: seq<nat>, idx: nat, size: nat, fw: nat, n: nat): int
    requires idx <= |s|
    decreases |s| - idx
  {
    if size >= fw then n
    else if idx == |s| then -1
    else CountFrom(s, idx + 1, size + s[idx], fw, n + 1)
  }

  function SectorNrForSize(s: seq<nat>, offset: nat, fw: nat): int
  {
    var m := SkipFrom(s, 0, 0, offset);
    if m < 0 || m > |s| then -1 else CountFrom(s, m, 0, fw, 0)
  }

  /** Number of sectors, starting at Offset, that the firmware of FwSize
      bytes covers, or -1 if it does not fit. */
  method GetSectorNrForSize(offset: u32, fwSize: u32, blocks: seq<Block>) returns (r: int)
    requires Fits(blocks)
    requires offset > 0 ==> |blocks| > 0
    ensures r == SectorNrForSize(SectorSizes(blocks), offset, fwSize)
  {
    ghost var s := SectorSizes(blocks);
    var size: nat := 0;
    var block: nat := 0;
    var blocksec: nat := 0;
    var sectorNr: nat := 0;
    var addr: nat := 0;
    ghost var idx: nat := 0;
    CursorInit(blocks);
    while addr < offset
      invariant idx <= |s|
      invariant Cursor(blocks, block, blocksec, idx) && addr == PrefixSum(s, idx)
      invariant offset > 0 ==> block < |blocks| && idx < |s|
      invariant SkipFrom(s, idx, addr, offset) == SkipFrom(s, 0, 0, offset)
      decreases |s| - idx
    {
      CursorStep(blocks, block, blocksec, idx);
      SkipStep(s, idx, addr, offset);
      addr := addr + blocks[block].size;
      blocksec := blocksec + 1;
      idx := idx + 1;
      if blocksec >= blocks[block].count {
        block := block + 1;
        blocksec := 0;
        if block >= |blocks| {
          return -1;
        }
      }
    }
    CursorAtEnd(blocks, block, blocksec, idx);
    ghost var m := idx;
    while size < fwSize
      invariant Cursor(blocks, block, blocksec, idx) && m <= idx <= |s|
      invariant sectorNr == idx - m
      invariant CountFrom(s, idx, size, fwSize, sectorNr) == CountFrom(s, m, 0, fwSize, 0)
      decreases |s| - idx
    {
      CursorAtEnd(blocks, block, blocksec, idx);
      if block >= |blocks| && size < fwSize {
        return -1;
      }
      CursorStep(blocks, block, blocksec, idx);
      sectorNr := sectorNr + 1;
      size := size + blocks[block].size;
      blocksec := blocksec + 1;
      idx := idx + 1;
      if blocksec >= blocks[block].count {
        block := block + 1;
        blocksec := 0;
      }
    }
    return sectorNr;
  }

  lemma {:induction false} CountFromSpec(s: seq<nat>, m: nat, idx: nat, fw: nat)
    requires m <= idx <= |s|
    requires forall j: nat :: m <= j < idx ==> PrefixSum(s, j) - PrefixSum(s, m) < fw
    requires PrefixSum(s, m) <= PrefixSum(s, idx)
    ensures var r := CountFrom(s, idx, PrefixSum(s, idx) - PrefixSum(s, m), fw, idx - m);
            (r >= 0 ==> m + r <= |s| && PrefixSum(s, m + r) - PrefixSum(s, m) >= fw
                        && forall j: nat :: m <= j < m + r ==> PrefixSum(s, j) - PrefixSum(s, m) < fw)
            && (r == -1 ==> PrefixSum(s, |s|) - PrefixSum(s, m) < fw)
            && r >= -1
    decreases |s| - idx
  {
    if PrefixSum(s, idx) - PrefixSum(s, m) >= fw {
    } else if idx == |s| {
    } else {
      CountFromSpec(s, m, idx + 1, fw);
    }
  }

  /** GetSectorNrForSize(0, s) is the least n whose first n sectors hold s
      bytes (0 for s = 0), and -1 when the whole flash is smaller than s. */
  lemma SectorNrForSizeLeast(blocks: seq<Block>, fw: nat)
    ensures var s := SectorSizes(blocks);
            var r := SectorNrForSize(s, 0, fw);
            (r >= 0 ==> r <= |s| && PrefixSum(s, r) >= fw
                        && forall n: nat :: n < r ==> PrefixSum(s, n) < fw)
            && (r == -1 <==> FlashSize(blocks) < fw)
            && (fw == 0 ==> r == 0)
  {
    var s := SectorSizes(blocks);
    CountFromSpec(s, 0, 0, fw);
    var r := SectorNrForSize(s, 0, fw);
    if r >= 0 {
      PrefixSumMono(s, r, |s|);
    }
  }

  /** With a non-zero offset the count starts at the first sector at or
      after it; -1 when the flash ends at or before that sector. */
  lemma SectorNrForSizeOffset(blocks: seq<Block>, offset: nat, fw: nat)
    requires offset > 0 && |blocks| > 0
    ensures var s := SectorSizes(blocks);
            var m := SkipFrom(s, 0, 0, offset);
            (m == -1 ==> SectorNrForSize(s, offset, fw) == -1
                         && forall j: nat :: j < |s| ==> PrefixSum(s, j) < offset)
            && (m >= 0 ==> 0 < m < |s| && PrefixSum(s, m) >= offset
                           && (forall j: nat :: j < m ==> PrefixSum(s, j) < offset)
                           && SectorNrForSize(s, offset, fw) == CountFrom(s, m, 0, fw, 0))
  {
    var s := SectorSizes(blocks);
    CursorInit(blocks);
    SkipFromSpec(s, 0, offset);
  }

  // ---------------------------------------------------------------------
  // GetPacketNrForSector
  // ---------------------------------------------------------------------

  /** Packets in the first n sectors, rounding each sector down. */
  function PacketSum(s: seq<nat>, n: nat, ps: nat): nat
    requires n <= |s| && ps > 0
  {
    if n == 0 then 0 else PacketSum(s, n - 1, ps) + PacketsOf(s[n - 1], ps)
  }

  /** The whole packets in one sector of the given size. */
  function PacketsOf(size: nat, ps: nat): nat
    requires ps > 0
  {
    size / ps
  }

  function PacketNrForSector(blocks: seq<Block>, sector: nat, ps: nat): (r: int)
    requires ps > 0
    ensures r >= -1
  {
    if |blocks| == 1 then ToU32(sector * blocks[0].size) / ps
    else if sector <= |SectorSizes(blocks)| then PacketSum(SectorSizes(blocks), sector, ps)
    else -1
  }

  /** Number of the first packet of a sector: on a uniform flash
      Sector * Size / PacketSize in U4 arithmetic with no bound check,
      otherwise the packets of all preceding sectors, -1 beyond the flash. */
  method GetPacketNrForSector(sector: u32, blocks: seq<Block>, packetSize: u32) returns (r: int)
    requires packetSize > 1 && Fits(blocks)
    ensures r == PacketNrForSector(blocks, sector, packetSize)
  {
    if |blocks| == 1 {
      return ToU32(sector as int * blocks[0].size as int) as int / packetSize as int;
    }
    ghost var s := SectorSizes(blocks);
    var packet: nat := 0;
    var block: nat := 0;
    var blocksec: nat := 0;
    var secCnt: nat := 0;
    CursorInit(blocks);
    while secCnt < sector
      invariant Cursor(blocks, block, blocksec, secCnt) && secCnt <= |s|
      invariant secCnt <= sector
      invariant packet == PacketSum(s, secCnt, packetSize)
    {
      CursorAtEnd(blocks, block, blocksec, secCnt);
      secCnt := secCnt + 1;
      if block >= |blocks| {
        return -1;
      }
      CursorStep(blocks, block, blocksec, secCnt - 1);
      packet := packet + PacketsOf(blocks[block].size, packetSize);
      blocksec := blocksec + 1;
      if blocksec >= blocks[block].count {
        block := block + 1;
        blocksec := 0;
      }
    }
    return packet;
  }

  /** On a uniform flash whose sector size is a multiple of the packet size
      both formulas agree within the flash. */
  lemma UniformPacketNr(b: Block, sector: nat, ps: nat)
    requires ps > 0 && b.size % ps == 0 && sector <= Eff(b)
    requires Fits([b])
    ensures sector <= |SectorSizes([b])|
    ensures ToU32(sector * b.size) / ps == PacketSum(SectorSizes([b]), sector, ps)
  {
    var s := SectorSizes([b]);
    assert [b][..|[b]| - 1] == [];
    assert SectorSizes([b]) == SectorSizes([]) + Repeat(b.size, Eff(b));
    assert s == Repeat(b.size, Eff(b));
    UniformSum(s, b.size, sector, ps);
    PrefixSumMono(s, sector, |s|);
    RepeatSum(s, b.size, sector);
    UniformArith(b.size, sector, ps, PrefixSum(s, |s|));
  }

  /** Sector * Size stays below 4 GiB, so the U4 product divides exactly. */
  lemma UniformArith(size: nat, sector: nat, ps: nat, total: nat)
    requires ps > 0 && size % ps == 0 && sector * size <= total < U32_MOD
    ensures ToU32(sector * size) / ps == sector * (size / ps)
  {
    var x := sector * size;
    assert ToU32(x) == x;
    var q := size / ps;
    DivMod(size, ps);
    MulAssoc(sector, q, ps);
    ExactDiv(sector * q, ps);
  }

  lemma MulAssoc(a: nat, b: nat, c: nat)
    ensures a * (b * c) == (a * b) * c
  {
  }

  lemma DivMod(x: nat, ps: nat)
    requires ps > 0
    ensures x == (x / ps) * ps + x % ps
  {
  }

  lemma ExactDiv(a: nat, ps: nat)
    requires ps > 0
    ensures (a * ps) / ps == a
  {
    var d := (a * ps) / ps;
    var r := (a * ps) % ps;
    assert a * ps == d * ps + r;
    assert (a - d) * ps == r;
    if a - d >= 1 {
      MulAtLeast(a - d, ps);
    } else if a - d <= -1 {
      MulAtLeast(d - a, ps);
    }
  }

  lemma MulAtLeast(x: int, y: nat)
    requires x >= 1
    ensures x * y >= y
  {
    var k := x - 1;
    assert x * y == y + k * y;
  }

  lemma {:induction false} UniformSum(s: seq<nat>, x: nat, n: nat, ps: nat)
    requires n <= |s| && ps > 0 && x % ps == 0
    requires forall k :: 0 <= k < |s| ==> s[k] == x
    ensures PacketSum(s, n, ps) == n * (x / ps)
  {
    if n > 0 {
      UniformSum(s, x, n - 1, ps);
    }
  }

  lemma {:induction false} RepeatSum(s: seq<nat>, x: nat, n: nat)
    requires n <= |s|
    requires forall k :: 0 <= k < |s| ==> s[k] == x
    ensures PrefixSum(s, n) == n * x
  {
    if n > 0 {
      RepeatSum(s, x, n - 1);
    }
  }

  // ---------------------------------------------------------------------
  // GetSectorNrForAddress
  // ---------------------------------------------------------------------

  /** The counting loop: sectors passed from idx until the one holding
      target, or -1 past the last sector. */
  function AddrFrom(s: seq<nat>, idx: nat, addr: nat, target: nat, cnt: nat): int
    requires idx <= |s|
    decreases |s| - idx
  {
    if addr >= target then cnt
    else if idx == |s| then -1
    else if addr + s[idx] > target then cnt
    else if idx + 1 == |s| then -1
    else AddrFrom(s, idx + 1, addr + s[idx], target, cnt + 1)
  }

  /** One pass of the counting loop. */
  lemma AddrStep(s: seq<nat>, idx: nat, addr: nat, target: nat, cnt: nat)
    requires idx < |s| && addr < target && addr == PrefixSum(s, idx)
    ensures PrefixSum(s, idx + 1) == addr + s[idx]
    ensures AddrFrom(s, idx, addr, target, cnt)
            == if addr + s[idx] > target then cnt
               else if idx + 1 == |s| then -1
               else AddrFrom(s, idx + 1, addr + s[idx], target, cnt + 1)
  {
  }

  function SectorNrForAddress(s: seq<nat>, target: nat, offset: nat): int
  {
    var m := SkipFrom(s, 0, 0, offset);
    if m < 0 || m > |s| then -1 else AddrFrom(s, m, PrefixSum(s, m), target, 0)
  }

  /** The relative target address Address - Base + Offset in U4 arithmetic. */
  function Target(address: u32, base: u32, offset: u32): u32
  {
    ToU32(address - base + offset)
  }

  /** Number of the sector (counted from the offset) holding Address, or -1
      when the address lies beyond the flash. */
  method GetSectorNrForAddress(address: u32, base: u32, offset: u32, blocks: seq<Block>) returns (r: int)
    requires Fits(blocks)
    requires (offset > 0 || Target(address, base, offset) > 0) ==> |blocks| > 0
    ensures r == SectorNrForAddress(SectorSizes(blocks), Target(address, base, offset), offset)
  {
    ghost var s := SectorSizes(blocks);
    var block: nat := 0;
    var blocksec: nat := 0;
    var addr: nat := 0;
    ghost var idx: nat := 0;
    CursorInit(blocks);
    while addr < offset
      invariant idx <= |s|
      invariant Cursor(blocks, block, blocksec, idx) && addr == PrefixSum(s, idx)
      invariant offset > 0 ==> block < |blocks| && idx < |s|
      invariant SkipFrom(s, idx, addr, offset) == SkipFrom(s, 0, 0, offset)
      decreases |s| - idx
    {
      CursorStep(blocks, block, blocksec, idx);
      SkipStep(s, idx, addr, offset);
      addr := addr + blocks[block].size;
      blocksec := blocksec + 1;
      idx := idx + 1;
      if blocksec >= blocks[block].count {
        block := block + 1;
        blocksec := 0;
        if block >= |blocks| {
          return -1;
        }
      }
    }
    CursorAtEnd(blocks, block, blocksec, idx);
    var target := Target(address, base, offset);
    var secCnt: nat := 0;
    ghost var m := idx;
    while addr < target
      invariant Cursor(blocks, block, blocksec, idx) && m <= idx <= |s|
      invariant addr == PrefixSum(s, idx)
      invariant addr < target ==> block < |blocks|
      invariant AddrFrom(s, idx, addr, target, secCnt) == AddrFrom(s, m, PrefixSum(s, m), target, 0)
      decreases |s| - idx
    {
      CursorStep(blocks, block, blocksec, idx);
      AddrStep(s, idx, addr, target, secCnt);
      addr := addr + blocks[block].size;
      if addr > target {
        break;
      }
      secCnt := secCnt + 1;
      blocksec := blocksec + 1;
      idx := idx + 1;
      if blocksec >= blocks[block].count {
        block := block + 1;
        blocksec := 0;
        if block >= |blocks| {
          return -1;
        }
      }
    }
    return secCnt;
  }

  /** All sizes positive: every sector holds at least one byte. */
  predicate PositiveSizes(blocks: seq<Block>)
  {
    forall k :: 0 <= k < |blocks| ==> blocks[k].size > 0
  }

  lemma {:induction false} SectorSizesPositive(blocks: seq<Block>)
    requires PositiveSizes(blocks)
    ensures forall k :: 0 <= k < |SectorSizes(blocks)| ==> SectorSizes(blocks)[k] > 0
  {
    if |blocks| > 0 {
      SectorSizesPositive(blocks[..|blocks| - 1]);
    }
  }

  lemma {:induction false} AddrFromSpec(s: seq<nat>, m: nat, idx: nat, t: nat)
    requires m <= idx < |s|
    requires forall k :: 0 <= k < |s| ==> s[k] > 0
    requires PrefixSum(s, idx) <= t
    ensures var r := AddrFrom(s, idx, PrefixSum(s, idx), t, idx - m);
            (r >= 0 ==> m + r < |s| && PrefixSum(s, m + r) <= t < PrefixSum(s, m + r + 1))
            && (r == -1 ==> t >= PrefixSum(s, |s|))
            && r >= -1
    decreases |s| - idx
  {
    var addr := PrefixSum(s, idx);
    if addr >= t {
    } else if addr + s[idx] > t {
    } else if idx + 1 == |s| {
    } else {
      AddrFromSpec(s, m, idx + 1, t);
    }
  }

  /** GetSectorNrForAddress with no offset: k when the relative address t
      lies in sector k, -1 exactly when t is at or beyond the end of the
      flash. */
  lemma SectorNrForAddressSpec(blocks: seq<Block>, t: nat)
    requires |blocks| > 0 && PositiveSizes(blocks)
    ensures var s := SectorSizes(blocks);
            var r := SectorNrForAddress(s, t, 0);
            (r >= 0 ==> r < |s| && PrefixSum(s, r) <= t < PrefixSum(s, r + 1))
            && (r == -1 <==> t >= FlashSize(blocks)) && r >= -1
  {
    var s := SectorSizes(blocks);
    CursorInit(blocks);
    SectorSizesPositive(blocks);
    AddrFromSpec(s, 0, 0, t);
    var r := SectorNrForAddress(s, t, 0);
    if r >= 0 {
      PrefixSumMono(s, r + 1, |s|);
    }
  }

  // ---------------------------------------------------------------------
  // GetPacketNrForAddress
  // ---------------------------------------------------------------------

  /** (Address - Base) / PacketSize in U4 arithmetic; there is no failure
      value. */
  function PacketNrForAddress(address: u32, base: u32, packetSize: u32): (r: u32)
    requires packetSize > 0
    ensures r * packetSize <= ToU32(address - base) < (r + 1) * packetSize
  {
    ToU32(address - base) / packetSize
  }

  // ---------------------------------------------------------------------
  // The block list (BLOCK_ARR_t, addBlock, clearBlocks)
  // ---------------------------------------------------------------------

  /** A growable array of block definitions. */
  class BlockArr {
    var blocks: seq<Block>

    constructor ()
      ensures blocks == []
    {
      blocks := [];
    }

    function NumBlocks(): nat
      reads this
    {
      |blocks|
    }

    /** Frees the list: NumBlocks becomes 0. */
    method ClearBlocks()
      modifies this
      ensures blocks == []
    {
      blocks := [];
    }

    /** Appends one block after the existing ones. */
    method AddBlock(b: Block)
      modifies this
      ensures blocks == old(blocks) + [b]
      ensures NumBlocks() == old(NumBlocks()) + 1
    {
      blocks := blocks + [b];
    }
  }
}
