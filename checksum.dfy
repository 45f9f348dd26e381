// The two running-sum checksums of the UBX protocol: the 8-bit one that
// guards every UBX frame, and the 32-bit-word one that guards firmware
// images (checksum.c).
module Checksum {
  import opened Bytes

  // ---------------------------------------------------------------------
  // 8-bit checksum (GetUbxChecksumU1)
  // ---------------------------------------------------------------------

  /** The (ck_a, ck_b) pair after running over s, one byte at a time:
      a' = a + x and b' = b + a', both mod 256. */
  function U1Sums(s: seq<byte>): (byte, byte)
  {
    if |s| == 0 then (0, 0)
    else
      var p := U1Sums(s[..|s| - 1]);
      var a := (p.0 as int + s[|s| - 1] as int) % 0x100;
      (a, (p.1 as int + a) % 0x100)
  }

  /** The U2 result: ck_b in the high byte, ck_a in the low byte. */
  function U1Checksum(s: seq<byte>): u16
  {
    U1Sums(s).1 as int * 0x100 + U1Sums(s).0 as int
  }

  /** Reference definitions: the sum of the bytes, and the sum of all the
      running sums. */
  function Sum(s: seq<byte>): int
  {
    if |s| == 0 then 0 else Sum(s[..|s| - 1]) + s[|s| - 1] as int
  }

  function SumOfPrefixSums(s: seq<byte>): int
  {
    if |s| == 0 then 0 else SumOfPrefixSums(s[..|s| - 1]) + Sum(s)
  }

  /** Computes the UBX checksum over data (the class byte through the end of
      the payload when checking a frame). */
  method GetUbxChecksumU1(data: seq<byte>) returns (r: u16)
    ensures r == U1Checksum(data)
    ensures r % 0x100 == Sum(data) % 0x100
    ensures r / 0x100 == SumOfPrefixSums(data) % 0x100
  {
    var chkA: byte := 0;
    var chkB: byte := 0;
    var i := 0;
    while i < |data|
      invariant 0 <= i <= |data|
      invariant (chkA, chkB) == U1Sums(data[..i])
    {
      assert data[..i + 1][..i] == data[..i];
      chkA := (chkA as int + data[i] as int) % 0x100;
      chkB := (chkB as int + chkA as int) % 0x100;
      i := i + 1;
    }
    assert data[..i] == data;
    r := chkB as int * 0x100 + chkA as int;
    U1SumsClosedForm(data);
    SplitU16(chkA, chkB);
  }

  /** Over an empty range the checksum is 0. */
  lemma U1ChecksumEmpty()
    ensures U1Checksum([]) == 0
  {
  }

  /** ck_a is the byte sum and ck_b the sum of the successive ck_a values,
      both taken mod 256. */
  lemma {:induction false} U1SumsClosedForm(s: seq<byte>)
    ensures U1Sums(s).0 == Sum(s) % 0x100
    ensures U1Sums(s).1 == SumOfPrefixSums(s) % 0x100
  {
    if |s| > 0 {
      var t := s[..|s| - 1];
      U1SumsClosedForm(t);
      ModAddLeft(Sum(t), s[|s| - 1] as int, 0x100);
      ModAddLeft(SumOfPrefixSums(t), U1Sums(s).0 as int, 0x100);
      ModAddLeft(Sum(s), SumOfPrefixSums(t), 0x100);
      assert (SumOfPrefixSums(t) % 0x100 + Sum(s) % 0x100) % 0x100 == (SumOfPrefixSums(t) + Sum(s)) % 0x100 by {
        ModAddLeft(SumOfPrefixSums(t), Sum(s) % 0x100, 0x100);
        ModAddLeft(Sum(s), SumOfPrefixSums(t), 0x100);
      }
    }
  }

  /** Appending one byte x advances the pair by one step. */
  lemma U1SumsAppend(s: seq<byte>, x: byte)
    ensures U1Sums(s + [x]).0 == (U1Sums(s).0 as int + x as int) % 0x100
    ensures U1Sums(s + [x]).1 == (U1Sums(s).1 as int + U1Sums(s + [x]).0 as int) % 0x100
  {
    assert (s + [x])[..|s|] == s;
  }

  // ---------------------------------------------------------------------
  // 32-bit-word checksum (GetUbxChecksumU4, CheckUbxChecksumU4)
  // ---------------------------------------------------------------------

  /** The k-th little-endian 32-bit word of data. */
  function Word(data: seq<byte>, k: nat): u32
    requires 4 * k + 4 <= |data|
  {
    LE32At(data, 4 * k)
  }

  /** The (chk_a, chk_b) pair after running over the first n words of data,
      with 32-bit wrap-around. */
  function U4Sums(data: seq<byte>, n: nat): (u32, u32)
    requires 4 * n <= |data|
  {
    if n == 0 then (0, 0)
    else
      var p := U4Sums(data, n - 1);
      var a := (p.0 as int + Word(data, n - 1) as int) % U32_MOD;
      (a, (p.1 as int + a) % U32_MOD)
  }

  /** Reference definitions: the word sum, and the sum in which word k of n
      is weighted by n - k. */
  function WordSum(data: seq<byte>, n: nat): int
    requires 4 * n <= |data|
  {
    if n == 0 then 0 else WordSum(data, n - 1) + Word(data, n - 1) as int
  }

  function WeightedWordSum(data: seq<byte>, n: nat): int
    requires 4 * n <= |data|
  {
    if n == 0 then 0 else WeightedWordSum(data, n - 1) + WordSum(data, n)
  }

  function WeightedWordSumDirect(data: seq<byte>, n: nat, m: nat): int
    requires m <= n && 4 * n <= |data|
  {
    if m == 0 then 0 else WeightedWordSumDirect(data, n, m - 1) + (n - (m - 1)) * Word(data, m - 1) as int
  }

  /** Computes the word checksum pair over the first numBytes / 4 words of
      data; one to three trailing bytes take no part. */
  method GetUbxChecksumU4(data: seq<byte>, numBytes: nat) returns (chkA: u32, chkB: u32)
    requires numBytes / 4 * 4 <= |data|
    ensures (chkA, chkB) == U4Sums(data, numBytes / 4)
    ensures chkA == WordSum(data, numBytes / 4) % U32_MOD
    ensures chkB == WeightedWordSum(data, numBytes / 4) % U32_MOD
  {
    var words := numBytes / 4;
    chkA, chkB := 0, 0;
    var k := 0;
    while k < words
      invariant 0 <= k <= words
      invariant (chkA, chkB) == U4Sums(data, k)
    {
      chkA := (chkA as int + Word(data, k) as int) % U32_MOD;
      chkB := (chkB as int + chkA as int) % U32_MOD;
      k := k + 1;
    }
    U4SumsClosedForm(data, words);
  }

  /** TRUE exactly when the two words right after the first numBytes / 4
      words hold chk_a and chk_b. */
  method CheckUbxChecksumU4(data: seq<byte>, numBytes: nat) returns (ok: bool)
    requires numBytes / 4 * 4 + 8 <= |data|
    ensures ok == ChecksumU4Holds(data, numBytes)
  {
    var a, b := GetUbxChecksumU4(data, numBytes);
    var k := numBytes / 4;
    ok := a == Word(data, k) && b == Word(data, k + 1);
  }

  predicate ChecksumU4Holds(data: seq<byte>, numBytes: nat)
    requires numBytes / 4 * 4 + 8 <= |data|
  {
    var k := numBytes / 4;
    U4Sums(data, k) == (Word(data, k), Word(data, k + 1))
  }

  lemma {:induction false} U4SumsClosedForm(data: seq<byte>, n: nat)
    requires 4 * n <= |data|
    ensures U4Sums(data, n).0 == WordSum(data, n) % U32_MOD
    ensures U4Sums(data, n).1 == WeightedWordSum(data, n) % U32_MOD
  {
    if n > 0 {
      U4SumsClosedForm(data, n - 1);
      ModAddLeft(WordSum(data, n - 1), Word(data, n - 1) as int, U32_MOD);
      ModAddLeft(WeightedWordSum(data, n - 1), WordSum(data, n) % U32_MOD, U32_MOD);
      ModAddLeft(WordSum(data, n), WeightedWordSum(data, n - 1), U32_MOD);
    }
  }

  /** chk_b weights word k of n by n - k. */
  lemma {:induction false} WeightedWordSumIsDirect(data: seq<byte>, n: nat)
    requires 4 * n <= |data|
    ensures WeightedWordSum(data, n) == WeightedWordSumDirect(data, n, n)
  {
    if n > 0 {
      WeightedWordSumIsDirect(data, n - 1);
      DirectShift(data, n, n - 1);
    }
  }

  lemma {:induction false} DirectShift(data: seq<byte>, n: nat, m: nat)
    requires 0 < n && m <= n - 1 && 4 * n <= |data|
    ensures WeightedWordSumDirect(data, n, m) == WeightedWordSumDirect(data, n - 1, m) + WordSum(data, m)
  {
    if m > 0 {
      DirectShift(data, n, m - 1);
    }
  }

  /** The pair depends only on the words it covers. */
  lemma {:induction false} U4SumsPrefix(data: seq<byte>, other: seq<byte>, n: nat)
    requires 4 * n <= |data| && 4 * n <= |other|
    requires data[..4 * n] == other[..4 * n]
    ensures U4Sums(data, n) == U4Sums(other, n)
  {
    if n > 0 {
      assert data[..4 * (n - 1)] == data[..4 * n][..4 * (n - 1)];
      assert other[..4 * (n - 1)] == other[..4 * n][..4 * (n - 1)];
      U4SumsPrefix(data, other, n - 1);
      var j := 4 * (n - 1);
      var d, o := data[..4 * n], other[..4 * n];
      assert data[j] == d[j] == o[j] == other[j];
      assert data[j + 1] == d[j + 1] == o[j + 1] == other[j + 1];
      assert data[j + 2] == d[j + 2] == o[j + 2] == other[j + 2];
      assert data[j + 3] == d[j + 3] == o[j + 3] == other[j + 3];
    }
  }

  /** Storing the computed pair right after the covered words makes the
      check succeed. */
  lemma StoredChecksumVerifies(data: seq<byte>, numBytes: nat, rest: seq<byte>)
    requires numBytes / 4 * 4 <= |data|
    ensures var k := numBytes / 4;
            var s := data[..4 * k] + EncodeLE32(U4Sums(data, k).0) + EncodeLE32(U4Sums(data, k).1) + rest;
            ChecksumU4Holds(s, numBytes)
  {
    var k := numBytes / 4;
    var p := U4Sums(data, k);
    var pre := data[..4 * k];
    var s := pre + EncodeLE32(p.0) + EncodeLE32(p.1) + rest;
    PrefixKept(pre, EncodeLE32(p.0), EncodeLE32(p.1), rest);
    U4SumsPrefix(data, s, k);
    PairAfter(pre, k, p.0, p.1, rest);
  }

  lemma PrefixKept(pre: seq<byte>, a: seq<byte>, b: seq<byte>, rest: seq<byte>)
    ensures (pre + a + b + rest)[..|pre|] == pre
  {
    assert pre + a + b + rest == pre + (a + b + rest);
  }

  lemma PairAfter(pre: seq<byte>, k: nat, x: u32, y: u32, rest: seq<byte>)
    requires |pre| == 4 * k
    ensures var s := pre + EncodeLE32(x) + EncodeLE32(y) + rest;
            4 * k + 8 <= |s| && Word(s, k) == x && Word(s, k + 1) == y
  {
    var s := pre + EncodeLE32(x) + EncodeLE32(y) + rest;
    assert s == pre + EncodeLE32(x) + (EncodeLE32(y) + rest);
    LE32OfWritten(pre, x, EncodeLE32(y) + rest);
    LE32OfWritten(pre + EncodeLE32(x), y, rest);
  }
}
