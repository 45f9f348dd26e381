// Byte-level helpers shared by every module: the fixed-width unsigned
// integer types of the tool (U1, U2, U4) and little-endian field access.
// The host is taken to be little-endian, as the tool's memcpy of
// multi-byte fields into UBX payloads and image headers presumes.
module Bytes {

  type byte = x: int | 0 <= x < 0x100
  type u16 = x: int | 0 <= x < 0x1_0000
  type u32 = x: int | 0 <= x < 0x1_0000_0000

  const U32_MOD: int := 0x1_0000_0000

  /** The 16-bit value stored little-endian at s[i], s[i+1]. */
  function LE16At(s: seq<byte>, i: nat): u16
    requires i + 2 <= |s|
  {
    s[i] as int + 0x100 * s[i + 1] as int
  }

  /** The 32-bit value stored little-endian at s[i..i+4]. */
  function LE32At(s: seq<byte>, i: nat): u32
    requires i + 4 <= |s|
  {
    s[i] as int + 0x100 * s[i + 1] as int + 0x1_0000 * s[i + 2] as int + 0x100_0000 * s[i + 3] as int
  }

  /** The two bytes of x, low byte first. */
  function EncodeLE16(x: u16): (r: seq<byte>)
    ensures |r| == 2 && LE16At(r, 0) == x
  {
    [x % 0x100, x / 0x100]
  }

  /** The four bytes of x, low byte first. */
  function EncodeLE32(x: u32): (r: seq<byte>)
    ensures |r| == 4 && LE32At(r, 0) == x
  {
    ByteSplit(x);
    [x % 0x100, (x / 0x100) % 0x100, (x / 0x1_0000) % 0x100, x / 0x100_0000]
  }

  /** The four little-endian bytes of x add back up to x. */
  lemma ByteSplit(x: u32)
    ensures x % 0x100 + 0x100 * ((x / 0x100) % 0x100) + 0x1_0000 * ((x / 0x1_0000) % 0x100)
            + 0x100_0000 * (x / 0x100_0000) == x
  {
    var q1 := x / 0x100;
    var q2 := q1 / 0x100;
    var q3 := q2 / 0x100;
    assert x == 0x100 * q1 + x % 0x100;
    assert q1 == 0x100 * q2 + q1 % 0x100;
    assert q2 == 0x100 * q3 + q2 % 0x100;
    assert q2 == x / 0x1_0000;
    assert q3 == x / 0x100_0000;
  }

  /** Truncation to 32 bits, as an assignment to a U4 does. */
  function ToU32(x: int): u32
  {
    x % U32_MOD
  }

  /** Truncation to 8 bits, as an assignment to a U1 does. */
  function ToU8(x: int): byte
  {
    x % 0x100
  }

  /** n NUL bytes. */
  function Zeros(n: nat): (z: seq<byte>)
    ensures |z| == n && forall i :: 0 <= i < n ==> z[i] == 0
  {
    seq(n, _ => 0)
  }

  /** Reducing a summand first does not change a remainder. */
  lemma ModAddLeft(a: int, b: int, m: int)
    requires m == 0x100 || m == U32_MOD
    ensures (a % m + b) % m == (a + b) % m
  {
    var q, r := a / m, a % m;
    var q2, r2 := (r + b) / m, (r + b) % m;
    assert a + b == m * (q + q2) + r2;
    ModUnique(a + b, q + q2, r2, m);
  }

  /** A remainder is determined by any quotient that leaves it in range. */
  lemma ModUnique(n: int, q: int, r: int, m: int)
    requires m == 0x100 || m == U32_MOD
    requires n == m * q + r && 0 <= r < m
    ensures n % m == r
  {
    if m == 0x100 {
      assert n == 0x100 * (n / 0x100) + n % 0x100;
    } else {
      assert n == 0x1_0000_0000 * (n / 0x1_0000_0000) + n % 0x1_0000_0000;
    }
  }

  /** The same for a U2 counter. */
  lemma ModAddLeftU16(a: int, b: int)
    ensures (a % 0x1_0000 + b) % 0x1_0000 == (a + b) % 0x1_0000
  {
  }

  /** The two bytes of a U2 built as hi * 256 + lo. */
  lemma SplitU16(lo: byte, hi: byte)
    ensures (hi as int * 0x100 + lo as int) % 0x100 == lo as int
    ensures (hi as int * 0x100 + lo as int) / 0x100 == hi as int
  {
  }

  /** A field read back from a sequence in which it was written. */
  lemma LE32OfWritten(pre: seq<byte>, x: u32, post: seq<byte>)
    ensures LE32At(pre + EncodeLE32(x) + post, |pre|) == x
  {
    var s := pre + EncodeLE32(x) + post;
    assert s[|pre|..|pre| + 4] == EncodeLE32(x);
  }

  /** Overwrites s[i..i+|w|] with w. */
  function Patch(s: seq<byte>, i: nat, w: seq<byte>): (r: seq<byte>)
    requires i + |w| <= |s|
    ensures |r| == |s|
    ensures r[i..i + |w|] == w
    ensures forall k :: 0 <= k < |s| && !(i <= k < i + |w|) ==> r[k] == s[k]
  {
    s[..i] + w + s[i + |w|..]
  }

  /** A field read back from where it was patched in. */
  lemma LE32OfPatch(s: seq<byte>, i: nat, x: u32)
    requires i + 4 <= |s|
    ensures LE32At(Patch(s, i, EncodeLE32(x)), i) == x
  {
    LE32OfWritten(s[..i], x, s[i + 4..]);
  }

  /** Two adjacent patches are one patch with both pieces. */
  lemma PatchAdjacent(s: seq<byte>, i: nat, u: seq<byte>, v: seq<byte>)
    requires i + |u| + |v| <= |s|
    ensures Patch(Patch(s, i, u), i + |u|, v) == Patch(s, i, u + v)
  {
    var p := Patch(Patch(s, i, u), i + |u|, v);
    var q := Patch(s, i, u + v);
    forall k | 0 <= k < |s|
      ensures p[k] == q[k]
    {
      if i <= k < i + |u| {
        assert q[k] == q[i..i + |u| + |v|][k - i];
        assert p[k] == Patch(s, i, u)[k] == Patch(s, i, u)[i..i + |u|][k - i];
      } else if i + |u| <= k < i + |u| + |v| {
        assert q[k] == q[i..i + |u| + |v|][k - i];
        assert p[k] == p[i + |u|..i + |u| + |v|][k - i - |u|];
      }
    }
  }

  /** A slice of a part placed at q is the same slice of the whole. */
  lemma SubSlice(s: seq<byte>, q: nat, t: seq<byte>, a: nat, b: nat)
    requires q + |t| <= |s| && s[q..q + |t|] == t && a <= b <= |t|
    ensures s[q + a..q + b] == t[a..b]
  {
    forall k | 0 <= k < b - a
      ensures s[q + a..q + b][k] == t[a..b][k]
    {
      assert s[q + a + k] == s[q..q + |t|][a + k];
    }
  }
}
