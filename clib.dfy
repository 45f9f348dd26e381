// The C library string routines the tool relies on (ctype.h, string.h,
// stdlib.h), on NUL-free character sequences: index |s| stands for the
// terminating NUL. Integer widths are those of an LP64 Linux host: long and
// unsigned long have 64 bits, int has 32.
module CLib {

  const ULONG_MOD: int := 0x1_0000_0000_0000_0000
  const LONG_MAX: int := 0x7FFF_FFFF_FFFF_FFFF
  const LONG_MIN: int := -0x8000_0000_0000_0000

  datatype Option<T> = None | Some(value: T)

  predicate IsSpace(c: char)
  {
    c == ' ' || c == '\t' || c == '\n' || c == '\U{000B}' || c == '\U{000C}' || c == '\r'
  }

  predicate IsDigit(c: char)
  {
    '0' <= c <= '9'
  }

  function DigitValue(c: char): (r: nat)
    requires IsDigit(c)
    ensures r < 10
  {
    c as int - '0' as int
  }

  function DigitChar(d: nat): (c: char)
    requires d < 10
    ensures IsDigit(c) && DigitValue(c) == d
  {
    ('0' as int + d) as char
  }

  // ---------------------------------------------------------------------
  // Scanning (strspn, strchr, strpbrk, strstr)
  // ---------------------------------------------------------------------

  /** The first index at or after i whose character is not in set
      (strspn measured from i). */
  function SpanIn(s: seq<char>, i: nat, chars: seq<char>): (r: nat)
    requires i <= |s|
    ensures i <= r <= |s|
    decreases |s| - i
  {
    if i < |s| && s[i] in chars then SpanIn(s, i + 1, chars) else i
  }

  /** strspn stops at the first character outside the set. */
  lemma {:induction false} SpanInSpec(s: seq<char>, i: nat, chars: seq<char>)
    requires i <= |s|
    ensures var r := SpanIn(s, i, chars);
            (forall k :: i <= k < r ==> s[k] in chars) && (r == |s| || s[r] !in chars)
    decreases |s| - i
  {
    if i < |s| && s[i] in chars {
      SpanInSpec(s, i + 1, chars);
    }
  }

  lemma {:induction false} SpanInAt(s: seq<char>, i: nat, e: nat, chars: seq<char>)
    requires i <= e <= |s|
    requires forall k :: i <= k < e ==> s[k] in chars
    requires e == |s| || s[e] !in chars
    ensures SpanIn(s, i, chars) == e
    decreases e - i
  {
    if i < e {
      SpanInAt(s, i + 1, e, chars);
    }
  }

  /** The first index at or after i holding c (strchr), None at the NUL. */
  function IndexOf(s: seq<char>, c: char, i: nat): (r: Option<nat>)
    requires i <= |s|
    ensures r.Some? ==> i <= r.value < |s| && s[r.value] == c
                        && forall k :: i <= k < r.value ==> s[k] != c
    ensures r.None? ==> forall k :: i <= k < |s| ==> s[k] != c
    decreases |s| - i
  {
    if i == |s| then None
    else if s[i] == c then Some(i)
    else IndexOf(s, c, i + 1)
  }

  lemma {:induction false} IndexOfAt(s: seq<char>, c: char, i: nat, n: nat)
    requires i <= n < |s| && s[n] == c
    requires forall k :: i <= k < n ==> s[k] != c
    ensures IndexOf(s, c, i) == Some(n)
    decreases n - i
  {
    if i < n {
      IndexOfAt(s, c, i + 1, n);
    }
  }

  /** The first index at or after i holding any character of set (strpbrk);
      None when the NUL comes first. */
  function FindAnyOf(s: seq<char>, i: nat, chars: seq<char>): (r: Option<nat>)
    requires i <= |s|
    ensures r.Some? ==> i <= r.value < |s| && s[r.value] in chars
                        && forall k :: i <= k < r.value ==> s[k] !in chars
    ensures r.None? ==> forall k :: i <= k < |s| ==> s[k] !in chars
    decreases |s| - i
  {
    if i == |s| then None
    else if s[i] in chars then Some(i)
    else FindAnyOf(s, i + 1, chars)
  }

  lemma {:induction false} FindAnyOfAt(s: seq<char>, i: nat, n: nat, chars: seq<char>)
    requires i <= n < |s| && s[n] in chars
    requires forall k :: i <= k < n ==> s[k] !in chars
    ensures FindAnyOf(s, i, chars) == Some(n)
    decreases n - i
  {
    if i < n {
      FindAnyOfAt(s, i + 1, n, chars);
    }
  }

  predicate OccursAt(s: seq<char>, key: seq<char>, k: nat)
  {
    k + |key| <= |s| && s[k..k + |key|] == key
  }

  /** The first occurrence of key at or after i (strstr). */
  function FindFrom(s: seq<char>, key: seq<char>, i: nat): (r: Option<nat>)
    requires i <= |s|
    ensures r.Some? ==> i <= r.value && OccursAt(s, key, r.value)
                        && forall k: nat :: i <= k < r.value ==> !OccursAt(s, key, k)
    ensures r.None? ==> forall k: nat :: i <= k ==> !OccursAt(s, key, k)
    decreases |s| - i
  {
    if i + |key| > |s| then None
    else if s[i..i + |key|] == key then Some(i)
    else FindFrom(s, key, i + 1)
  }

  /** strstr returns the first place the key occurs. */
  lemma {:induction false} FindFromAt(s: seq<char>, key: seq<char>, i: nat, n: nat)
    requires i <= n && OccursAt(s, key, n)
    requires forall k: nat :: i <= k < n ==> !OccursAt(s, key, k)
    ensures FindFrom(s, key, i) == Some(n)
    decreases n - i
  {
    if i < n {
      assert !OccursAt(s, key, i);
      FindFromAt(s, key, i + 1, n);
    }
  }

  /** strncmp(s, p, |p|) == 0: s begins with p. */
  predicate HasPrefix(s: seq<char>, p: seq<char>)
  {
    |p| <= |s| && s[..|p|] == p
  }

  // ---------------------------------------------------------------------
  // Decimal conversion (strtoul, strtol, atoi, atol)
  // ---------------------------------------------------------------------

  /** The first index at or after i that is not a decimal digit. */
  function DigitsEnd(s: seq<char>, i: nat): (r: nat)
    requires i <= |s|
    ensures i <= r <= |s|
    decreases |s| - i
  {
    if i < |s| && IsDigit(s[i]) then DigitsEnd(s, i + 1) else i
  }

  lemma {:induction false} DigitsEndSpec(s: seq<char>, i: nat)
    requires i <= |s|
    ensures var r := DigitsEnd(s, i);
            (forall k :: i <= k < r ==> IsDigit(s[k])) && (r == |s| || !IsDigit(s[r]))
    decreases |s| - i
  {
    if i < |s| && IsDigit(s[i]) {
      DigitsEndSpec(s, i + 1);
    }
  }

  /** The first index at or after i that is not white space. */
  function SkipSpaces(s: seq<char>, i: nat): (r: nat)
    requires i <= |s|
    ensures i <= r <= |s|
    decreases |s| - i
  {
    if i < |s| && IsSpace(s[i]) then SkipSpaces(s, i + 1) else i
  }

  lemma {:induction false} SkipSpacesSpec(s: seq<char>, i: nat)
    requires i <= |s|
    ensures var r := SkipSpaces(s, i);
            (forall k :: i <= k < r ==> IsSpace(s[k])) && (r == |s| || !IsSpace(s[r]))
    decreases |s| - i
  {
    if i < |s| && IsSpace(s[i]) {
      SkipSpacesSpec(s, i + 1);
    }
  }

  predicate AllDigits(ds: seq<char>)
  {
    forall k :: 0 <= k < |ds| ==> IsDigit(ds[k])
  }

  /** The value of a digit string, most significant digit first. */
  function DecimalValue(ds: seq<char>): nat
    requires AllDigits(ds)
  {
    if |ds| == 0 then 0 else DecimalValue(ds[..|ds| - 1]) * 10 + DigitValue(ds[|ds| - 1])
  }

  /** The value of the digits s[k..e], read in place. */
  function DecimalIn(s: seq<char>, k: nat, e: nat): nat
    requires k <= e <= |s|
    decreases e
  {
    if e == k then 0
    else DecimalIn(s, k, e - 1) * 10 + (if IsDigit(s[e - 1]) then DigitValue(s[e - 1]) else 0)
  }

  lemma {:induction false} DecimalInSlice(s: seq<char>, k: nat, e: nat)
    requires k <= e <= |s|
    requires forall j :: k <= j < e ==> IsDigit(s[j])
    ensures AllDigits(s[k..e]) && DecimalIn(s, k, e) == DecimalValue(s[k..e])
    decreases e
  {
    if e > k {
      DecimalInSlice(s, k, e - 1);
      assert s[k..e][..e - 1 - k] == s[k..e - 1];
    }
  }

  /** The shortest decimal rendering of n. */
  function Dec(n: nat): (r: seq<char>)
    ensures |r| > 0 && AllDigits(r)
  {
    if n < 10 then [DigitChar(n)] else Dec(n / 10) + [DigitChar(n % 10)]
  }

  lemma {:induction false} DecRoundTrip(n: nat)
    ensures DecimalValue(Dec(n)) == n
  {
    if n >= 10 {
      DecRoundTrip(n / 10);
      var r := Dec(n);
      assert r[..|r| - 1] == Dec(n / 10);
    }
  }

  /** The optional sign after the white space: (negative, first digit index). */
  function Sign(s: seq<char>, j: nat): (r: (bool, nat))
    requires j <= |s|
    ensures r.1 <= |s| && (r.1 == j || r.1 == j + 1)
  {
    if j < |s| && (s[j] == '+' || s[j] == '-') then (s[j] == '-', j + 1) else (false, j)
  }

  /** strtoul(s + i, &stop, 10): white space, an optional sign and decimal
      digits. Without digits the result is 0 and stop is s + i; a magnitude
      above ULONG_MAX gives ULONG_MAX; a minus sign negates modulo 2^64. */
  function StrToUL(s: seq<char>, i: nat): (r: (nat, nat))
    requires i <= |s|
    ensures r.0 < ULONG_MOD
    ensures r.1 == i || i < r.1 <= |s|
  {
    var j := SkipSpaces(s, i);
    var (neg, k) := Sign(s, j);
    var e := DigitsEnd(s, k);
    if e == k then (0, i)
    else
      var mag := DecimalIn(s, k, e);
      if mag >= ULONG_MOD then (ULONG_MOD - 1, e)
      else if neg then ((ULONG_MOD - mag) % ULONG_MOD, e)
      else (mag, e)
  }

  /** strtol(s, NULL, 10): the signed value, clamped to [LONG_MIN, LONG_MAX]. */
  function StrToL(s: seq<char>): (r: int)
    ensures LONG_MIN <= r <= LONG_MAX
  {
    var j := SkipSpaces(s, 0);
    var (neg, k) := Sign(s, j);
    var e := DigitsEnd(s, k);
    var mag: int := DecimalIn(s, k, e);
    if neg then (if -mag < LONG_MIN then LONG_MIN else -mag)
    else (if mag > LONG_MAX then LONG_MAX else mag)
  }

  /** atol: strtol in base 10 (glibc). */
  function Atol(s: seq<char>): (r: int)
    ensures LONG_MIN <= r <= LONG_MAX
  {
    StrToL(s)
  }

  /** atoi: strtol in base 10, truncated to a 32-bit int (glibc). */
  function Atoi(s: seq<char>): (r: int)
    ensures -0x8000_0000 <= r < 0x8000_0000
  {
    var v := StrToL(s) % 0x1_0000_0000;
    if v >= 0x8000_0000 then v - 0x1_0000_0000 else v
  }

  // ---------------------------------------------------------------------
  // Reading back the rendering of a number
  // ---------------------------------------------------------------------

  lemma DigitsInside(pre: seq<char>, ds: seq<char>, post: seq<char>)
    requires AllDigits(ds) && |ds| > 0
    requires |post| == 0 || !IsDigit(post[0])
    ensures var s := pre + ds + post;
            DigitsEnd(s, |pre|) == |pre| + |ds| && s[|pre|..|pre| + |ds|] == ds
  {
    var s := pre + ds + post;
    DigitsEndAt(s, |pre|, |pre| + |ds|);
  }

  lemma {:induction false} DigitsEndAt(s: seq<char>, i: nat, e: nat)
    requires i <= e <= |s|
    requires forall k :: i <= k < e ==> IsDigit(s[k])
    requires e == |s| || !IsDigit(s[e])
    ensures DigitsEnd(s, i) == e
    decreases e - i
  {
    if i < e {
      DigitsEndAt(s, i + 1, e);
    }
  }

  /** strtoul reads back a rendered number that is not followed by a digit. */
  lemma StrToULDec(pre: seq<char>, n: nat, post: seq<char>)
    requires n < ULONG_MOD
    requires |post| == 0 || !IsDigit(post[0])
    ensures StrToUL(pre + Dec(n) + post, |pre|) == (n, |pre| + |Dec(n)|)
  {
    var s := pre + Dec(n) + post;
    DigitsInside(pre, Dec(n), post);
    assert s[|pre|] == Dec(n)[0];
    DecimalInSlice(s, |pre|, |pre| + |Dec(n)|);
    DecRoundTrip(n);
  }

  /** A white-space character in front of a number changes nothing but
      where the scan starts. */
  lemma StrToULSpace(s: seq<char>, i: nat)
    requires i < |s| && IsSpace(s[i]) && StrToUL(s, i + 1).1 != i + 1
    ensures StrToUL(s, i) == StrToUL(s, i + 1)
  {
    assert SkipSpaces(s, i) == SkipSpaces(s, i + 1);
  }

  /** The same, for a rendering found at position p of s. */
  lemma StrToULAt(s: seq<char>, p: nat, n: nat)
    requires n < ULONG_MOD && p + |Dec(n)| <= |s| && s[p..p + |Dec(n)|] == Dec(n)
    requires p + |Dec(n)| == |s| || !IsDigit(s[p + |Dec(n)|])
    ensures StrToUL(s, p) == (n, p + |Dec(n)|)
  {
    var e := p + |Dec(n)|;
    assert s == s[..p] + Dec(n) + s[e..] by {
      assert s == s[..p] + s[p..e] + s[e..];
    }
    if e < |s| {
      assert s[e..][0] == s[e];
    }
    StrToULDec(s[..p], n, s[e..]);
  }

  /** atoi of a rendered number that fits an int is that number. */
  lemma AtoiDec(n: nat)
    requires n < 0x8000_0000
    ensures Atoi(Dec(n)) == n && Atol(Dec(n)) == n
  {
    StrToLDec(n);
    var v := StrToL(Dec(n));
    assert v % 0x1_0000_0000 == n;
  }

  lemma StrToLDec(n: nat)
    requires n <= LONG_MAX
    ensures StrToL(Dec(n)) == n
  {
    StrToLDecPrefix(n, []);
    assert Dec(n) + [] == Dec(n);
  }

  /** strtol reads back a rendered number that is not followed by a digit. */
  lemma StrToLDecPrefix(n: nat, post: seq<char>)
    requires n <= LONG_MAX
    requires |post| == 0 || !IsDigit(post[0])
    ensures StrToL(Dec(n) + post) == n && Atol(Dec(n) + post) == n
  {
    var d := Dec(n);
    var s := d + post;
    assert [] + d + post == s;
    DigitsInside([], d, post);
    DecimalInSlice(s, 0, |d|);
    assert s[0..|d|] == d;
    DecRoundTrip(n);
    StrToLDigits(s);
  }

  /** Text that starts with a digit is read by strtol without skipping
      space or taking a sign. */
  lemma StrToLDigits(s: seq<char>)
    requires |s| > 0 && IsDigit(s[0]) && DecimalIn(s, 0, DigitsEnd(s, 0)) <= LONG_MAX
    ensures StrToL(s) == DecimalIn(s, 0, DigitsEnd(s, 0))
  {
    assert SkipSpaces(s, 0) == 0;
    assert Sign(s, 0) == (false, 0);
  }
}
