// Properties of the yxml tokenizer: end-of-line handling (section 2.11
// of XML 1.0), the name stack, the UTF-8 encoding of references
// (section 3 of RFC 3629), character references and the predefined
// entities (section 4.6 of XML 1.0), attribute-value normalisation
// (section 3.3.3 of XML 1.0), end tags and the end of the document.
module YxmlProps {
  import opened Bytes
  import opened Yxml
  import opened YxmlStep

  // -------------------------------------------------------------------
  // End of line.
  // -------------------------------------------------------------------

  /** Between calls ignore is 0 or a line feed. */
  predicate Ready(t: Tokenizer)
  {
    Inv(t.m) && (t.ignore == 0 || t.ignore == LF)
  }

  /** A call that returns no error leaves the tokenizer ready again; a
      NUL byte changes nothing. */
  lemma NextReady(t: Tokenizer, ch: byte)
    requires Ready(t)
    ensures !Next(t, ch).1.IsError() ==> Ready(Next(t, ch).0)
    ensures ch == 0 ==> Next(t, ch) == (t, ESYN)
  {
  }

  /** Where the byte after a call is counted: a line feed or carriage
      return starts line + 1 at column 1, any other byte moves one
      column on; a line feed right after a carriage return is only
      counted in total. */
  lemma Position(t: Tokenizer, ch: byte)
    requires Inv(t.m) && ch != 0
    ensures var r := Next(t, ch).0;
      r.total == t.total + 1
      && (t.ignore == ch ==> r.line == t.line && r.column == t.column && Next(t, ch).1 == OK)
      && (t.ignore != ch && (ch == CR || ch == LF) ==> r.line == t.line + 1 && r.column == 1)
      && (t.ignore != ch && ch != CR && ch != LF ==> r.line == t.line && r.column == t.column + 1)
  {
  }

  /** "\r\n" is one line break: the carriage return does what a line
      feed does and the line feed after it is swallowed. */
  lemma CrLfIsLf(t: Tokenizer)
    requires Ready(t) && t.ignore == 0 && !Next(t, LF).1.IsError()
    ensures Next(t, CR).1 == Next(t, LF).1
    ensures Next(Next(t, CR).0, LF) == (Next(t, LF).0.(total := t.total + 2), OK)
  {
    assert Next(t, CR).0 == Next(t, LF).0.(ignore := LF);
  }

  /** "\rX" is "\nX" for every other byte X. */
  lemma CrOtherIsLf(t: Tokenizer, x: byte)
    requires Ready(t) && t.ignore == 0 && !Next(t, LF).1.IsError() && x != 0 && x != LF
    ensures Next(Next(t, CR).0, x) == Next(Next(t, LF).0, x)
  {
    assert Next(t, CR).0 == Next(t, LF).0.(ignore := LF);
  }

  // -------------------------------------------------------------------
  // The stack.
  // -------------------------------------------------------------------

  /** After every call the byte at stacklen is a NUL. */
  lemma TopIsNul(t: Tokenizer, ch: byte)
    requires Inv(t.m) && t.m.stack[t.m.stacklen] == 0
    ensures var m := Next(t, ch).0.m; m.stacklen < |m.stack| && m.stack[m.stacklen] == 0
  {
  }

  /** pushstackc over the bytes cs, stopping at the first ESTACK. */
  function PushChars(m: Machine, cs: seq<byte>): (r: (Machine, Ret))
    requires m.stacklen < |m.stack|
    ensures r.0.stacklen < |r.0.stack|
    decreases |cs|
  {
    if |cs| == 0 then (m, OK)
    else
      var p := PushChar(m, cs[0]);
      if p.1 != OK then p else PushChars(p.0, cs[1..])
  }

  /** One byte appended to the top frame. */
  lemma GrowOne(m: Machine, c: byte)
    requires 0 < m.stacklen < |m.stack| && m.stack[0] == 0 && Stacked(m.stack, m.stacklen) && c != 0
    requires PushChar(m, c).1 == OK
    ensures var p := PushChar(m, c).0; var j := PrevNul(m.stack, m.stacklen);
      p.stack[0] == 0 && Stacked(p.stack, p.stacklen) && p.stacklen == m.stacklen + 1
      && PrevNul(p.stack, p.stacklen) == j
      && p.stack[..j + 1] == m.stack[..j + 1]
      && p.stack[j + 1..p.stacklen] == m.stack[j + 1..m.stacklen] + [c]
  {
    var p := PushChar(m, c).0;
    var j := PrevNul(m.stack, m.stacklen);
    PushCharStacked(m.stack, m.stacklen, c);
    assert p.stack[j + 1..p.stacklen] == m.stack[j + 1..m.stacklen] + [c];
  }

  /** Bytes appended to the top frame: it ends with them, and the NUL it
      starts after and everything below stay. */
  lemma {:induction false} GrowTop(m: Machine, cs: seq<byte>)
    requires 0 < m.stacklen < |m.stack| && m.stack[0] == 0 && Stacked(m.stack, m.stacklen)
    requires forall i :: 0 <= i < |cs| ==> cs[i] != 0
    requires PushChars(m, cs).1 == OK
    ensures var r := PushChars(m, cs).0; var j := PrevNul(m.stack, m.stacklen);
      r.stack[0] == 0 && Stacked(r.stack, r.stacklen) && 0 < r.stacklen == m.stacklen + |cs|
      && PrevNul(r.stack, r.stacklen) == j
      && r.stack[..j + 1] == m.stack[..j + 1]
      && r.stack[j + 1..r.stacklen] == m.stack[j + 1..m.stacklen] + cs
    decreases |cs|
  {
    if |cs| > 0 {
      var p := PushChar(m, cs[0]).0;
      GrowOne(m, cs[0]);
      GrowTop(p, cs[1..]);
      var j := PrevNul(m.stack, m.stacklen);
      ConsAppend(m.stack[j + 1..m.stacklen], cs);
    }
  }

  lemma ConsAppend(z: seq<byte>, cs: seq<byte>)
    requires |cs| > 0
    ensures z + [cs[0]] + cs[1..] == z + cs
  {
    assert [cs[0]] + cs[1..] == cs;
  }

  /** pushstack, any number of pushstackc and popstack bring stacklen
      back and leave the stack below as it was; the frame held ch and
      the bytes pushed after it. */
  lemma PushPop(m: Machine, ch: byte, p: Ptr, m1: Machine, cs: seq<byte>)
    requires Sized(m) && Stacked(m.stack, m.stacklen) && ch != 0
    requires forall i :: 0 <= i < |cs| ==> cs[i] != 0
    requires PushFrame(m, ch, p) == (m1, OK) && PushChars(m1, cs).1 == OK
    ensures var r := PushChars(m1, cs).0;
      0 < r.stacklen && r.stack[0] == 0
      && PopFrame(r).stacklen == m.stacklen
      && r.stack[..m.stacklen + 1] == m.stack[..m.stacklen + 1]
      && r.stack[m.stacklen + 1..r.stacklen] == [ch] + cs
  {
    PushStacked(m.stack, m.stacklen, ch);
    FrameGrown(m1, m.stacklen, ch, cs);
  }

  /** The frame [ch] at k + 1 grown by cs. */
  lemma FrameGrown(m1: Machine, k: nat, ch: byte, cs: seq<byte>)
    requires 0 < m1.stacklen < |m1.stack| && m1.stack[0] == 0 && Stacked(m1.stack, m1.stacklen)
    requires m1.stacklen == k + 2 && PrevNul(m1.stack, m1.stacklen) == k && m1.stack[k + 1] == ch
    requires forall i :: 0 <= i < |cs| ==> cs[i] != 0
    requires PushChars(m1, cs).1 == OK
    ensures var r := PushChars(m1, cs).0;
      0 < r.stacklen && r.stack[0] == 0 && PrevNul(r.stack, r.stacklen) == k
      && r.stack[..k + 1] == m1.stack[..k + 1]
      && r.stack[k + 1..r.stacklen] == [ch] + cs
  {
    var top := m1.stack[k + 1..m1.stacklen];
    assert top == [ch];
    GrowTop(m1, cs);
  }

  // -------------------------------------------------------------------
  // UTF-8.
  // -------------------------------------------------------------------

  predicate IsCont(b: byte) { 0x80 <= b <= 0xBF }

  /** The byte patterns of section 3 of RFC 3629: a lead byte that gives
      the length, then continuation bytes 10xxxxxx. */
  predicate Utf8Form(u: seq<byte>)
  {
    (|u| == 1 && u[0] <= 0x7F)
    || (|u| == 2 && 0xC0 <= u[0] <= 0xDF && IsCont(u[1]))
    || (|u| == 3 && 0xE0 <= u[0] <= 0xEF && IsCont(u[1]) && IsCont(u[2]))
    || (|u| == 4 && 0xF0 <= u[0] <= 0xF7 && IsCont(u[1]) && IsCont(u[2]) && IsCont(u[3]))
  }

  /** The code point an RFC 3629 sequence stands for. */
  function Utf8Decode(u: seq<byte>): nat
    requires Utf8Form(u)
  {
    var b0: int, b1: int := u[0], if |u| > 1 then u[1] else 0;
    var b2: int, b3: int := if |u| > 2 then u[2] else 0, if |u| > 3 then u[3] else 0;
    if |u| == 1 then b0
    else if |u| == 2 then (b0 - 0xC0) * 0x40 + (b1 - 0x80)
    else if |u| == 3 then (b0 - 0xE0) * 0x1000 + (b1 - 0x80) * 0x40 + (b2 - 0x80)
    else (b0 - 0xF0) * 0x4_0000 + (b1 - 0x80) * 0x1000 + (b2 - 0x80) * 0x40 + (b3 - 0x80)
  }

  /** The number of bytes section 3 of RFC 3629 gives a code point. */
  function Utf8Length(ch: nat): nat
  {
    if ch <= 0x7F then 1 else if ch <= 0x7FF then 2 else if ch <= 0xFFFF then 3 else 4
  }

  lemma Split64(x: nat)
    ensures x == x / 0x40 * 0x40 + x % 0x40 && x % 0x40 < 0x40
  {
  }

  /** yxml_setutf8 writes the RFC 3629 sequence of the shortest length,
      which decodes back to ch. */
  lemma Utf8RoundTrip(ch: nat)
    requires ch <= 0x10FFFF
    ensures Utf8Form(Utf8(ch)) && |Utf8(ch)| == Utf8Length(ch) && Utf8Decode(Utf8(ch)) == ch
  {
    var q1, r1 := ch / 0x40, ch % 0x40;
    Split64(ch);
    Split64(q1);
    Split64(q1 / 0x40);
    assert ch / 0x1000 == q1 / 0x40;
    assert ch / 0x4_0000 == q1 / 0x40 / 0x40;
    assert ch / 0x1000 % 0x40 == q1 / 0x40 % 0x40;
  }

  /** The data buffer after yxml_setutf8: the sequence and a NUL. */
  lemma SetUtf8Written(d: seq<byte>, ch: nat)
    requires |d| == 8 && ch <= 0x10FFFF
    ensures var n := |Utf8(ch)|; SetUtf8(d, ch)[..n] == Utf8(ch) && SetUtf8(d, ch)[n] == 0
  {
    var n := |Utf8(ch)|;
    assert (Utf8(ch) + [0] + d[n + 1..])[..n] == Utf8(ch);
  }

  // -------------------------------------------------------------------
  // Character references and the predefined entities.
  // -------------------------------------------------------------------

  function Pow(b: nat, n: nat): (r: nat)
    requires b >= 1
    ensures r >= 1
  {
    if n == 0 then 1 else b * Pow(b, n - 1)
  }

  lemma {:induction false} PowMono(b: nat, n: nat, k: nat)
    requires b >= 1 && n <= k
    ensures Pow(b, n) <= Pow(b, k)
    decreases k
  {
    if n < k {
      PowMono(b, n, k - 1);
      var p := Pow(b, k - 1);
      assert Pow(b, k) == b * p;
      MulLe(1, b, p);
    }
  }

  lemma MulLe(a: nat, b: nat, c: nat)
    requires a <= b
    ensures a * c <= b * c
  {
  }

  /** One more digit x < b in front of a run of n - 1 digits: the
      accumulator stays below M and the positional value carries over. */
  lemma Shift(acc: nat, x: nat, b: nat, n: nat, M: nat)
    requires b >= 1 && x < b && n >= 1 && (acc + 1) * Pow(b, n) <= M
    ensures acc * b + x < M
    ensures (acc * b + x + 1) * Pow(b, n - 1) <= M
    ensures acc * Pow(b, n) + x * Pow(b, n - 1) == (acc * b + x) * Pow(b, n - 1)
  {
    var p := Pow(b, n - 1);
    var a := acc * b + x;
    assert Pow(b, n) == b * p;
    MulAssoc(acc, b, p);
    MulAssoc(acc + 1, b, p);
    MulDistrib(acc * b, x, p);
    MulDistrib(acc, 1, b);
    MulLe(a + 1, (acc + 1) * b, p);
    MulLe(1, p, a + 1);
  }

  lemma MulAssoc(a: nat, b: nat, c: nat)
    ensures a * (b * c) == (a * b) * c
  {
  }

  lemma MulDistrib(a: nat, b: nat, c: nat)
    ensures (a + b) * c == a * c + b * c
  {
  }

  /** The hexadecimal digits [0-9a-fA-F] of section 4.1 of XML 1.0. */
  predicate IsXDigit(c: byte)
  {
    0x30 <= c <= 0x39 || 0x41 <= c <= 0x46 || 0x61 <= c <= 0x66
  }

  /** What a hexadecimal digit is worth. */
  function XDigit(c: byte): nat
    requires IsXDigit(c)
  {
    if c <= 0x39 then c - 0x30 else if c <= 0x46 then c - 0x37 else c - 0x57
  }

  /** yxml_isHex accepts exactly the hexadecimal digits, and the digit
      value yxml_refend computes with c | 32 is the digit's worth. */
  lemma HexDigitMeaning(c: byte)
    ensures IsHex(c) <==> IsXDigit(c)
    ensures IsHex(c) ==> HexDigit(c) == XDigit(c) < 16
  {
    if 0x41 <= c <= 0x46 {
      assert c / 32 % 2 == 0;
    } else if 0x61 <= c <= 0x66 {
      assert c / 32 % 2 == 1;
    } else if !(0x30 <= c <= 0x39) {
      assert !(0x61 <= Or32(c) <= 0x66) by {
        if c / 32 % 2 == 0 {
          assert c < 0x41 || 0x46 < c;
          assert c / 32 == 0 || c / 32 == 2 || c / 32 == 4 || c / 32 == 6 || 0x46 < c < 0x60;
        }
      }
    }
  }

  predicate AllXDigits(ds: seq<byte>)
  {
    forall k :: 0 <= k < |ds| ==> IsXDigit(ds[k])
  }

  predicate AllNum(ds: seq<byte>)
  {
    forall k :: 0 <= k < |ds| ==> IsNum(ds[k])
  }

  /** The number hexadecimal digits stand for, most significant first. */
  function HexValue(ds: seq<byte>): nat
    requires AllXDigits(ds)
  {
    if |ds| == 0 then 0 else XDigit(ds[0]) * Pow(16, |ds| - 1) + HexValue(ds[1..])
  }

  /** The number decimal digits stand for, most significant first. */
  function DecValue(ds: seq<byte>): nat
    requires AllNum(ds)
  {
    if |ds| == 0 then 0 else (ds[0] - 0x30) * Pow(10, |ds| - 1) + DecValue(ds[1..])
  }

  /** The hex loop of yxml_refend over a run of digits ds: it stops right
      after them with their value; the 32-bit shift never wraps while
      (acc + 1) * 16^|ds| fits. */
  lemma {:induction false} HexRunValue(d: seq<byte>, i: nat, acc: u32, ds: seq<byte>)
    requires i + |ds| < |d| && d[|d| - 1] == 0
    requires d[i..i + |ds|] == ds && AllXDigits(ds) && !IsHex(d[i + |ds|])
    requires (acc + 1) * Pow(16, |ds|) <= U32_MOD
    ensures HexRun(d, i, acc) == (acc * Pow(16, |ds|) + HexValue(ds), i + |ds|)
    decreases |ds|
  {
    if |ds| > 0 {
      assert d[i] == ds[0];
      var n, x := |ds|, XDigit(ds[0]);
      Shift(acc, x, 16, n, U32_MOD);
      var a := acc * 16 + x;
      HexRunStep(d, i, acc, a);
      assert d[i + 1..i + 1 + |ds[1..]|] == ds[1..];
      HexRunValue(d, i + 1, a, ds[1..]);
      assert HexValue(ds) == x * Pow(16, n - 1) + HexValue(ds[1..]);
    }
  }

  lemma HexRunStep(d: seq<byte>, i: nat, acc: u32, a: nat)
    requires i < |d| && d[|d| - 1] == 0 && IsXDigit(d[i])
    requires a == acc * 16 + XDigit(d[i]) < U32_MOD
    ensures HexRun(d, i, acc) == HexRun(d, i + 1, a)
  {
    HexDigitMeaning(d[i]);
  }

  /** The decimal loop of yxml_refend over a run of digits ds. */
  lemma {:induction false} DecRunValue(d: seq<byte>, i: nat, acc: u32, ds: seq<byte>)
    requires i + |ds| < |d| && d[|d| - 1] == 0
    requires d[i..i + |ds|] == ds && AllNum(ds) && !IsNum(d[i + |ds|])
    requires (acc + 1) * Pow(10, |ds|) <= U32_MOD
    ensures DecRun(d, i, acc) == (acc * Pow(10, |ds|) + DecValue(ds), i + |ds|)
    decreases |ds|
  {
    if |ds| > 0 {
      assert d[i] == ds[0];
      var n, x := |ds|, ds[0] - 0x30;
      Shift(acc, x, 10, n, U32_MOD);
      var a := acc * 10 + x;
      DecRunStep(d, i, acc, a);
      assert d[i + 1..i + 1 + |ds[1..]|] == ds[1..];
      DecRunValue(d, i + 1, a, ds[1..]);
      assert DecValue(ds) == x * Pow(10, n - 1) + DecValue(ds[1..]);
    }
  }

  lemma DecRunStep(d: seq<byte>, i: nat, acc: u32, a: nat)
    requires i < |d| && d[|d| - 1] == 0 && IsNum(d[i])
    requires a == acc * 10 + (d[i] - 0x30) < U32_MOD
    ensures DecRun(d, i, acc) == DecRun(d, i + 1, a)
  {
  }

  /** The hex loop passes only hex digits. */
  lemma {:induction false} HexRunSpan(d: seq<byte>, i: nat, acc: u32)
    requires i < |d| && d[|d| - 1] == 0
    ensures forall k :: i <= k < HexRun(d, i, acc).1 ==> IsHex(d[k])
    decreases |d| - i
  {
    if IsHex(d[i]) {
      HexRunSpan(d, i + 1, ToU32(acc * 16 + HexDigit(d[i])));
    }
  }

  /** The decimal loop passes only decimal digits. */
  lemma {:induction false} DecRunSpan(d: seq<byte>, i: nat, acc: u32)
    requires i < |d| && d[|d| - 1] == 0
    ensures forall k :: i <= k < DecRun(d, i, acc).1 ==> IsNum(d[k])
    decreases |d| - i
  {
    if IsNum(d[i]) {
      DecRunSpan(d, i + 1, ToU32(acc * 10 + (d[i] - 0x30)));
    }
  }

  /** The character the predefined entity name stands for (section 4.6 of
      XML 1.0), 0 for any other name. */
  function EntityValue(name: seq<byte>): nat
  {
    if name == [0x6C, 0x74] then LT as int                   // lt
    else if name == [0x67, 0x74] then GT as int              // gt
    else if name == [0x61, 0x6D, 0x70] then AMP as int       // amp
    else if name == [0x61, 0x70, 0x6F, 0x73] then APOS as int   // apos
    else if name == [0x71, 0x75, 0x6F, 0x74] then QUOT as int   // quot
    else 0
  }

  /** What the bytes between & and ; name: &#xH...; and &#D...; the
      number their digits stand for (0 if anything else follows), any
      other name a predefined entity or 0. */
  function RefMeaning(cs: seq<byte>): nat
  {
    if |cs| >= 2 && cs[0] == HASH && cs[1] == 0x78 then
      if AllXDigits(cs[2..]) then HexValue(cs[2..]) else 0
    else if |cs| >= 1 && cs[0] == HASH then
      if AllNum(cs[1..]) then DecValue(cs[1..]) else 0
    else EntityValue(cs)
  }

  predicate AllNonNul(cs: seq<byte>)
  {
    forall k :: 0 <= k < |cs| ==> cs[k] != 0
  }

  /** A name held NUL-padded in the first n bytes of w. */
  predicate PaddedIn(w: seq<byte>, cs: seq<byte>, n: nat)
  {
    |cs| <= n == |w| && w[..|cs|] == cs && forall k :: |cs| <= k < n ==> w[k] == 0
  }

  /** Two NUL-free names padded to the same length are equal exactly
      when the names are. */
  lemma PadEq(w: seq<byte>, cs: seq<byte>, v: seq<byte>, e: seq<byte>, n: nat)
    requires PaddedIn(w, cs, n) && PaddedIn(v, e, n) && AllNonNul(cs) && AllNonNul(e)
    ensures w == v <==> cs == e
  {
    if |cs| < |e| {
      assert w[|cs|] == 0 && v[|cs|] == e[|cs|];
    } else if |e| < |cs| {
      assert v[|e|] == 0 && w[|e|] == cs[|e|];
    } else if cs == e {
      assert forall k :: 0 <= k < n ==> w[k] == v[k] by {
        forall k | 0 <= k < n
          ensures w[k] == v[k]
        {
          if k < |cs| {
            assert w[k] == w[..|cs|][k] && v[k] == v[..|e|][k];
          }
        }
      }
    }
  }

  /** The first five bytes of a NUL-padded name select the entity
      exactly when the name is that entity. */
  lemma NamedCharMeaning(cs: seq<byte>)
    requires |cs| <= 7 && AllNonNul(cs)
    ensures NamedChar(cs + Zeros(8 - |cs|)) == EntityValue(cs)
  {
    var d := cs + Zeros(8 - |cs|);
    if |cs| <= 5 {
      var w := d[..5];
      assert PaddedIn(w, cs, 5);
      NamedPadded(w, cs);
    } else {
      assert d[..5] == cs[..5] && d[4] != 0;
    }
  }

  /** NamedChar only reads w, the name padded to five bytes. */
  lemma NamedPadded(w: seq<byte>, cs: seq<byte>)
    requires PaddedIn(w, cs, 5) && AllNonNul(cs)
    ensures NamedChar(w) == EntityValue(cs)
  {
    PadEq(w, cs, [0x6C, 0x74, 0, 0, 0], [0x6C, 0x74], 5);
    PadEq(w, cs, [0x67, 0x74, 0, 0, 0], [0x67, 0x74], 5);
    PadEq(w, cs, [0x61, 0x6D, 0x70, 0, 0], [0x61, 0x6D, 0x70], 5);
    PadEq(w, cs, [0x61, 0x70, 0x6F, 0x73, 0], [0x61, 0x70, 0x6F, 0x73], 5);
    PadEq(w, cs, [0x71, 0x75, 0x6F, 0x74, 0], [0x71, 0x75, 0x6F, 0x74], 5);
  }

  /** yxml_refend reads the NUL-padded reference bytes cs as the
      character they name; digit runs never wrap, since at most five hex
      or six decimal digits fit the buffer. */
  lemma RefValueMeaning(cs: seq<byte>)
    requires |cs| <= 7 && AllNonNul(cs)
    ensures RefValue(cs + Zeros(8 - |cs|)) == RefMeaning(cs)
  {
    if |cs| >= 2 && cs[0] == HASH && cs[1] == 0x78 {
      HexRefValue(cs);
    } else if |cs| >= 1 && cs[0] == HASH {
      DecRefValue(cs);
    } else {
      NamedCharMeaning(cs);
    }
  }

  /** &#x...; : the hex digits' value, 0 when anything else follows. */
  lemma HexRefValue(cs: seq<byte>)
    requires 2 <= |cs| <= 7 && AllNonNul(cs) && cs[0] == HASH && cs[1] == 0x78
    ensures var d := cs + Zeros(8 - |cs|); var run := HexRun(d, 2, 0);
      d[run.1] == 0 <==> AllXDigits(cs[2..])
    ensures var d := cs + Zeros(8 - |cs|);
      AllXDigits(cs[2..]) ==> HexRun(d, 2, 0).0 == HexValue(cs[2..])
  {
    if AllXDigits(cs[2..]) {
      HexRefDigits(cs);
    } else {
      HexRefStops(cs);
    }
  }

  /** Hex digits up to the padding: the loop reads them all. */
  lemma HexRefDigits(cs: seq<byte>)
    requires 2 <= |cs| <= 7 && AllNonNul(cs) && cs[0] == HASH && cs[1] == 0x78
    requires AllXDigits(cs[2..])
    ensures var d := cs + Zeros(8 - |cs|); HexRun(d, 2, 0) == (HexValue(cs[2..]), |cs|)
  {
    var d := cs + Zeros(8 - |cs|);
    var ds := cs[2..];
    assert d[2..2 + |ds|] == ds;
    PowMono(16, |ds|, 5);
    HexRunValue(d, 2, 0, ds);
  }

  /** A byte that is not a hex digit stops the loop short of the padding. */
  lemma HexRefStops(cs: seq<byte>)
    requires 2 <= |cs| <= 7 && AllNonNul(cs) && cs[0] == HASH && cs[1] == 0x78
    requires !AllXDigits(cs[2..])
    ensures var d := cs + Zeros(8 - |cs|); d[HexRun(d, 2, 0).1] != 0
  {
    var d := cs + Zeros(8 - |cs|);
    HexRunSpan(d, 2, 0);
    var j := HexRun(d, 2, 0).1;
    var k :| 2 <= k < |cs| && !IsXDigit(cs[k]);
    assert d[k] == cs[k];
    HexDigitMeaning(d[k]);
    assert j <= k;
    assert d[j] == cs[j];
  }

  /** &#...; : the decimal digits' value, 0 when anything else follows. */
  lemma DecRefValue(cs: seq<byte>)
    requires 1 <= |cs| <= 7 && AllNonNul(cs) && cs[0] == HASH
    ensures var d := cs + Zeros(8 - |cs|); var run := DecRun(d, 1, 0);
      d[run.1] == 0 <==> AllNum(cs[1..])
    ensures var d := cs + Zeros(8 - |cs|);
      AllNum(cs[1..]) ==> DecRun(d, 1, 0).0 == DecValue(cs[1..])
  {
    var d := cs + Zeros(8 - |cs|);
    DecRunSpan(d, 1, 0);
    var j := DecRun(d, 1, 0).1;
    if AllNum(cs[1..]) {
      var ds := cs[1..];
      assert d[1..1 + |ds|] == ds;
      PowMono(10, |ds|, 6);
      DecRunValue(d, 1, 0, ds);
    } else {
      var k :| 1 <= k < |cs| && !IsNum(cs[k]);
      assert d[k] == cs[k];
      assert j <= k;
      assert d[j] == cs[j];
    }
  }

  /** yxml_ref over the bytes cs, stopping at the first EREF. */
  function RefChars(m: Machine, cs: seq<byte>): (Machine, Ret)
    requires |m.data| == 8
    decreases |cs|
  {
    if |cs| == 0 then (m, OK)
    else
      var r := RefChar(m, cs[0]);
      if r.1 != OK then r else RefChars(r.0, cs[1..])
  }

  /** After yxml_refstart the buffer holds the reference bytes read so
      far and NULs; the eighth byte is refused with EREF. */
  lemma {:induction false} RefCollect(m: Machine, pre: seq<byte>, cs: seq<byte>)
    requires |pre| <= 7 && m.data == pre + Zeros(8 - |pre|) && m.reflen == |pre|
    ensures |pre| + |cs| <= 7 ==>
      RefChars(m, cs) == (m.(data := pre + cs + Zeros(8 - |pre| - |cs|), reflen := |pre| + |cs|), OK)
    ensures |pre| + |cs| > 7 ==> RefChars(m, cs).1 == EREF
    decreases |cs|
  {
    if |cs| == 0 {
      assert pre + cs == pre;
    } else if |pre| < 7 {
      var m1 := RefChar(m, cs[0]).0;
      var pre1 := pre + [cs[0]];
      assert m1.data == pre1 + Zeros(8 - |pre1|);
      RefCollect(m1, pre1, cs[1..]);
      assert pre1 + cs[1..] == pre + cs;
      if |pre| + |cs| <= 7 {
        assert pre1 + cs[1..] + Zeros(8 - |pre| - |cs|) == pre + cs + Zeros(8 - |pre| - |cs|);
      }
    }
  }

  /** The Char production of XML 1.1 (section 2.2). */
  predicate XmlChar(ch: nat)
  {
    (1 <= ch <= 0xD7FF) || (0xE000 <= ch <= 0xFFFD) || (0x10000 <= ch <= 0x10FFFF)
  }

  /** The surrogate test as evidently intended, (ch - 0xD800) < 0x800 in
      unsigned arithmetic, with the other tests of yxml_refend. */
  predicate RefusedIntended(ch: u32)
  {
    ch == 0 || ch > 0x10FFFF || ch == 0xFFFE || ch == 0xFFFF || ToU32(ch - 0xD800) < 0x800
  }

  /** The intended test refuses exactly the code points that are not a Char. */
  lemma RefusedMeaning(ch: u32)
    ensures RefusedIntended(ch) <==> !XmlChar(ch)
  {
    if ch < 0xD800 {
      assert ToU32(ch - 0xD800) == ch - 0xD800 + U32_MOD;
    }
  }

  /** The test as written refuses 0xDFFF to 0xE7FD in place of the
      surrogates. */
  lemma RefusedExactly(ch: u32)
    ensures Refused(ch) <==> ch == 0 || ch > 0x10FFFF || ch == 0xFFFE || ch == 0xFFFF || 0xDFFF <= ch <= 0xE7FD
  {
    if ch < 0xDFFF {
      assert ToU32(ch - 0xDFFF) == ch - 0xDFFF + U32_MOD;
    }
  }

  /** The test as written lets the surrogate U+D800 through and refuses
      the private-use Char U+E000. */
  lemma RefusedAsWrittenWrong()
    ensures !XmlChar(0xD800) && !Refused(0xD800)
    ensures XmlChar(0xE000) && Refused(0xE000)
  {
    assert ToU32(0xD800 - 0xDFFF) == U32_MOD - 0x7FF;
  }

  /** A reference written as the NUL-padded bytes cs ends in EREF exactly
      when yxml_refend's test refuses the code point it names, and
      otherwise in the UTF-8 encoding of that code point, which decodes
      back to it. */
  lemma RefEndMeaning(m: Machine, cs: seq<byte>, ret: Ret)
    requires |cs| <= 7 && AllNonNul(cs) && m.data == cs + Zeros(8 - |cs|) && ret != EREF
    ensures var ch := RefValue(m.data); var r := RefEnd(m, ret);
      ch == RefMeaning(cs)
      && (r.1 == EREF <==> Refused(ch))
      && (!Refused(ch) ==>
            r.1 == ret && Utf8Form(r.0.data[..|Utf8(ch)|])
            && Utf8Decode(r.0.data[..|Utf8(ch)|]) == ch && r.0.data[|Utf8(ch)|] == 0)
  {
    var ch := RefValue(m.data);
    RefValueMeaning(cs);
    if !Refused(ch) {
      Utf8RoundTrip(ch);
      SetUtf8Written(m.data, ch);
    }
  }

  // -------------------------------------------------------------------
  // Attribute values, end tags and the end of the document.
  // -------------------------------------------------------------------

  /** In an attribute value a tab, line feed or carriage return comes out
      as a space (section 3.3.3 of XML 1.0), and so does a space. */
  lemma AttrWhitespace(t: Tokenizer, ch: byte)
    requires Inv(t.m) && t.m.state.Attr3? && (t.m.quote == APOS || t.m.quote == QUOT)
    requires ch == TAB || ch == LF || ch == CR || ch == SP
    requires t.ignore != ch
    ensures var r := Next(t, ch);
      r.1 == ATTRVAL && r.0.m.state.Attr3? && r.0.m.data[..2] == [SP, 0]
  {
  }

  /** yxml_parse over the bytes bs: the token of the last call, or the
      first error. */
  function Feed(t: Tokenizer, bs: seq<byte>): (Tokenizer, Ret)
    requires Inv(t.m)
    decreases |bs|
  {
    if |bs| == 0 then (t, OK)
    else
      var r := Next(t, bs[0]);
      if r.1.IsError() || |bs| == 1 then r else Feed(r.0, bs[1..])
  }

  /** One byte of an end tag's name. */
  lemma EtagByte(t: Tokenizer, ch: byte)
    requires Ready(t) && t.m.state.Etag1? && IsName(ch)
    ensures var r := Next(t, ch);
      r.1 == (if t.m.stack[t.m.elem] == ch then OK else ECLOSE)
      && (r.1 == OK ==> Ready(r.0) && r.0.m == t.m.(elem := t.m.elem + 1))
  {
  }

  /** The '>' of an end tag. */
  lemma EtagClose(t: Tokenizer)
    requires Ready(t) && t.m.state.Etag1?
    ensures Next(t, GT).1 == (if t.m.elem == t.m.stacklen then ELEMEND else ECLOSE)
  {
    var m := t.m;
    assert ElemStart(m) == FrameStart(m.stack, m.stacklen);
    assert m.elem < m.stacklen ==> m.stack[m.elem] != 0;
  }

  /** An end tag is accepted, with ELEMEND at its '>', exactly when its
      name is the rest of the open element's name (section 3 of XML 1.0,
      Element Type Match). */
  lemma {:induction false} EtagRest(t: Tokenizer, rest: seq<byte>)
    requires Ready(t) && t.m.state.Etag1?
    requires forall k :: 0 <= k < |rest| ==> IsName(rest[k])
    ensures Feed(t, rest + [GT]).1 == (if rest == t.m.stack[t.m.elem..t.m.stacklen] then ELEMEND else ECLOSE)
    decreases |rest|
  {
    var m := t.m;
    if |rest| == 0 {
      EtagClose(t);
      assert rest + [GT] == [GT];
    } else {
      assert rest + [GT] == [rest[0]] + (rest[1..] + [GT]);
      var matched, t1 := EtagAdvance(t, rest[0], rest[1..] + [GT]);
      if matched {
        EtagRest(t1, rest[1..]);
      }
      SliceMatch(rest, m.stack, m.elem, m.stacklen);
    }
  }

  /** One name byte of an end tag followed by more input: a byte that
      matches the open element's name moves elem on and the rest is fed
      from there; any other byte ends the input with ECLOSE. */
  lemma EtagAdvance(t: Tokenizer, ch: byte, bs: seq<byte>) returns (matched: bool, t1: Tokenizer)
    requires Ready(t) && t.m.state.Etag1? && IsName(ch) && |bs| > 0
    ensures matched == (t.m.stack[t.m.elem] == ch)
    ensures matched ==> Ready(t1) && t1.m == t.m.(elem := t.m.elem + 1) && Feed(t, [ch] + bs) == Feed(t1, bs)
    ensures !matched ==> Feed(t, [ch] + bs).1 == ECLOSE
  {
    EtagByte(t, ch);
    FeedCons(t, ch, bs);
    matched := t.m.stack[t.m.elem] == ch;
    t1 := Next(t, ch).0;
  }

  /** A non-empty sequence is the slice s[i..j] exactly when its head is
      s[i] and its tail is s[i + 1..j]. */
  lemma SliceMatch<T>(a: seq<T>, s: seq<T>, i: nat, j: nat)
    requires |a| > 0 && i <= j <= |s|
    ensures a == s[i..j] <==> i < j && a[0] == s[i] && a[1..] == s[i + 1..j]
  {
    if i < j && a[0] == s[i] && a[1..] == s[i + 1..j] {
      assert a == [a[0]] + a[1..];
    }
  }

  /** Feeding a byte and then more is the call on that byte followed,
      unless it failed, by the rest. */
  lemma FeedCons(t: Tokenizer, ch: byte, bs: seq<byte>)
    requires Ready(t) && |bs| > 0
    ensures var r := Next(t, ch);
      Feed(t, [ch] + bs) == if r.1.IsError() then r else Feed(r.0, bs)
  {
    NextReady(t, ch);
    assert ([ch] + bs)[1..] == bs;
  }

  /** yxml_eof accepts only once the root element has closed: the stack
      is empty and elem back at offset 0. */
  lemma EofAfterRoot(m: Machine)
    requires Inv(m) && Eof(m) == OK
    ensures m.stacklen == 0 && m.elem == 0
  {
    assert Depth(m.stack, m.stacklen) == 0;
  }
}
