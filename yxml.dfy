// yxml.c: the byte-at-a-time XML tokenizer that reads the flash
// organisation file. This module states one call of yxml_parse on
// values: a Machine holds the fields of yxml_t the state machine works
// on, with the caller's stack buffer and the data buffer as sequences, a
// Tokenizer adds the end-of-line and position bookkeeping, and Next is
// yxml_parse. The object that keeps these fields and is updated in place
// is YxmlParser.Parser.
module Yxml {
  import opened Bytes

  /** yxml_ret_t: the five errors and the ten tokens. */
  datatype Ret = EEOF | EREF | ECLOSE | ESTACK | ESYN
    | OK | ELEMSTART | CONTENT | ELEMEND | ATTRSTART | ATTRVAL | ATTREND
    | PISTART | PICONTENT | PIEND
  {
    /** The codes below YXML_OK. */
    predicate IsError()
    {
      this.EEOF? || this.EREF? || this.ECLOSE? || this.ESTACK? || this.ESYN?
    }
  }

  /** yxml_state_t, in the order of the source. */
  datatype State =
    | String | Attr0 | Attr1 | Attr2 | Attr3 | Attr4 | Cd0 | Cd1 | Cd2
    | Comment0 | Comment1 | Comment2 | Comment3 | Comment4
    | Dt0 | Dt1 | Dt2 | Dt3 | Dt4 | Elem0 | Elem1 | Elem2 | Elem3
    | Enc0 | Enc1 | Enc2 | Enc3 | Etag0 | Etag1 | Etag2 | Init
    | Le0 | Le1 | Le2 | Le3 | Lee1 | Lee2 | Leq0
    | Misc0 | Misc1 | Misc2 | Misc2a | Misc3 | Pi0 | Pi1 | Pi2 | Pi3 | Pi4
    | Std0 | Std1 | Std2 | Std3 | Ver0 | Ver1 | Ver2 | Ver3
    | Xmldecl0 | Xmldecl1 | Xmldecl2 | Xmldecl3 | Xmldecl4 | Xmldecl5 | Xmldecl6 | Xmldecl7

  // The characters the state machine tests for.
  const TAB: byte := 0x09
  const LF: byte := 0x0A
  const CR: byte := 0x0D
  const SP: byte := 0x20
  const BANG: byte := 0x21      // !
  const QUOT: byte := 0x22      // "
  const HASH: byte := 0x23      // #
  const AMP: byte := 0x26       // &
  const APOS: byte := 0x27      // '
  const DASH: byte := 0x2D      // -
  const DOT: byte := 0x2E       // .
  const SLASH: byte := 0x2F     // /
  const COLON: byte := 0x3A     // :
  const SEMI: byte := 0x3B      // ;
  const LT: byte := 0x3C        // <
  const EQ: byte := 0x3D        // =
  const GT: byte := 0x3E        // >
  const QM: byte := 0x3F        // ?
  const LBRACKET: byte := 0x5B  // [
  const RBRACKET: byte := 0x5D  // ]
  const UNDERSCORE: byte := 0x5F
  const BOM_FIRST: byte := 0xEF

  // The rest of each keyword the String state matches.
  const BOM_REST: seq<byte> := [0xBB, 0xBF]
  const OCTYPE: seq<byte> := [0x4F, 0x43, 0x54, 0x59, 0x50, 0x45]            // "OCTYPE"
  const CDATA: seq<byte> := [0x43, 0x44, 0x41, 0x54, 0x41, 0x5B]             // "CDATA["
  const ML: seq<byte> := [0x6D, 0x6C]                                        // "ml"
  const ERSION: seq<byte> := [0x65, 0x72, 0x73, 0x69, 0x6F, 0x6E]            // "ersion"
  const NCODING: seq<byte> := [0x6E, 0x63, 0x6F, 0x64, 0x69, 0x6E, 0x67]     // "ncoding"
  const TANDALONE: seq<byte> := [0x74, 0x61, 0x6E, 0x64, 0x61, 0x6C, 0x6F, 0x6E, 0x65]  // "tandalone"
  const ES: seq<byte> := [0x65, 0x73]                                        // "es"
  const O: seq<byte> := [0x6F]                                               // "o"
  const ONE_DOT: seq<byte> := [0x31, 0x2E]                                   // "1."

  /** c | 32: bit 5 set, which maps ASCII capitals onto small letters. */
  function Or32(c: byte): byte
  {
    if c / 32 % 2 == 1 then c else c + 32
  }

  // The character classes, as the unsigned comparisons of the source
  // evaluate them.
  predicate IsSP(c: byte) { c == SP || c == TAB || c == LF }
  predicate IsAlpha(c: byte) { 0x61 <= Or32(c) <= 0x7A }
  predicate IsNum(c: byte) { 0x30 <= c <= 0x39 }
  predicate IsHex(c: byte) { IsNum(c) || 0x61 <= Or32(c) <= 0x66 }
  predicate IsEncName(c: byte) { IsAlpha(c) || IsNum(c) || c == DOT || c == UNDERSCORE || c == DASH }
  predicate IsNameStart(c: byte) { IsAlpha(c) || c == COLON || c == UNDERSCORE || c >= 128 }
  predicate IsName(c: byte) { IsNameStart(c) || IsNum(c) || c == DASH || c == DOT }
  predicate IsAttValue(c: byte, quote: byte) { c != quote && c != LT && c != AMP }
  predicate IsRef(c: byte) { IsNum(c) || IsAlpha(c) || c == HASH }

  /** The fields of yxml_t the state machine reads and writes. The stack
      is the caller's buffer of stacksize bytes, elem, attr and pi are
      offsets into it, str is what is left of the keyword x->string
      points into, and data is the 8-byte token buffer. */
  datatype Machine = Machine(
    state: State, nextstate: State,
    stack: seq<byte>, stacklen: nat,
    elem: nat, attr: nat, pi: nat,
    str: seq<byte>, data: seq<byte>, reflen: nat, quote: byte)

  /** All of yxml_t: the machine and the fields yxml_parse updates before
      it looks at the state. */
  datatype Tokenizer = Tokenizer(m: Machine, ignore: byte, line: nat, column: nat, total: nat)

  /** Where pushstack stores the offset of the new frame. */
  datatype Ptr = ElemPtr | AttrPtr | PiPtr

  // -------------------------------------------------------------------
  // The stack: NUL-separated frames above a NUL at offset 0.
  // -------------------------------------------------------------------

  /** The offset of the last NUL before i. */
  function PrevNul(s: seq<byte>, i: nat): (j: nat)
    requires 0 < i <= |s| && s[0] == 0
    ensures j < i && s[j] == 0
    ensures forall k :: j < k < i ==> s[k] != 0
    decreases i
  {
    if s[i - 1] == 0 then i - 1 else PrevNul(s, i - 1)
  }

  /** The stack up to its top NUL at len is a run of NUL-terminated
      frames of at least one byte each. */
  predicate Stacked(s: seq<byte>, len: nat)
    requires len < |s| && s[0] == 0
    decreases len
  {
    s[len] == 0 && (len == 0 || (s[len - 1] != 0 && Stacked(s, PrevNul(s, len))))
  }

  /** The number of frames below len. */
  function Depth(s: seq<byte>, len: nat): nat
    requires len < |s| && s[0] == 0
    decreases len
  {
    if len == 0 then 0 else 1 + Depth(s, PrevNul(s, len))
  }

  /** Below the top frame lie the other frames, one fewer. */
  lemma PopStacked(s: seq<byte>, len: nat)
    requires 0 < len < |s| && s[0] == 0 && Stacked(s, len)
    ensures Stacked(s, PrevNul(s, len)) && Depth(s, PrevNul(s, len)) + 1 == Depth(s, len)
    ensures PrevNul(s, len) != 0 ==> PrevNul(s, len) >= 2 && s[PrevNul(s, len) - 1] != 0
    ensures PrevNul(s, len) > 0 <==> Depth(s, len) >= 2
  {
    var j := PrevNul(s, len);
    if j != 0 {
      assert s[j - 1] != 0;
    }
  }

  /** The offset of the first byte of the frame that ends at len. */
  function FrameStart(s: seq<byte>, len: nat): nat
    requires 0 < len < |s| && s[0] == 0
  {
    PrevNul(s, len) + 1
  }

  // -------------------------------------------------------------------
  // The helpers of yxml_parse.
  // -------------------------------------------------------------------

  function SetPtr(m: Machine, p: Ptr, at: nat): Machine
  {
    match p
    case ElemPtr => m.(elem := at)
    case AttrPtr => m.(attr := at)
    case PiPtr => m.(pi := at)
  }

  /** yxml_pushstack: a frame holding ch above the top NUL, its offset in
      the pointer p; ESTACK, and nothing changed, when the byte and its
      NUL would not fit. */
  function PushFrame(m: Machine, ch: byte, p: Ptr): (r: (Machine, Ret))
    requires m.stacklen < |m.stack|
    ensures r.1 == ESTACK <==> m.stacklen + 2 >= |m.stack|
    ensures r.1 == ESTACK ==> r.0 == m
  {
    if m.stacklen + 2 >= |m.stack| then (m, ESTACK)
    else
      var at := m.stacklen + 1;
      (SetPtr(m, p, at).(stack := m.stack[at := ch][at + 1 := 0], stacklen := at + 1), OK)
  }

  /** yxml_pushstackc: ch appended to the top frame; ESTACK, and nothing
      changed, when the NUL after it would not fit. */
  function PushChar(m: Machine, ch: byte): (r: (Machine, Ret))
    requires m.stacklen < |m.stack|
    ensures r.1 == ESTACK <==> m.stacklen + 1 >= |m.stack|
    ensures r.1 == ESTACK ==> r.0 == m
  {
    if m.stacklen + 1 >= |m.stack| then (m, ESTACK)
    else (m.(stack := m.stack[m.stacklen := ch][m.stacklen + 1 := 0], stacklen := m.stacklen + 1), OK)
  }

  /** yxml_popstack: back to the NUL below the top frame. */
  function PopFrame(m: Machine): Machine
    requires 0 < m.stacklen < |m.stack| && m.stack[0] == 0
  {
    m.(stacklen := PrevNul(m.stack, m.stacklen))
  }

  /** yxml_selfclose, also the end of yxml_elemcloseend: the element
      frame dropped; elem moves to the frame below, or, when none is
      left, to offset 0 with the state YXMLS_misc3. */
  function CloseElem(m: Machine): (r: (Machine, Ret))
    requires 0 < m.stacklen < |m.stack| && m.stack[0] == 0 && Stacked(m.stack, m.stacklen)
    ensures r.1 == ELEMEND
  {
    var m1 := PopFrame(m);
    PopStacked(m.stack, m.stacklen);
    if m1.stacklen != 0 then (m1.(elem := PrevNul(m1.stack, m1.stacklen - 1) + 1), ELEMEND)
    else (m1.(elem := 0, state := Misc3), ELEMEND)
  }

  /** yxml_elemclose: the next byte of the open element's name must be ch. */
  function ElemClose(m: Machine, ch: byte): (Machine, Ret)
    requires m.elem < |m.stack|
  {
    if m.stack[m.elem] != ch then (m, ECLOSE) else (m.(elem := m.elem + 1), OK)
  }

  /** yxml_elemcloseend: the whole name must have been matched. */
  function ElemCloseEnd(m: Machine): (Machine, Ret)
    requires m.elem < |m.stack| && 0 < m.stacklen < |m.stack| && m.stack[0] == 0
    requires Stacked(m.stack, m.stacklen)
  {
    if m.stack[m.elem] != 0 then (m, ECLOSE) else CloseElem(m)
  }

  /** The test of yxml_pinameend on the NUL-terminated name at p: x, m
      and l in either case and then the NUL. */
  predicate XmlNamed(s: seq<byte>, p: nat, len: nat)
    requires p <= len < |s| && s[len] == 0
  {
    Or32(s[p]) == 0x78 && Or32(s[p + 1]) == 0x6D && Or32(s[p + 2]) == 0x6C && s[p + 3] == 0
  }

  /** yxml_pinameend: a PI may not be named xml. */
  function PiNameEnd(m: Machine): Ret
    requires m.pi <= m.stacklen < |m.stack| && m.stack[m.stacklen] == 0
  {
    if XmlNamed(m.stack, m.pi, m.stacklen) then ESYN else PISTART
  }

  /** yxml_pivalend. */
  function PiValEnd(m: Machine): (Machine, Ret)
    requires 0 < m.stacklen < |m.stack| && m.stack[0] == 0
  {
    (PopFrame(m).(pi := 0), PIEND)
  }

  /** yxml_refstart: an empty reference in a zeroed data buffer. */
  function RefStart(m: Machine): Machine
  {
    m.(data := [0, 0, 0, 0, 0, 0, 0, 0], reflen := 0)
  }

  /** yxml_ref: one more byte of the reference; EREF when seven are
      already held. */
  function RefChar(m: Machine, ch: byte): (Machine, Ret)
    requires |m.data| == 8
  {
    if m.reflen >= 7 then (m, EREF)
    else (m.(data := m.data[m.reflen := ch], reflen := m.reflen + 1), OK)
  }

  /** The value of a hex digit, as the source computes it. */
  function HexDigit(c: byte): nat
    requires IsHex(c)
  {
    if c <= 0x39 then c - 0x30 else Or32(c) - 0x61 + 10
  }

  /** The loop over hex digits from i, with the unsigned shift. */
  function HexRun(d: seq<byte>, i: nat, acc: u32): (r: (u32, nat))
    requires i < |d| && d[|d| - 1] == 0
    ensures i <= r.1 < |d| && !IsHex(d[r.1])
    decreases |d| - i
  {
    if IsHex(d[i]) then HexRun(d, i + 1, ToU32(acc * 16 + HexDigit(d[i]))) else (acc, i)
  }

  /** The loop over decimal digits from i, with the unsigned product. */
  function DecRun(d: seq<byte>, i: nat, acc: u32): (r: (u32, nat))
    requires i < |d| && d[|d| - 1] == 0
    ensures i <= r.1 < |d| && !IsNum(d[r.1])
    decreases |d| - i
  {
    if IsNum(d[i]) then DecRun(d, i + 1, ToU32(acc * 10 + (d[i] - 0x30))) else (acc, i)
  }

  /** The five predefined entities, compared on the first five bytes. */
  function NamedChar(d: seq<byte>): u32
    requires |d| >= 5
  {
    var w := d[..5];
    if w == [0x6C, 0x74, 0, 0, 0] then LT as int                     // lt
    else if w == [0x67, 0x74, 0, 0, 0] then GT as int                // gt
    else if w == [0x61, 0x6D, 0x70, 0, 0] then AMP as int            // amp
    else if w == [0x61, 0x70, 0x6F, 0x73, 0] then APOS as int        // apos
    else if w == [0x71, 0x75, 0x6F, 0x74, 0] then QUOT as int        // quot
    else 0
  }

  /** The code point yxml_refend reads from the data buffer: #x and hex
      digits, # and decimal digits, or an entity name; 0 when anything
      follows the digits or the name is not one of the five. */
  function RefValue(d: seq<byte>): u32
    requires |d| == 8 && d[7] == 0
  {
    if d[0] == HASH then
      var run := if d[1] == 0x78 then HexRun(d, 2, 0) else DecRun(d, 1, 0);
      if d[run.1] != 0 then 0 else run.0
    else NamedChar(d)
  }

  /** The code points yxml_refend refuses: 0, those beyond U+10FFFF,
      U+FFFE, U+FFFF, and those with (ch - 0xDFFF) < 0x7FF in unsigned
      32-bit arithmetic. */
  predicate Refused(ch: u32)
  {
    ch == 0 || ch > 0x10FFFF || ch == 0xFFFE || ch == 0xFFFF || ToU32(ch - 0xDFFF) < 0x7FF
  }

  /** The UTF-8 encoding the source writes for ch. */
  function Utf8(ch: nat): (u: seq<byte>)
    requires ch <= 0x10FFFF
    ensures 1 <= |u| <= 4
  {
    if ch <= 0x7F then [ch]
    else if ch <= 0x7FF then [0xC0 + ch / 0x40, 0x80 + ch % 0x40]
    else if ch <= 0xFFFF then [0xE0 + ch / 0x1000, 0x80 + ch / 0x40 % 0x40, 0x80 + ch % 0x40]
    else [0xF0 + ch / 0x4_0000, 0x80 + ch / 0x1000 % 0x40, 0x80 + ch / 0x40 % 0x40, 0x80 + ch % 0x40]
  }

  /** yxml_setutf8 on the data buffer: the encoding and a NUL, the bytes
      after it as they were. */
  function SetUtf8(d: seq<byte>, ch: nat): (r: seq<byte>)
    requires |d| == 8 && ch <= 0x10FFFF
    ensures |r| == 8
  {
    Utf8(ch) + [0] + d[|Utf8(ch)| + 1..]
  }

  /** yxml_refend: the reference replaced by its UTF-8 encoding and the
      token ret, or EREF for a code point that is not a Char. */
  function RefEnd(m: Machine, ret: Ret): (Machine, Ret)
    requires |m.data| == 8 && m.data[7] == 0
  {
    var ch := RefValue(m.data);
    if Refused(ch) then (m, EREF) else (m.(data := SetUtf8(m.data, ch)), ret)
  }

  // The data tokens: what the data buffer holds after each.
  function DataContent(m: Machine, ch: byte): (Machine, Ret)
    requires |m.data| == 8
  {
    (m.(data := m.data[0 := ch][1 := 0]), CONTENT)
  }

  function DataPi1(m: Machine, ch: byte): (Machine, Ret)
    requires |m.data| == 8
  {
    (m.(data := m.data[0 := ch][1 := 0]), PICONTENT)
  }

  function DataPi2(m: Machine, ch: byte): (Machine, Ret)
    requires |m.data| == 8
  {
    (m.(data := m.data[0 := QM][1 := ch][2 := 0]), PICONTENT)
  }

  function DataCd1(m: Machine, ch: byte): (Machine, Ret)
    requires |m.data| == 8
  {
    (m.(data := m.data[0 := RBRACKET][1 := ch][2 := 0]), CONTENT)
  }

  function DataCd2(m: Machine, ch: byte): (Machine, Ret)
    requires |m.data| == 8
  {
    (m.(data := m.data[0 := RBRACKET][1 := RBRACKET][2 := ch][3 := 0]), CONTENT)
  }

  /** An attribute byte, tab and line feed normalised to a space. */
  function DataAttr(m: Machine, ch: byte): (Machine, Ret)
    requires |m.data| == 8
  {
    (m.(data := m.data[0 := if ch == TAB || ch == LF then SP else ch][1 := 0]), ATTRVAL)
  }

  /** The String state starts matching the rest of a keyword. */
  function Keyword(m: Machine, next: State, rest: seq<byte>): Machine
  {
    m.(state := String, nextstate := next, str := rest)
  }

  // -------------------------------------------------------------------
  // What holds between calls.
  // -------------------------------------------------------------------

  /** The states that run on behalf of nextstate and go back to it. */
  predicate Borrows(st: State)
  {
    st.String? || st.Comment0? || st.Comment1? || st.Comment2? || st.Comment3? || st.Comment4?
    || st.Pi0? || st.Pi1? || st.Pi2? || st.Pi3? || st.Pi4?
  }

  /** The states a String, comment or PI state goes back to. */
  predicate Resumes(st: State)
  {
    st.Misc0? || st.Misc1? || st.Misc2? || st.Misc3? || st.Dt0? || st.Cd0?
    || st.Xmldecl0? || st.Ver0? || st.Ver2? || st.Enc0? || st.Std0? || st.Std3?
  }

  /** The states with an attribute or PI frame on top of the stack. */
  function Extra(st: State): nat
  {
    if st.Attr0? || st.Attr1? || st.Attr2? || st.Attr3? || st.Attr4?
       || st.Pi1? || st.Pi2? || st.Pi3? || st.Pi4? then 1 else 0
  }

  /** The states inside the root element. */
  predicate InContent(st: State)
  {
    st.Elem0? || st.Elem1? || st.Elem2? || st.Elem3?
    || st.Attr0? || st.Attr1? || st.Attr2? || st.Attr3? || st.Attr4?
    || st.Cd0? || st.Cd1? || st.Cd2? || st.Misc2? || st.Misc2a?
    || st.Le2? || st.Lee2? || st.Etag0? || st.Etag1? || st.Etag2?
  }

  /** The states after the root element has closed. */
  predicate AfterRoot(st: State)
  {
    st.Misc3? || st.Le3?
  }

  /** The state whose place in the document m is at. */
  function Region(m: Machine): State
  {
    if Borrows(m.state) then m.nextstate else m.state
  }

  predicate Sized(m: Machine)
  {
    m.stacklen < |m.stack| && m.stack[0] == 0 && |m.data| == 8
  }

  /** Element frames are open exactly inside the root element; an
      attribute or PI frame lies on top of them in its states. */
  predicate Regions(m: Machine)
    requires Sized(m)
  {
    var d := Depth(m.stack, m.stacklen);
    (Borrows(m.state) ==> Resumes(m.nextstate))
    && (m.state.Dt1? ==> m.nextstate.Dt0? || m.nextstate.Dt4?)
    && Extra(m.state) <= d
    && (InContent(Region(m)) <==> d > Extra(m.state))
  }

  /** Offset of the first byte of the innermost open element's name. */
  function ElemStart(m: Machine): nat
    requires Sized(m) && Stacked(m.stack, m.stacklen) && Regions(m)
    requires InContent(Region(m))
  {
    var top := FrameStart(m.stack, m.stacklen);
    PopStacked(m.stack, m.stacklen);
    if Extra(m.state) == 0 then top else FrameStart(m.stack, top - 1)
  }

  /** elem is the innermost element's name, or part-way through it while
      an end tag is being matched; attr and pi are the top frame in their
      states. */
  predicate Pointers(m: Machine)
    requires Sized(m) && Stacked(m.stack, m.stacklen) && Regions(m)
  {
    m.elem <= m.stacklen
    && (!InContent(Region(m)) ==> m.elem == 0)
    && (InContent(Region(m)) && !m.state.Etag1? ==> m.elem == ElemStart(m))
    && (m.state.Etag1? ==> ElemStart(m) <= m.elem)
    && (Extra(m.state) == 1 && !Borrows(m.state) ==> m.attr == FrameStart(m.stack, m.stacklen))
    && (Extra(m.state) == 1 && Borrows(m.state) ==> m.pi == FrameStart(m.stack, m.stacklen))
  }

  /** Inside a reference the data buffer holds its bytes and then NULs. */
  predicate RefReady(m: Machine)
    requires |m.data| == 8
  {
    (m.state.Attr4? || m.state.Misc2a?) ==>
      m.reflen <= 7
      && (forall i :: 0 <= i < m.reflen ==> IsRef(m.data[i]))
      && (forall i :: m.reflen <= i < 8 ==> m.data[i] == 0)
  }

  /** The invariant of yxml_t between calls that returned no error. */
  predicate Inv(m: Machine)
  {
    Sized(m) && Stacked(m.stack, m.stacklen) && Regions(m) && Pointers(m) && RefReady(m)
    && (m.state.String? ==> |m.str| > 0)
  }

  // -------------------------------------------------------------------
  // yxml_parse, state by state.
  // -------------------------------------------------------------------

  // The state groups, one per prefix of the state names.
  predicate IsAttr(st: State) { st.Attr0? || st.Attr1? || st.Attr2? || st.Attr3? || st.Attr4? }
  predicate IsCd(st: State) { st.Cd0? || st.Cd1? || st.Cd2? }
  predicate IsComment(st: State) { st.Comment0? || st.Comment1? || st.Comment2? || st.Comment3? || st.Comment4? }
  predicate IsDt(st: State) { st.Dt0? || st.Dt1? || st.Dt2? || st.Dt3? || st.Dt4? }
  predicate IsElem(st: State) { st.Elem0? || st.Elem1? || st.Elem2? || st.Elem3? }
  predicate IsEnc(st: State) { st.Enc0? || st.Enc1? || st.Enc2? || st.Enc3? }
  predicate IsEtag(st: State) { st.Etag0? || st.Etag1? || st.Etag2? }
  predicate IsLe(st: State)
  {
    st.Init? || st.Le0? || st.Le1? || st.Le2? || st.Le3? || st.Lee1? || st.Lee2? || st.Leq0?
  }
  predicate IsMisc(st: State) { st.Misc0? || st.Misc1? || st.Misc2? || st.Misc2a? || st.Misc3? }
  predicate IsPi(st: State) { st.Pi0? || st.Pi1? || st.Pi2? || st.Pi3? || st.Pi4? }
  predicate IsStd(st: State) { st.Std0? || st.Std1? || st.Std2? || st.Std3? }
  predicate IsVer(st: State) { st.Ver0? || st.Ver1? || st.Ver2? || st.Ver3? }
  predicate IsXmldecl(st: State)
  {
    st.Xmldecl0? || st.Xmldecl1? || st.Xmldecl2? || st.Xmldecl3?
    || st.Xmldecl4? || st.Xmldecl5? || st.Xmldecl6? || st.Xmldecl7?
  }

  function StringStep(m: Machine, ch: byte): (Machine, Ret)
    requires |m.str| > 0
  {
    if ch == m.str[0] then
      (m.(str := m.str[1..], state := if |m.str| == 1 then m.nextstate else m.state), OK)
    else (m, ESYN)
  }

  function AttrStep(m: Machine, ch: byte): (Machine, Ret)
    requires Inv(m) && IsAttr(m.state)
  {
    match m.state
    case Attr0 =>
      if IsName(ch) then PushChar(m, ch)
      else if IsSP(ch) then (m.(state := Attr1), ATTRSTART)
      else if ch == EQ then (m.(state := Attr2), ATTRSTART)
      else (m, ESYN)
    case Attr1 =>
      if IsSP(ch) then (m, OK)
      else if ch == EQ then (m.(state := Attr2), OK)
      else (m, ESYN)
    case Attr2 =>
      if IsSP(ch) then (m, OK)
      else if ch == APOS || ch == QUOT then (m.(state := Attr3, quote := ch), OK)
      else (m, ESYN)
    case Attr3 =>
      if IsAttValue(ch, m.quote) then DataAttr(m, ch)
      else if ch == AMP then (RefStart(m.(state := Attr4)), OK)
      else if m.quote == ch then (PopFrame(m.(state := Elem2)), ATTREND)
      else (m, ESYN)
    case Attr4 =>
      if IsRef(ch) then RefChar(m, ch)
      else if ch == SEMI then RefEnd(m.(state := Attr3), ATTRVAL)
      else (m, ESYN)
  }

  function CdStep(m: Machine, ch: byte): (Machine, Ret)
    requires |m.data| == 8 && IsCd(m.state)
  {
    match m.state
    case Cd0 =>
      if ch == RBRACKET then (m.(state := Cd1), OK) else DataContent(m, ch)
    case Cd1 =>
      if ch == RBRACKET then (m.(state := Cd2), OK) else DataCd1(m.(state := Cd0), ch)
    case Cd2 =>
      if ch == RBRACKET then DataContent(m, ch)
      else if ch == GT then (m.(state := Misc2), OK)
      else DataCd2(m.(state := Cd0), ch)
  }

  function CommentStep(m: Machine, ch: byte): (Machine, Ret)
    requires IsComment(m.state)
  {
    match m.state
    case Comment0 => if ch == DASH then (m.(state := Comment1), OK) else (m, ESYN)
    case Comment1 => if ch == DASH then (m.(state := Comment2), OK) else (m, ESYN)
    case Comment2 => if ch == DASH then (m.(state := Comment3), OK) else (m, OK)
    case Comment3 => if ch == DASH then (m.(state := Comment4), OK) else (m.(state := Comment2), OK)
    case Comment4 => if ch == GT then (m.(state := m.nextstate), OK) else (m, ESYN)
  }

  function DtStep(m: Machine, ch: byte): (Machine, Ret)
    requires IsDt(m.state)
  {
    match m.state
    case Dt0 =>
      if ch == GT then (m.(state := Misc1), OK)
      else if ch == APOS || ch == QUOT then (m.(state := Dt1, quote := ch, nextstate := Dt0), OK)
      else if ch == LT then (m.(state := Dt2), OK)
      else (m, OK)
    case Dt1 =>
      if m.quote == ch then (m.(state := m.nextstate), OK) else (m, OK)
    case Dt2 =>
      if ch == QM then (m.(state := Pi0, nextstate := Dt0), OK)
      else if ch == BANG then (m.(state := Dt3), OK)
      else (m, ESYN)
    case Dt3 =>
      if ch == DASH then (m.(state := Comment1, nextstate := Dt0), OK) else (m.(state := Dt4), OK)
    case Dt4 =>
      if ch == APOS || ch == QUOT then (m.(state := Dt1, quote := ch, nextstate := Dt4), OK)
      else if ch == GT then (m.(state := Dt0), OK)
      else (m, OK)
  }

  function ElemStep(m: Machine, ch: byte): (Machine, Ret)
    requires Inv(m) && IsElem(m.state)
  {
    match m.state
    case Elem0 =>
      if IsName(ch) then PushChar(m, ch)
      else if IsSP(ch) then (m.(state := Elem1), ELEMSTART)
      else if ch == SLASH then (m.(state := Elem3), ELEMSTART)
      else if ch == GT then (m.(state := Misc2), ELEMSTART)
      else (m, ESYN)
    case Elem1 =>
      if IsSP(ch) then (m, OK)
      else if ch == SLASH then (m.(state := Elem3), OK)
      else if ch == GT then (m.(state := Misc2), OK)
      else if IsNameStart(ch) then PushFrame(m.(state := Attr0), ch, AttrPtr)
      else (m, ESYN)
    case Elem2 =>
      if IsSP(ch) then (m.(state := Elem1), OK)
      else if ch == SLASH then (m.(state := Elem3), OK)
      else if ch == GT then (m.(state := Misc2), OK)
      else (m, ESYN)
    case Elem3 =>
      if ch == GT then CloseElem(m.(state := Misc2)) else (m, ESYN)
  }

  function EncStep(m: Machine, ch: byte): (Machine, Ret)
    requires IsEnc(m.state)
  {
    match m.state
    case Enc0 =>
      if IsSP(ch) then (m, OK) else if ch == EQ then (m.(state := Enc1), OK) else (m, ESYN)
    case Enc1 =>
      if IsSP(ch) then (m, OK)
      else if ch == APOS || ch == QUOT then (m.(state := Enc2, quote := ch), OK)
      else (m, ESYN)
    case Enc2 =>
      if IsAlpha(ch) then (m.(state := Enc3), OK) else (m, ESYN)
    case Enc3 =>
      if IsEncName(ch) then (m, OK)
      else if m.quote == ch then (m.(state := Xmldecl4), OK)
      else (m, ESYN)
  }

  function EtagStep(m: Machine, ch: byte): (Machine, Ret)
    requires Inv(m) && IsEtag(m.state)
  {
    match m.state
    case Etag0 =>
      if IsNameStart(ch) then ElemClose(m.(state := Etag1), ch) else (m, ESYN)
    case Etag1 =>
      if IsName(ch) then ElemClose(m, ch)
      else if IsSP(ch) then ElemCloseEnd(m.(state := Etag2))
      else if ch == GT then ElemCloseEnd(m.(state := Misc2))
      else (m, ESYN)
    case Etag2 =>
      if IsSP(ch) then (m, OK) else if ch == GT then (m.(state := Misc2), OK) else (m, ESYN)
  }

  /** YXMLS_init and the states after a '<' outside a PI or comment. */
  function LeStep(m: Machine, ch: byte): (Machine, Ret)
    requires Inv(m) && IsLe(m.state)
  {
    match m.state
    case Init =>
      if ch == BOM_FIRST then (Keyword(m, Misc0, BOM_REST), OK)
      else if IsSP(ch) then (m.(state := Misc0), OK)
      else if ch == LT then (m.(state := Le0), OK)
      else (m, ESYN)
    case Le0 =>
      if ch == BANG then (m.(state := Lee1), OK)
      else if ch == QM then (m.(state := Leq0), OK)
      else if IsNameStart(ch) then PushFrame(m.(state := Elem0), ch, ElemPtr)
      else (m, ESYN)
    case Le1 =>
      if ch == BANG then (m.(state := Lee1), OK)
      else if ch == QM then (m.(state := Pi0, nextstate := Misc1), OK)
      else if IsNameStart(ch) then PushFrame(m.(state := Elem0), ch, ElemPtr)
      else (m, ESYN)
    case Le2 =>
      if ch == BANG then (m.(state := Lee2), OK)
      else if ch == QM then (m.(state := Pi0, nextstate := Misc2), OK)
      else if ch == SLASH then (m.(state := Etag0), OK)
      else if IsNameStart(ch) then PushFrame(m.(state := Elem0), ch, ElemPtr)
      else (m, ESYN)
    case Le3 =>
      if ch == BANG then (m.(state := Comment0, nextstate := Misc3), OK)
      else if ch == QM then (m.(state := Pi0, nextstate := Misc3), OK)
      else (m, ESYN)
    case Lee1 =>
      if ch == DASH then (m.(state := Comment1, nextstate := Misc1), OK)
      else if ch == 0x44 then (Keyword(m, Dt0, OCTYPE), OK)         // D
      else (m, ESYN)
    case Lee2 =>
      if ch == DASH then (m.(state := Comment1, nextstate := Misc2), OK)
      else if ch == LBRACKET then (Keyword(m, Cd0, CDATA), OK)
      else (m, ESYN)
    case Leq0 =>
      if ch == 0x78 then (Keyword(m, Xmldecl0, ML), OK)              // x
      else if IsNameStart(ch) then PushFrame(m.(state := Pi1, nextstate := Misc1), ch, PiPtr)
      else (m, ESYN)
  }

  function MiscStep(m: Machine, ch: byte): (Machine, Ret)
    requires Inv(m) && IsMisc(m.state)
  {
    match m.state
    case Misc0 =>
      if IsSP(ch) then (m, OK) else if ch == LT then (m.(state := Le0), OK) else (m, ESYN)
    case Misc1 =>
      if IsSP(ch) then (m, OK) else if ch == LT then (m.(state := Le1), OK) else (m, ESYN)
    case Misc2 =>
      if ch == LT then (m.(state := Le2), OK)
      else if ch == AMP then (RefStart(m.(state := Misc2a)), OK)
      else DataContent(m, ch)
    case Misc2a =>
      if IsRef(ch) then RefChar(m, ch)
      else if ch == SEMI then RefEnd(m.(state := Misc2), CONTENT)
      else (m, ESYN)
    case Misc3 =>
      if IsSP(ch) then (m, OK) else if ch == LT then (m.(state := Le3), OK) else (m, ESYN)
  }

  function PiStep(m: Machine, ch: byte): (Machine, Ret)
    requires Inv(m) && IsPi(m.state)
  {
    match m.state
    case Pi0 =>
      if IsNameStart(ch) then PushFrame(m.(state := Pi1), ch, PiPtr) else (m, ESYN)
    case Pi1 =>
      if IsName(ch) then PushChar(m, ch)
      else if ch == QM then (m.(state := Pi4), PiNameEnd(m))
      else if IsSP(ch) then (m.(state := Pi2), PiNameEnd(m))
      else (m, ESYN)
    case Pi2 =>
      if ch == QM then (m.(state := Pi3), OK) else DataPi1(m, ch)
    case Pi3 =>
      if ch == GT then PiValEnd(m.(state := m.nextstate)) else DataPi2(m.(state := Pi2), ch)
    case Pi4 =>
      if ch == GT then PiValEnd(m.(state := m.nextstate)) else (m, ESYN)
  }

  function StdStep(m: Machine, ch: byte): (Machine, Ret)
    requires IsStd(m.state)
  {
    match m.state
    case Std0 =>
      if IsSP(ch) then (m, OK) else if ch == EQ then (m.(state := Std1), OK) else (m, ESYN)
    case Std1 =>
      if IsSP(ch) then (m, OK)
      else if ch == APOS || ch == QUOT then (m.(state := Std2, quote := ch), OK)
      else (m, ESYN)
    case Std2 =>
      if ch == 0x79 then (Keyword(m, Std3, ES), OK)               // y
      else if ch == 0x6E then (Keyword(m, Std3, O), OK)           // n
      else (m, ESYN)
    case Std3 =>
      if m.quote == ch then (m.(state := Xmldecl6), OK) else (m, ESYN)
  }

  function VerStep(m: Machine, ch: byte): (Machine, Ret)
    requires IsVer(m.state)
  {
    match m.state
    case Ver0 =>
      if IsSP(ch) then (m, OK) else if ch == EQ then (m.(state := Ver1), OK) else (m, ESYN)
    case Ver1 =>
      if IsSP(ch) then (m, OK)
      else if ch == APOS || ch == QUOT then (Keyword(m.(quote := ch), Ver2, ONE_DOT), OK)
      else (m, ESYN)
    case Ver2 =>
      if IsNum(ch) then (m.(state := Ver3), OK) else (m, ESYN)
    case Ver3 =>
      if IsNum(ch) then (m, OK)
      else if m.quote == ch then (m.(state := Xmldecl2), OK)
      else (m, ESYN)
  }

  function XmldeclStep(m: Machine, ch: byte): (Machine, Ret)
    requires IsXmldecl(m.state)
  {
    match m.state
    case Xmldecl0 =>
      if IsSP(ch) then (m.(state := Xmldecl1), OK) else (m, ESYN)
    case Xmldecl1 =>
      if IsSP(ch) then (m, OK)
      else if ch == 0x76 then (Keyword(m, Ver0, ERSION), OK)      // v
      else (m, ESYN)
    case Xmldecl2 =>
      if IsSP(ch) then (m.(state := Xmldecl3), OK)
      else if ch == QM then (m.(state := Xmldecl7), OK)
      else (m, ESYN)
    case Xmldecl3 =>
      if IsSP(ch) then (m, OK)
      else if ch == QM then (m.(state := Xmldecl7), OK)
      else if ch == 0x65 then (Keyword(m, Enc0, NCODING), OK)     // e
      else if ch == 0x73 then (Keyword(m, Std0, TANDALONE), OK)   // s
      else (m, ESYN)
    case Xmldecl4 =>
      if IsSP(ch) then (m.(state := Xmldecl5), OK)
      else if ch == QM then (m.(state := Xmldecl7), OK)
      else (m, ESYN)
    case Xmldecl5 =>
      if IsSP(ch) then (m, OK)
      else if ch == QM then (m.(state := Xmldecl7), OK)
      else if ch == 0x73 then (Keyword(m, Std0, TANDALONE), OK)   // s
      else (m, ESYN)
    case Xmldecl6 =>
      if IsSP(ch) then (m, OK) else if ch == QM then (m.(state := Xmldecl7), OK) else (m, ESYN)
    case Xmldecl7 =>
      if ch == GT then (m.(state := Misc1), OK) else (m, ESYN)
  }
}
