// yxml.c as the object it is: yxml_t with its fields, the caller's stack
// buffer and the 8-byte data buffer as arrays, changed in place by each
// call of yxml_parse. Every method is proved to leave the fields holding
// what the functions of Yxml and YxmlStep compute from the values they
// held before, so the properties proved there hold of the object.
module YxmlParser {
  import opened Bytes
  import opened Yxml
  import opened YxmlStep

  class Parser {
    var state: State
    var nextstate: State
    const stack: array<byte>
    var stacklen: nat
    var elem: nat
    var attr: nat
    var pi: nat
    var str: seq<byte>
    const data: array<byte>
    var reflen: nat
    var quote: byte
    var ignore: byte
    var line: nat
    var column: nat
    var total: nat

    /** The fields the state machine works on, as a value. */
    function Current(): Machine
      reads this, stack, data
    {
      Machine(state, nextstate, stack[..], stacklen, elem, attr, pi, str, data[..], reflen, quote)
    }

    /** All of yxml_t as a value. */
    function Value(): Tokenizer
      reads this, stack, data
    {
      Tokenizer(Current(), ignore, line, column, total)
    }

    /** The fields yxml_parse updates before it looks at the state. */
    function Counters(): (byte, nat, nat, nat)
      reads this
    {
      (ignore, line, column, total)
    }

    /** The two buffers are apart and data has its 8 bytes. */
    predicate Apart()
      reads this
    {
      stack != data && data.Length == 8
    }

    predicate Valid()
      reads this, stack, data
    {
      Apart() && Inv(Current())
    }

    /** yxml_init on the caller's buffer: the parser keeps the buffer as
        its stack and writes a NUL at offset 0. */
    constructor (buffer: array<byte>)
      requires buffer.Length >= 1
      modifies buffer
      ensures stack == buffer && Valid() && Value() == Initial(old(buffer[..]))
    {
      state, nextstate := Init, String;
      stack := buffer;
      stacklen, elem, attr, pi := 0, 0, 0, 0;
      str := [];
      data := new byte[8](_ => 0);
      reflen, quote, ignore := 0, 0, 0;
      line, column, total := 1, 0, 0;
      new;
      buffer[0] := 0;
    }

    // -----------------------------------------------------------------
    // The stack.
    // -----------------------------------------------------------------

    /** yxml_pushstack, with the pointer p set to the new frame. */
    method PushStack(ch: byte, p: Ptr) returns (r: Ret)
      requires Apart() && stacklen < stack.Length
      modifies this, stack
      ensures Counters() == old(Counters())
      ensures (Current(), r) == PushFrame(old(Current()), ch, p)
    {
      if stacklen + 2 >= stack.Length {
        return ESTACK;
      }
      ghost var m := Current();
      stacklen := stacklen + 1;
      match p {
        case ElemPtr => elem := stacklen;
        case AttrPtr => attr := stacklen;
        case PiPtr => pi := stacklen;
      }
      ghost var at := stacklen;
      stack[stacklen] := ch;
      stacklen := stacklen + 1;
      stack[stacklen] := 0;
      assert stack[..] == m.stack[at := ch][at + 1 := 0];
      r := OK;
    }

    /** yxml_pushstackc. */
    method PushStackC(ch: byte) returns (r: Ret)
      requires Apart() && stacklen < stack.Length
      modifies this, stack
      ensures Counters() == old(Counters())
      ensures (Current(), r) == PushChar(old(Current()), ch)
    {
      if stacklen + 1 >= stack.Length {
        return ESTACK;
      }
      stack[stacklen] := ch;
      stacklen := stacklen + 1;
      stack[stacklen] := 0;
      r := OK;
    }

    /** yxml_popstack: back down to the NUL below the top frame. */
    method PopStack()
      requires Apart() && 0 < stacklen < stack.Length && stack[0] == 0
      modifies this
      ensures Counters() == old(Counters())
      ensures Current() == PopFrame(old(Current()))
    {
      ghost var j := PrevNul(stack[..], stacklen);
      stacklen := stacklen - 1;
      while stack[stacklen] != 0
        invariant j <= stacklen < old(stacklen)
        invariant Current() == old(Current()).(stacklen := stacklen)
        invariant Counters() == old(Counters())
        decreases stacklen
      {
        stacklen := stacklen - 1;
      }
    }

    /** yxml_selfclose: the element frame dropped, elem moved back to the
        start of the frame below, or to offset 0 and YXMLS_misc3 when
        the root has closed. */
    method SelfClose() returns (r: Ret)
      requires Apart() && 0 < stacklen < stack.Length && stack[0] == 0
      requires Stacked(stack[..], stacklen)
      modifies this
      ensures Counters() == old(Counters())
      ensures (Current(), r) == CloseElem(old(Current()))
    {
      ghost var m0 := Current();
      PopStacked(stack[..], stacklen);
      PopStack();
      if stacklen != 0 {
        ghost var j := PrevNul(stack[..], stacklen - 1);
        elem := stacklen - 1;
        while stack[elem - 1] != 0
          invariant j + 1 <= elem <= stacklen - 1
          invariant Current() == PopFrame(m0).(elem := elem)
          invariant Counters() == old(Counters())
          decreases elem
        {
          elem := elem - 1;
        }
        assert elem == j + 1;
        return ELEMEND;
      }
      elem := 0;
      state := Misc3;
      r := ELEMEND;
    }

    /** yxml_elemclose. */
    method ElemClose(ch: byte) returns (r: Ret)
      requires elem < stack.Length
      modifies this
      ensures Counters() == old(Counters())
      ensures (Current(), r) == Yxml.ElemClose(old(Current()), ch)
    {
      if stack[elem] != ch {
        return ECLOSE;
      }
      elem := elem + 1;
      r := OK;
    }

    /** yxml_elemcloseend. */
    method ElemCloseEnd() returns (r: Ret)
      requires Apart() && elem < stack.Length && 0 < stacklen < stack.Length && stack[0] == 0
      requires Stacked(stack[..], stacklen)
      modifies this
      ensures Counters() == old(Counters())
      ensures (Current(), r) == Yxml.ElemCloseEnd(old(Current()))
    {
      if stack[elem] != 0 {
        return ECLOSE;
      }
      r := SelfClose();
    }

    /** yxml_pinameend. */
    method PiNameEnd() returns (r: Ret)
      requires pi <= stacklen < stack.Length && stack[stacklen] == 0
      ensures r == Yxml.PiNameEnd(Current())
    {
      if Or32(stack[pi]) == 0x78 && Or32(stack[pi + 1]) == 0x6D && Or32(stack[pi + 2]) == 0x6C
         && stack[pi + 3] == 0 {
        r := ESYN;
      } else {
        r := PISTART;
      }
    }

    /** yxml_pivalend. */
    method PiValEnd() returns (r: Ret)
      requires Apart() && 0 < stacklen < stack.Length && stack[0] == 0
      modifies this
      ensures Counters() == old(Counters())
      ensures (Current(), r) == Yxml.PiValEnd(old(Current()))
    {
      PopStack();
      pi := 0;
      r := PIEND;
    }

    // -----------------------------------------------------------------
    // The data buffer.
    // -----------------------------------------------------------------

    method DataContent(ch: byte) returns (r: Ret)
      requires Apart()
      modifies data
      ensures (Current(), r) == Yxml.DataContent(old(Current()), ch)
    {
      data[0] := ch;
      data[1] := 0;
      r := CONTENT;
    }

    method DataPi1(ch: byte) returns (r: Ret)
      requires Apart()
      modifies data
      ensures (Current(), r) == Yxml.DataPi1(old(Current()), ch)
    {
      data[0] := ch;
      data[1] := 0;
      r := PICONTENT;
    }

    method DataPi2(ch: byte) returns (r: Ret)
      requires Apart()
      modifies data
      ensures (Current(), r) == Yxml.DataPi2(old(Current()), ch)
    {
      data[0] := QM;
      data[1] := ch;
      data[2] := 0;
      r := PICONTENT;
    }

    method DataCd1(ch: byte) returns (r: Ret)
      requires Apart()
      modifies data
      ensures (Current(), r) == Yxml.DataCd1(old(Current()), ch)
    {
      data[0] := RBRACKET;
      data[1] := ch;
      data[2] := 0;
      r := CONTENT;
    }

    method DataCd2(ch: byte) returns (r: Ret)
      requires Apart()
      modifies data
      ensures (Current(), r) == Yxml.DataCd2(old(Current()), ch)
    {
      data[0] := RBRACKET;
      data[1] := RBRACKET;
      data[2] := ch;
      data[3] := 0;
      r := CONTENT;
    }

    /** yxml_dataattr: tab and line feed become a space. */
    method DataAttr(ch: byte) returns (r: Ret)
      requires Apart()
      modifies data
      ensures (Current(), r) == Yxml.DataAttr(old(Current()), ch)
    {
      data[0] := if ch == TAB || ch == LF then SP else ch;
      data[1] := 0;
      r := ATTRVAL;
    }

    /** yxml_setutf8 into the data buffer. */
    method SetUtf8(ch: nat)
      requires Apart() && ch <= 0x10FFFF
      modifies data
      ensures data[..] == Yxml.SetUtf8(old(data[..]), ch)
    {
      if ch <= 0x7F {
        data[0] := ch;
        data[1] := 0;
      } else if ch <= 0x7FF {
        data[0] := 0xC0 + ch / 0x40;
        data[1] := 0x80 + ch % 0x40;
        data[2] := 0;
      } else if ch <= 0xFFFF {
        data[0] := 0xE0 + ch / 0x1000;
        data[1] := 0x80 + ch / 0x40 % 0x40;
        data[2] := 0x80 + ch % 0x40;
        data[3] := 0;
      } else {
        data[0] := 0xF0 + ch / 0x4_0000;
        data[1] := 0x80 + ch / 0x1000 % 0x40;
        data[2] := 0x80 + ch / 0x40 % 0x40;
        data[3] := 0x80 + ch % 0x40;
        data[4] := 0;
      }
    }

    // -----------------------------------------------------------------
    // References.
    // -----------------------------------------------------------------

    /** yxml_refstart: the data buffer cleared. */
    method RefStart()
      requires Apart()
      modifies this, data
      ensures Counters() == old(Counters())
      ensures Current() == Yxml.RefStart(old(Current()))
    {
      forall i | 0 <= i < 8 {
        data[i] := 0;
      }
      reflen := 0;
    }

    /** yxml_ref. */
    method Ref(ch: byte) returns (r: Ret)
      requires Apart()
      modifies this, data
      ensures Counters() == old(Counters())
      ensures (Current(), r) == RefChar(old(Current()), ch)
    {
      if reflen >= 7 {
        return EREF;
      }
      data[reflen] := ch;
      reflen := reflen + 1;
      r := OK;
    }

    /** yxml_refend: the code point of the reference, the test for a
        Char and the UTF-8 encoding. */
    method RefEnd(ret: Ret) returns (r: Ret)
      requires Apart() && data[7] == 0
      modifies data
      ensures (Current(), r) == Yxml.RefEnd(old(Current()), ret)
    {
      var ch := RefCodePoint();
      if Refused(ch) {
        return EREF;
      }
      SetUtf8(ch);
      r := ret;
    }

    /** The first half of yxml_refend: the loops over the hexadecimal or
        decimal digits of a character reference, or the entity name; any
        byte left over gives 0. */
    method RefCodePoint() returns (ch: u32)
      requires data.Length == 8 && data[7] == 0
      ensures ch == RefValue(data[..])
    {
      ch := 0;
      if data[0] == HASH {
        var i: nat;
        if data[1] == 0x78 {
          i := 2;
          while IsHex(data[i])
            invariant 2 <= i < 8 && HexRun(data[..], i, ch) == HexRun(data[..], 2, 0)
            decreases 8 - i
          {
            ch := ToU32(ch * 16 + HexDigit(data[i]));
            i := i + 1;
          }
        } else {
          i := 1;
          while IsNum(data[i])
            invariant 1 <= i < 8 && DecRun(data[..], i, ch) == DecRun(data[..], 1, 0)
            decreases 8 - i
          {
            ch := ToU32(ch * 10 + (data[i] - 0x30));
            i := i + 1;
          }
        }
        if data[i] != 0 {
          ch := 0;
        }
      } else {
        ch := NamedChar(data[..]);
      }
    }
  
    // -----------------------------------------------------------------
    // yxml_parse, one group of states at a time.
    // -----------------------------------------------------------------

    /** YXMLS_string: the next byte of the keyword. */
    method StringStep(ch: byte) returns (r: Ret)
      requires |str| > 0
      modifies this
      ensures Counters() == old(Counters())
      ensures (Current(), r) == Yxml.StringStep(old(Current()), ch)
    {
      if ch == str[0] {
        str := str[1..];
        if |str| == 0 {
          state := nextstate;
        }
        return OK;
      }
      r := ESYN;
    }

    method AttrStep(ch: byte) returns (r: Ret)
      requires Valid() && IsAttr(state)
      modifies this, stack, data
      ensures Counters() == old(Counters())
      ensures (Current(), r) == Yxml.AttrStep(old(Current()), ch)
    {
      match state
      case Attr0 =>
        if IsName(ch) {
          r := PushStackC(ch);
        } else if IsSP(ch) {
          state := Attr1;
          r := ATTRSTART;
        } else if ch == EQ {
          state := Attr2;
          r := ATTRSTART;
        } else {
          r := ESYN;
        }
      case Attr1 =>
        if IsSP(ch) {
          r := OK;
        } else if ch == EQ {
          state := Attr2;
          r := OK;
        } else {
          r := ESYN;
        }
      case Attr2 =>
        if IsSP(ch) {
          r := OK;
        } else if ch == APOS || ch == QUOT {
          state := Attr3;
          quote := ch;
          r := OK;
        } else {
          r := ESYN;
        }
      case Attr3 =>
        if IsAttValue(ch, quote) {
          r := DataAttr(ch);
        } else if ch == AMP {
          state := Attr4;
          RefStart();
          r := OK;
        } else if quote == ch {
          state := Elem2;
          PopStack();
          r := ATTREND;
        } else {
          r := ESYN;
        }
      case Attr4 =>
        if IsRef(ch) {
          r := Ref(ch);
        } else if ch == SEMI {
          state := Attr3;
          r := RefEnd(ATTRVAL);
        } else {
          r := ESYN;
        }
    }

    method CdStep(ch: byte) returns (r: Ret)
      requires Apart() && IsCd(state)
      modifies this, data
      ensures Counters() == old(Counters())
      ensures (Current(), r) == Yxml.CdStep(old(Current()), ch)
    {
      match state
      case Cd0 =>
        if ch == RBRACKET {
          state := Cd1;
          r := OK;
        } else {
          r := DataContent(ch);
        }
      case Cd1 =>
        if ch == RBRACKET {
          state := Cd2;
          r := OK;
        } else {
          state := Cd0;
          r := DataCd1(ch);
        }
      case Cd2 =>
        if ch == RBRACKET {
          r := DataContent(ch);
        } else if ch == GT {
          state := Misc2;
          r := OK;
        } else {
          state := Cd0;
          r := DataCd2(ch);
        }
    }

    method CommentStep(ch: byte) returns (r: Ret)
      requires IsComment(state)
      modifies this
      ensures Counters() == old(Counters())
      ensures (Current(), r) == Yxml.CommentStep(old(Current()), ch)
    {
      r := OK;
      match state
      case Comment0 =>
        if ch == DASH { state := Comment1; } else { r := ESYN; }
      case Comment1 =>
        if ch == DASH { state := Comment2; } else { r := ESYN; }
      case Comment2 =>
        if ch == DASH { state := Comment3; }
      case Comment3 =>
        if ch == DASH { state := Comment4; } else { state := Comment2; }
      case Comment4 =>
        if ch == GT { state := nextstate; } else { r := ESYN; }
    }

    method DtStep(ch: byte) returns (r: Ret)
      requires IsDt(state)
      modifies this
      ensures Counters() == old(Counters())
      ensures (Current(), r) == Yxml.DtStep(old(Current()), ch)
    {
      r := OK;
      match state
      case Dt0 =>
        if ch == GT {
          state := Misc1;
        } else if ch == APOS || ch == QUOT {
          state, quote, nextstate := Dt1, ch, Dt0;
        } else if ch == LT {
          state := Dt2;
        }
      case Dt1 =>
        if quote == ch { state := nextstate; }
      case Dt2 =>
        if ch == QM {
          state, nextstate := Pi0, Dt0;
        } else if ch == BANG {
          state := Dt3;
        } else {
          r := ESYN;
        }
      case Dt3 =>
        if ch == DASH {
          state, nextstate := Comment1, Dt0;
        } else {
          state := Dt4;
        }
      case Dt4 =>
        if ch == APOS || ch == QUOT {
          state, quote, nextstate := Dt1, ch, Dt4;
        } else if ch == GT {
          state := Dt0;
        }
    }

    method ElemStep(ch: byte) returns (r: Ret)
      requires Valid() && IsElem(state)
      modifies this, stack
      ensures Counters() == old(Counters())
      ensures (Current(), r) == Yxml.ElemStep(old(Current()), ch)
    {
      match state
      case Elem0 =>
        if IsName(ch) {
          r := PushStackC(ch);
        } else if IsSP(ch) {
          state := Elem1;
          r := ELEMSTART;
        } else if ch == SLASH {
          state := Elem3;
          r := ELEMSTART;
        } else if ch == GT {
          state := Misc2;
          r := ELEMSTART;
        } else {
          r := ESYN;
        }
      case Elem1 =>
        if IsSP(ch) {
          r := OK;
        } else if ch == SLASH {
          state := Elem3;
          r := OK;
        } else if ch == GT {
          state := Misc2;
          r := OK;
        } else if IsNameStart(ch) {
          state := Attr0;
          r := PushStack(ch, AttrPtr);
        } else {
          r := ESYN;
        }
      case Elem2 =>
        if IsSP(ch) {
          state := Elem1;
          r := OK;
        } else if ch == SLASH {
          state := Elem3;
          r := OK;
        } else if ch == GT {
          state := Misc2;
          r := OK;
        } else {
          r := ESYN;
        }
      case Elem3 =>
        if ch == GT {
          state := Misc2;
          r := SelfClose();
        } else {
          r := ESYN;
        }
    }

    method EncStep(ch: byte) returns (r: Ret)
      requires IsEnc(state)
      modifies this
      ensures Counters() == old(Counters())
      ensures (Current(), r) == Yxml.EncStep(old(Current()), ch)
    {
      r := OK;
      match state
      case Enc0 =>
        if IsSP(ch) {
        } else if ch == EQ {
          state := Enc1;
        } else {
          r := ESYN;
        }
      case Enc1 =>
        if IsSP(ch) {
        } else if ch == APOS || ch == QUOT {
          state, quote := Enc2, ch;
        } else {
          r := ESYN;
        }
      case Enc2 =>
        if IsAlpha(ch) { state := Enc3; } else { r := ESYN; }
      case Enc3 =>
        if IsEncName(ch) {
        } else if quote == ch {
          state := Xmldecl4;
        } else {
          r := ESYN;
        }
    }

    method EtagStep(ch: byte) returns (r: Ret)
      requires Valid() && IsEtag(state)
      modifies this
      ensures Counters() == old(Counters())
      ensures (Current(), r) == Yxml.EtagStep(old(Current()), ch)
    {
      match state
      case Etag0 =>
        if IsNameStart(ch) {
          state := Etag1;
          r := ElemClose(ch);
        } else {
          r := ESYN;
        }
      case Etag1 =>
        if IsName(ch) {
          r := ElemClose(ch);
        } else if IsSP(ch) {
          state := Etag2;
          r := ElemCloseEnd();
        } else if ch == GT {
          state := Misc2;
          r := ElemCloseEnd();
        } else {
          r := ESYN;
        }
      case Etag2 =>
        if IsSP(ch) {
          r := OK;
        } else if ch == GT {
          state := Misc2;
          r := OK;
        } else {
          r := ESYN;
        }
    }

    /** The String state set up to match the rest of a keyword. */
    method Keyword(next: State, rest: seq<byte>)
      modifies this
      ensures Counters() == old(Counters())
      ensures Current() == Yxml.Keyword(old(Current()), next, rest)
    {
      state, nextstate, str := String, next, rest;
    }

    method LeStep(ch: byte) returns (r: Ret)
      requires Valid() && IsLe(state)
      modifies this, stack
      ensures Counters() == old(Counters())
      ensures (Current(), r) == Yxml.LeStep(old(Current()), ch)
    {
      r := OK;
      match state
      case Init =>
        if ch == BOM_FIRST {
          Keyword(Misc0, BOM_REST);
        } else if IsSP(ch) {
          state := Misc0;
        } else if ch == LT {
          state := Le0;
        } else {
          r := ESYN;
        }
      case Le0 =>
        if ch == BANG {
          state := Lee1;
        } else if ch == QM {
          state := Leq0;
        } else if IsNameStart(ch) {
          state := Elem0;
          r := PushStack(ch, ElemPtr);
        } else {
          r := ESYN;
        }
      case Le1 =>
        if ch == BANG {
          state := Lee1;
        } else if ch == QM {
          state, nextstate := Pi0, Misc1;
        } else if IsNameStart(ch) {
          state := Elem0;
          r := PushStack(ch, ElemPtr);
        } else {
          r := ESYN;
        }
      case Le2 =>
        if ch == BANG {
          state := Lee2;
        } else if ch == QM {
          state, nextstate := Pi0, Misc2;
        } else if ch == SLASH {
          state := Etag0;
        } else if IsNameStart(ch) {
          state := Elem0;
          r := PushStack(ch, ElemPtr);
        } else {
          r := ESYN;
        }
      case Le3 =>
        if ch == BANG {
          state, nextstate := Comment0, Misc3;
        } else if ch == QM {
          state, nextstate := Pi0, Misc3;
        } else {
          r := ESYN;
        }
      case Lee1 =>
        if ch == DASH {
          state, nextstate := Comment1, Misc1;
        } else if ch == 0x44 {
          Keyword(Dt0, OCTYPE);
        } else {
          r := ESYN;
        }
      case Lee2 =>
        if ch == DASH {
          state, nextstate := Comment1, Misc2;
        } else if ch == LBRACKET {
          Keyword(Cd0, CDATA);
        } else {
          r := ESYN;
        }
      case Leq0 =>
        if ch == 0x78 {
          Keyword(Xmldecl0, ML);
        } else if IsNameStart(ch) {
          state, nextstate := Pi1, Misc1;
          r := PushStack(ch, PiPtr);
        } else {
          r := ESYN;
        }
    }

    method MiscStep(ch: byte) returns (r: Ret)
      requires Valid() && IsMisc(state)
      modifies this, data
      ensures Counters() == old(Counters())
      ensures (Current(), r) == Yxml.MiscStep(old(Current()), ch)
    {
      match state
      case Misc0 =>
        if IsSP(ch) {
          r := OK;
        } else if ch == LT {
          state := Le0;
          r := OK;
        } else {
          r := ESYN;
        }
      case Misc1 =>
        if IsSP(ch) {
          r := OK;
        } else if ch == LT {
          state := Le1;
          r := OK;
        } else {
          r := ESYN;
        }
      case Misc2 =>
        if ch == LT {
          state := Le2;
          r := OK;
        } else if ch == AMP {
          state := Misc2a;
          RefStart();
          r := OK;
        } else {
          r := DataContent(ch);
        }
      case Misc2a =>
        if IsRef(ch) {
          r := Ref(ch);
        } else if ch == SEMI {
          state := Misc2;
          r := RefEnd(CONTENT);
        } else {
          r := ESYN;
        }
      case Misc3 =>
        if IsSP(ch) {
          r := OK;
        } else if ch == LT {
          state := Le3;
          r := OK;
        } else {
          r := ESYN;
        }
    }

    method PiStep(ch: byte) returns (r: Ret)
      requires Valid() && IsPi(state)
      modifies this, stack, data
      ensures Counters() == old(Counters())
      ensures (Current(), r) == Yxml.PiStep(old(Current()), ch)
    {
      match state
      case Pi0 =>
        if IsNameStart(ch) {
          state := Pi1;
          r := PushStack(ch, PiPtr);
        } else {
          r := ESYN;
        }
      case Pi1 =>
        if IsName(ch) {
          r := PushStackC(ch);
        } else if ch == QM {
          state := Pi4;
          r := PiNameEnd();
        } else if IsSP(ch) {
          state := Pi2;
          r := PiNameEnd();
        } else {
          r := ESYN;
        }
      case Pi2 =>
        if ch == QM {
          state := Pi3;
          r := OK;
        } else {
          r := DataPi1(ch);
        }
      case Pi3 =>
        if ch == GT {
          state := nextstate;
          r := PiValEnd();
        } else {
          state := Pi2;
          r := DataPi2(ch);
        }
      case Pi4 =>
        if ch == GT {
          state := nextstate;
          r := PiValEnd();
        } else {
          r := ESYN;
        }
    }

    method StdStep(ch: byte) returns (r: Ret)
      requires IsStd(state)
      modifies this
      ensures Counters() == old(Counters())
      ensures (Current(), r) == Yxml.StdStep(old(Current()), ch)
    {
      r := OK;
      match state
      case Std0 =>
        if IsSP(ch) {
        } else if ch == EQ {
          state := Std1;
        } else {
          r := ESYN;
        }
      case Std1 =>
        if IsSP(ch) {
        } else if ch == APOS || ch == QUOT {
          state, quote := Std2, ch;
        } else {
          r := ESYN;
        }
      case Std2 =>
        if ch == 0x79 {
          Keyword(Std3, ES);
        } else if ch == 0x6E {
          Keyword(Std3, O);
        } else {
          r := ESYN;
        }
      case Std3 =>
        if quote == ch { state := Xmldecl6; } else { r := ESYN; }
    }

    method VerStep(ch: byte) returns (r: Ret)
      requires IsVer(state)
      modifies this
      ensures Counters() == old(Counters())
      ensures (Current(), r) == Yxml.VerStep(old(Current()), ch)
    {
      r := OK;
      match state
      case Ver0 =>
        if IsSP(ch) {
        } else if ch == EQ {
          state := Ver1;
        } else {
          r := ESYN;
        }
      case Ver1 =>
        if IsSP(ch) {
        } else if ch == APOS || ch == QUOT {
          quote := ch;
          Keyword(Ver2, ONE_DOT);
        } else {
          r := ESYN;
        }
      case Ver2 =>
        if IsNum(ch) { state := Ver3; } else { r := ESYN; }
      case Ver3 =>
        if IsNum(ch) {
        } else if quote == ch {
          state := Xmldecl2;
        } else {
          r := ESYN;
        }
    }

    method XmldeclStep(ch: byte) returns (r: Ret)
      requires IsXmldecl(state)
      modifies this
      ensures Counters() == old(Counters())
      ensures (Current(), r) == Yxml.XmldeclStep(old(Current()), ch)
    {
      r := OK;
      match state
      case Xmldecl0 =>
        if IsSP(ch) { state := Xmldecl1; } else { r := ESYN; }
      case Xmldecl1 =>
        if IsSP(ch) {
        } else if ch == 0x76 {
          Keyword(Ver0, ERSION);
        } else {
          r := ESYN;
        }
      case Xmldecl2 =>
        if IsSP(ch) {
          state := Xmldecl3;
        } else if ch == QM {
          state := Xmldecl7;
        } else {
          r := ESYN;
        }
      case Xmldecl3 =>
        if IsSP(ch) {
        } else if ch == QM {
          state := Xmldecl7;
        } else if ch == 0x65 {
          Keyword(Enc0, NCODING);
        } else if ch == 0x73 {
          Keyword(Std0, TANDALONE);
        } else {
          r := ESYN;
        }
      case Xmldecl4 =>
        if IsSP(ch) {
          state := Xmldecl5;
        } else if ch == QM {
          state := Xmldecl7;
        } else {
          r := ESYN;
        }
      case Xmldecl5 =>
        if IsSP(ch) {
        } else if ch == QM {
          state := Xmldecl7;
        } else if ch == 0x73 {
          Keyword(Std0, TANDALONE);
        } else {
          r := ESYN;
        }
      case Xmldecl6 =>
        if IsSP(ch) {
        } else if ch == QM {
          state := Xmldecl7;
        } else {
          r := ESYN;
        }
      case Xmldecl7 =>
        if ch == GT { state := Misc1; } else { r := ESYN; }
    }

    /** The switch of yxml_parse on the state. */
    method Step(ch: byte) returns (r: Ret)
      requires Valid() && ch != 0
      modifies this, stack, data
      ensures Counters() == old(Counters())
      ensures (Current(), r) == Dispatch(old(Current()), ch)
      ensures !r.IsError() ==> Valid()
    {
      if state.String? {
        r := StringStep(ch);
      } else if IsAttr(state) {
        r := AttrStep(ch);
      } else if IsCd(state) {
        r := CdStep(ch);
      } else if IsComment(state) {
        r := CommentStep(ch);
      } else if IsDt(state) {
        r := DtStep(ch);
      } else if IsElem(state) {
        r := ElemStep(ch);
      } else if IsEnc(state) {
        r := EncStep(ch);
      } else if IsEtag(state) {
        r := EtagStep(ch);
      } else if IsLe(state) {
        r := LeStep(ch);
      } else if IsMisc(state) {
        r := MiscStep(ch);
      } else if IsPi(state) {
        r := PiStep(ch);
      } else if IsStd(state) {
        r := StdStep(ch);
      } else if IsVer(state) {
        r := VerStep(ch);
      } else {
        r := XmldeclStep(ch);
      }
    }

    /** yxml_parse: the byte as unsigned, NUL refused, the position
        counted, end-of-line normalised, then the state's step. A call
        that succeeds leaves the parser valid. */
    method Parse(c: int) returns (r: Ret)
      requires Valid()
      modifies this, stack, data
      ensures (Value(), r) == Next(old(Value()), InputByte(c))
      ensures !r.IsError() ==> Valid()
    {
      var ch := InputByte(c);
      if ch == 0 {
        return ESYN;
      }
      ghost var t := Value();
      total := total + 1;
      if ignore == ch {
        ignore := 0;
        return OK;
      }
      r := Advance(ch, t);
    }

    /** The rest of yxml_parse once the byte is counted and not a
        swallowed LF: the line and column moved on, then the state's step
        on the normalised byte. */
    method Advance(ch: byte, ghost t: Tokenizer) returns (r: Ret)
      requires Valid() && ch != 0 && t.ignore != ch && Inv(t.m)
      requires Current() == t.m && ignore == t.ignore && line == t.line && column == t.column
      requires total == t.total + 1
      modifies this, stack, data
      ensures (Value(), r) == Next(t, ch)
      ensures !r.IsError() ==> Valid()
    {
      var c := ch;
      ignore := if ch == CR then LF else 0;
      if ch == LF || ch == CR {
        c := LF;
        line := line + 1;
        column := 0;
      }
      column := column + 1;
      r := Step(c);
      NextSteps(t, ch, (Current(), r));
    }
  }
}
