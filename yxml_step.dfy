// The invariant of the yxml tokenizer: every call of yxml_parse that
// returns no error leaves the stack a run of NUL-terminated frames whose
// number matches the state, with elem, attr and pi on their frames; a call
// that returns an error leaves the stack as it was.
module YxmlStep {
  import opened Bytes
  import opened Yxml

  // -------------------------------------------------------------------
  // Stack lemmas.
  // -------------------------------------------------------------------

  /** Two stacks that agree up to len have the same frames below len. */
  lemma {:induction false} StackAgree(s: seq<byte>, t: seq<byte>, len: nat)
    requires len < |s| && len < |t| && s[..len + 1] == t[..len + 1] && s[0] == 0
    ensures t[0] == 0
    ensures len > 0 ==> PrevNul(s, len) == PrevNul(t, len)
    ensures Depth(s, len) == Depth(t, len) && Stacked(s, len) == Stacked(t, len)
    decreases len
  {
    assert s[0] == s[..len + 1][0] == t[..len + 1][0] == t[0];
    if len > 0 {
      PrevNulAgree(s, t, len);
      var j := PrevNul(s, len);
      assert s[..j + 1] == s[..len + 1][..j + 1];
      assert t[..j + 1] == t[..len + 1][..j + 1];
      StackAgree(s, t, j);
      assert s[len] == s[..len + 1][len] == t[..len + 1][len] == t[len];
      assert s[len - 1] == s[..len + 1][len - 1] == t[..len + 1][len - 1] == t[len - 1];
    }
  }

  lemma {:induction false} PrevNulAgree(s: seq<byte>, t: seq<byte>, i: nat)
    requires 0 < i <= |s| && i <= |t| && s[..i] == t[..i] && s[0] == 0 && t[0] == 0
    ensures PrevNul(s, i) == PrevNul(t, i)
    decreases i
  {
    assert s[i - 1] == s[..i][i - 1] == t[..i][i - 1] == t[i - 1];
    if s[i - 1] != 0 {
      assert s[..i - 1] == s[..i][..i - 1];
      assert t[..i - 1] == t[..i][..i - 1];
      PrevNulAgree(s, t, i - 1);
    }
  }

  /** pushstack: one frame more, starting just above the old top NUL. */
  lemma PushStacked(s: seq<byte>, len: nat, ch: byte)
    requires len + 2 < |s| && s[0] == 0 && Stacked(s, len) && ch != 0
    ensures var t := s[len + 1 := ch][len + 2 := 0];
      t[0] == 0 && PrevNul(t, len + 2) == len && FrameStart(t, len + 2) == len + 1
      && Stacked(t, len + 2) && Depth(t, len + 2) == Depth(s, len) + 1
      && t[..len + 1] == s[..len + 1]
  {
    var t := s[len + 1 := ch][len + 2 := 0];
    assert t[..len + 1] == s[..len + 1];
    StackAgree(s, t, len);
    assert PrevNul(t, len + 1) == len;
  }

  /** pushstackc: the top frame one byte longer, the frames below as they
      were. */
  lemma PushCharStacked(s: seq<byte>, len: nat, ch: byte)
    requires 0 < len && len + 1 < |s| && s[0] == 0 && Stacked(s, len) && ch != 0
    ensures var t := s[len := ch][len + 1 := 0];
      t[0] == 0 && PrevNul(t, len + 1) == PrevNul(s, len)
      && Stacked(t, len + 1) && Depth(t, len + 1) == Depth(s, len)
      && t[..PrevNul(s, len) + 1] == s[..PrevNul(s, len) + 1]
      && (PrevNul(s, len) > 0 ==> PrevNul(t, PrevNul(t, len + 1)) == PrevNul(s, PrevNul(s, len)))
  {
    var t := s[len := ch][len + 1 := 0];
    var j := PrevNul(s, len);
    assert t[..len] == s[..len];
    PrevNulAgree(s, t, len);
    assert PrevNul(t, len + 1) == PrevNul(t, len);
    assert t[..j + 1] == s[..j + 1];
    StackAgree(s, t, j);
    PopStacked(s, len);
  }

  // -------------------------------------------------------------------
  // The invariant, state group by state group.
  // -------------------------------------------------------------------

  /** What a call promises: the invariant again after a token, the stack
      untouched after an error. */
  predicate Kept(m: Machine, r: (Machine, Ret))
  {
    (!r.1.IsError() ==> Inv(r.0))
    && (r.1.IsError() ==> r.0.stack == m.stack && r.0.stacklen == m.stacklen)
  }

  /** A step that leaves the stack and its pointers alone keeps the
      invariant when the new state lies in the same region with the same
      kind of top frame. */
  lemma Relabel(m: Machine, m2: Machine)
    requires Inv(m) && m2.stack == m.stack && m2.stacklen == m.stacklen
    requires m2.elem == m.elem && m2.attr == m.attr && m2.pi == m.pi && |m2.data| == 8
    requires Extra(m2.state) == Extra(m.state)
    requires Extra(m.state) == 1 ==> Borrows(m2.state) == Borrows(m.state)
    requires InContent(Region(m2)) == InContent(Region(m))
    requires Borrows(m2.state) ==> Resumes(m2.nextstate)
    requires m2.state.Dt1? ==> m2.nextstate.Dt0? || m2.nextstate.Dt4?
    requires m2.state.String? ==> |m2.str| > 0
    requires m.state.Etag1? ==> m2.state.Etag1?
    requires RefReady(m2)
    ensures Inv(m2)
  {
    assert Sized(m2) && Stacked(m2.stack, m2.stacklen);
    assert Regions(m2);
    if InContent(Region(m2)) {
      assert ElemStart(m2) == ElemStart(m);
    }
  }

  /** Comments: no frame is touched. */
  lemma CommentKeeps(m: Machine, ch: byte)
    requires Inv(m) && ch != 0 && (m.state.Comment0? || m.state.Comment1? || m.state.Comment2? || m.state.Comment3? || m.state.Comment4?)
    ensures Kept(m, CommentStep(m, ch))
  {
    var r := CommentStep(m, ch);
    if m.state.Comment0? {
      if !r.1.IsError() { Relabel(m, r.0); }
    } else if m.state.Comment1? {
      if !r.1.IsError() { Relabel(m, r.0); }
    } else if m.state.Comment2? {
      if !r.1.IsError() { Relabel(m, r.0); }
    } else if m.state.Comment3? {
      if !r.1.IsError() { Relabel(m, r.0); }
    } else {
      if !r.1.IsError() { Relabel(m, r.0); }
    }
  }

  /** The document type declaration, skipped. */
  lemma DtKeeps(m: Machine, ch: byte)
    requires Inv(m) && ch != 0 && IsDt(m.state)
    ensures Kept(m, DtStep(m, ch))
  {
    if m.state.Dt0? || m.state.Dt1? {
      DtBodyKeeps(m, ch);
    } else {
      DtMarkupKeeps(m, ch);
    }
  }

  lemma DtBodyKeeps(m: Machine, ch: byte)
    requires Inv(m) && ch != 0 && (m.state.Dt0? || m.state.Dt1?)
    ensures Kept(m, DtStep(m, ch))
  {
    var r := DtStep(m, ch);
    if m.state.Dt0? {
      if !r.1.IsError() { Relabel(m, r.0); }
    } else {
      if !r.1.IsError() { Relabel(m, r.0); }
    }
  }

  lemma DtMarkupKeeps(m: Machine, ch: byte)
    requires Inv(m) && ch != 0 && (m.state.Dt2? || m.state.Dt3? || m.state.Dt4?)
    ensures Kept(m, DtStep(m, ch))
  {
    var r := DtStep(m, ch);
    if m.state.Dt2? {
      if !r.1.IsError() { Relabel(m, r.0); }
    } else if m.state.Dt3? {
      if !r.1.IsError() { Relabel(m, r.0); }
    } else {
      if !r.1.IsError() { Relabel(m, r.0); }
    }
  }

  /** The encoding declaration. */
  lemma EncKeeps(m: Machine, ch: byte)
    requires Inv(m) && ch != 0 && IsEnc(m.state)
    ensures Kept(m, EncStep(m, ch))
  {
    if m.state.Enc0? || m.state.Enc1? {
      EncEqKeeps(m, ch);
    } else {
      EncNameKeeps(m, ch);
    }
  }

  lemma EncEqKeeps(m: Machine, ch: byte)
    requires Inv(m) && ch != 0 && (m.state.Enc0? || m.state.Enc1?)
    ensures Kept(m, EncStep(m, ch))
  {
    var r := EncStep(m, ch);
    if m.state.Enc0? {
      if !r.1.IsError() { Relabel(m, r.0); }
    } else {
      if !r.1.IsError() { Relabel(m, r.0); }
    }
  }

  lemma EncNameKeeps(m: Machine, ch: byte)
    requires Inv(m) && ch != 0 && (m.state.Enc2? || m.state.Enc3?)
    ensures Kept(m, EncStep(m, ch))
  {
    var r := EncStep(m, ch);
    if m.state.Enc2? {
      if !r.1.IsError() { Relabel(m, r.0); }
    } else {
      if !r.1.IsError() { Relabel(m, r.0); }
    }
  }

  /** The standalone declaration. */
  lemma StdKeeps(m: Machine, ch: byte)
    requires Inv(m) && ch != 0 && IsStd(m.state)
    ensures Kept(m, StdStep(m, ch))
  {
    if m.state.Std0? || m.state.Std1? {
      StdEqKeeps(m, ch);
    } else {
      StdValueKeeps(m, ch);
    }
  }

  lemma StdEqKeeps(m: Machine, ch: byte)
    requires Inv(m) && ch != 0 && (m.state.Std0? || m.state.Std1?)
    ensures Kept(m, StdStep(m, ch))
  {
    var r := StdStep(m, ch);
    if m.state.Std0? {
      if !r.1.IsError() { Relabel(m, r.0); }
    } else {
      if !r.1.IsError() { Relabel(m, r.0); }
    }
  }

  lemma StdValueKeeps(m: Machine, ch: byte)
    requires Inv(m) && ch != 0 && (m.state.Std2? || m.state.Std3?)
    ensures Kept(m, StdStep(m, ch))
  {
    var r := StdStep(m, ch);
    if m.state.Std2? {
      if !r.1.IsError() { Relabel(m, r.0); }
    } else {
      if !r.1.IsError() { Relabel(m, r.0); }
    }
  }

  /** The version number. */
  lemma VerKeeps(m: Machine, ch: byte)
    requires Inv(m) && ch != 0 && IsVer(m.state)
    ensures Kept(m, VerStep(m, ch))
  {
    if m.state.Ver0? || m.state.Ver1? {
      VerEqKeeps(m, ch);
    } else {
      VerNumKeeps(m, ch);
    }
  }

  lemma VerEqKeeps(m: Machine, ch: byte)
    requires Inv(m) && ch != 0 && (m.state.Ver0? || m.state.Ver1?)
    ensures Kept(m, VerStep(m, ch))
  {
    var r := VerStep(m, ch);
    if m.state.Ver0? {
      if !r.1.IsError() { Relabel(m, r.0); }
    } else {
      if !r.1.IsError() { Relabel(m, r.0); }
    }
  }

  lemma VerNumKeeps(m: Machine, ch: byte)
    requires Inv(m) && ch != 0 && (m.state.Ver2? || m.state.Ver3?)
    ensures Kept(m, VerStep(m, ch))
  {
    var r := VerStep(m, ch);
    if m.state.Ver2? {
      if !r.1.IsError() { Relabel(m, r.0); }
    } else {
      if !r.1.IsError() { Relabel(m, r.0); }
    }
  }

  /** The XML declaration. */
  lemma XmldeclKeeps(m: Machine, ch: byte)
    requires Inv(m) && ch != 0 && IsXmldecl(m.state)
    ensures Kept(m, XmldeclStep(m, ch))
  {
    if m.state.Xmldecl0? || m.state.Xmldecl1? || m.state.Xmldecl2? {
      XmldeclHeadKeeps(m, ch);
    } else if m.state.Xmldecl3? || m.state.Xmldecl4? || m.state.Xmldecl5? {
      XmldeclMidKeeps(m, ch);
    } else {
      XmldeclEndKeeps(m, ch);
    }
  }

  lemma XmldeclHeadKeeps(m: Machine, ch: byte)
    requires Inv(m) && ch != 0 && (m.state.Xmldecl0? || m.state.Xmldecl1? || m.state.Xmldecl2?)
    ensures Kept(m, XmldeclStep(m, ch))
  {
    var r := XmldeclStep(m, ch);
    if m.state.Xmldecl0? {
      if !r.1.IsError() { Relabel(m, r.0); }
    } else if m.state.Xmldecl1? {
      if !r.1.IsError() { Relabel(m, r.0); }
    } else {
      if !r.1.IsError() { Relabel(m, r.0); }
    }
  }

  lemma XmldeclMidKeeps(m: Machine, ch: byte)
    requires Inv(m) && ch != 0 && (m.state.Xmldecl3? || m.state.Xmldecl4? || m.state.Xmldecl5?)
    ensures Kept(m, XmldeclStep(m, ch))
  {
    var r := XmldeclStep(m, ch);
    if m.state.Xmldecl3? {
      if !r.1.IsError() { Relabel(m, r.0); }
    } else if m.state.Xmldecl4? {
      if !r.1.IsError() { Relabel(m, r.0); }
    } else {
      if !r.1.IsError() { Relabel(m, r.0); }
    }
  }

  lemma XmldeclEndKeeps(m: Machine, ch: byte)
    requires Inv(m) && ch != 0 && (m.state.Xmldecl6? || m.state.Xmldecl7?)
    ensures Kept(m, XmldeclStep(m, ch))
  {
    var r := XmldeclStep(m, ch);
    if m.state.Xmldecl6? {
      if !r.1.IsError() { Relabel(m, r.0); }
    } else {
      if !r.1.IsError() { Relabel(m, r.0); }
    }
  }

  /** A keyword matched byte by byte. */
  lemma StringKeeps(m: Machine, ch: byte)
    requires Inv(m) && ch != 0 && m.state.String?
    ensures Kept(m, StringStep(m, ch))
  {
    var r := StringStep(m, ch);
    if !r.1.IsError() {
      Relabel(m, r.0);
    }
  }

  /** CDATA sections: data only. */
  lemma CdKeeps(m: Machine, ch: byte)
    requires Inv(m) && ch != 0 && IsCd(m.state)
    ensures Kept(m, CdStep(m, ch))
  {
    var r := CdStep(m, ch);
    Relabel(m, r.0);
  }

  // -------------------------------------------------------------------
  // Frames opened, grown and dropped.
  // -------------------------------------------------------------------

  /** A start tag opens an element frame. */
  lemma OpenElem(m: Machine, ch: byte)
    requires Inv(m) && ch != 0 && (m.state.Le0? || m.state.Le1? || m.state.Le2?)
    ensures Kept(m, PushFrame(m.(state := Elem0), ch, ElemPtr))
  {
    if m.stacklen + 2 < |m.stack| {
      PushStacked(m.stack, m.stacklen, ch);
    }
  }

  /** What pushstack leaves: one frame more, starting just above the old
      top NUL, the frames below as they were. */
  lemma PushFacts(m: Machine, ch: byte, p: Ptr)
    requires Sized(m) && Stacked(m.stack, m.stacklen) && ch != 0 && m.stacklen + 2 < |m.stack|
    ensures var r := PushFrame(m, ch, p).0;
      Sized(r) && Stacked(r.stack, r.stacklen) && Depth(r.stack, r.stacklen) == Depth(m.stack, m.stacklen) + 1
      && FrameStart(r.stack, r.stacklen) == m.stacklen + 1
      && (m.stacklen > 0 ==> FrameStart(r.stack, m.stacklen) == FrameStart(m.stack, m.stacklen))
  {
    var r := PushFrame(m, ch, p).0;
    PushStacked(m.stack, m.stacklen, ch);
    if m.stacklen > 0 {
      assert r.stack[..m.stacklen + 1] == m.stack[..m.stacklen + 1];
      StackAgree(m.stack, r.stack, m.stacklen);
    }
  }

  /** An attribute name opens a frame above the element's. */
  lemma OpenAttr(m: Machine, ch: byte)
    requires Inv(m) && ch != 0 && m.state.Elem1?
    ensures Kept(m, PushFrame(m.(state := Attr0), ch, AttrPtr))
  {
    if m.stacklen + 2 < |m.stack| {
      var r := PushFrame(m.(state := Attr0), ch, AttrPtr).0;
      PushFacts(m.(state := Attr0), ch, AttrPtr);
      assert Regions(r);
      assert ElemStart(r) == FrameStart(r.stack, m.stacklen);
    }
  }

  /** A PI target opens a frame, inside or outside the root element. */
  lemma OpenPi(m: Machine, ch: byte)
    requires Inv(m) && ch != 0 && m.state.Pi0?
    ensures Kept(m, PushFrame(m.(state := Pi1), ch, PiPtr))
  {
    if m.stacklen + 2 < |m.stack| {
      var r := PushFrame(m.(state := Pi1), ch, PiPtr).0;
      PushFacts(m.(state := Pi1), ch, PiPtr);
      assert Regions(r);
      if InContent(Region(r)) {
        assert ElemStart(r) == FrameStart(r.stack, m.stacklen);
      }
    }
  }

  /** A PI right after the prolog's "<?" opens a frame before the root. */
  lemma OpenPrologPi(m: Machine, ch: byte)
    requires Inv(m) && ch != 0 && m.state.Leq0?
    ensures Kept(m, PushFrame(m.(state := Pi1, nextstate := Misc1), ch, PiPtr))
  {
    if m.stacklen + 2 < |m.stack| {
      PushStacked(m.stack, m.stacklen, ch);
    }
  }

  /** One more byte of an element, attribute or PI name: the frames
      below and the start of the top frame stay. */
  lemma GrowStack(m: Machine, ch: byte)
    requires Inv(m) && ch != 0 && (m.state.Elem0? || m.state.Attr0? || m.state.Pi1?)
    requires m.stacklen + 1 < |m.stack|
    ensures var r := PushChar(m, ch).0;
      Sized(r) && Stacked(r.stack, r.stacklen) && Depth(r.stack, r.stacklen) == Depth(m.stack, m.stacklen)
      && FrameStart(r.stack, r.stacklen) == FrameStart(m.stack, m.stacklen)
      && (Extra(m.state) == 1 && InContent(Region(m)) ==>
            FrameStart(r.stack, FrameStart(r.stack, r.stacklen) - 1) == ElemStart(m))
  {
    PushCharStacked(m.stack, m.stacklen, ch);
    PopStacked(m.stack, m.stacklen);
  }

  lemma GrowFrame(m: Machine, ch: byte)
    requires Inv(m) && ch != 0 && (m.state.Elem0? || m.state.Attr0? || m.state.Pi1?)
    ensures Kept(m, PushChar(m, ch))
  {
    if m.stacklen + 1 < |m.stack| {
      var r := PushChar(m, ch).0;
      GrowStack(m, ch);
      assert Regions(r);
      if InContent(Region(r)) {
        assert ElemStart(r) == ElemStart(m);
      }
    }
  }

  /** The closing quote of an attribute value drops its frame. */
  lemma DropAttr(m: Machine)
    requires Inv(m) && m.state.Attr3?
    ensures Kept(m, (PopFrame(m.(state := Elem2)), ATTREND))
  {
    PopStacked(m.stack, m.stacklen);
  }

  /** The end of a PI drops its frame and resumes. */
  lemma DropPi(m: Machine)
    requires Inv(m) && (m.state.Pi3? || m.state.Pi4?)
    ensures Kept(m, PiValEnd(m.(state := m.nextstate)))
  {
    PopStacked(m.stack, m.stacklen);
  }

  /** The end of an element drops its frame; the root's end leads to
      YXMLS_misc3. */
  lemma DropElem(m: Machine, s2: State)
    requires Inv(m) && (m.state.Elem3? || m.state.Etag1?) && (s2.Misc2? || s2.Etag2?)
    ensures Kept(m, CloseElem(m.(state := s2)))
  {
    PopStacked(m.stack, m.stacklen);
    var j := PrevNul(m.stack, m.stacklen);
    if j != 0 {
      DropInner(m, s2);
    }
  }

  lemma DropInner(m: Machine, s2: State)
    requires Inv(m) && (m.state.Elem3? || m.state.Etag1?) && (s2.Misc2? || s2.Etag2?)
    requires PrevNul(m.stack, m.stacklen) != 0
    ensures Inv(CloseElem(m.(state := s2)).0)
  {
    PopStacked(m.stack, m.stacklen);
    var j := PrevNul(m.stack, m.stacklen);
    var r := CloseElem(m.(state := s2)).0;
    assert r == m.(state := s2, stacklen := j, elem := PrevNul(m.stack, j - 1) + 1);
    assert PrevNul(m.stack, j) == PrevNul(m.stack, j - 1);
    assert Sized(r) && Stacked(r.stack, r.stacklen);
    assert Regions(r);
  }

  // -------------------------------------------------------------------
  // References.
  // -------------------------------------------------------------------

  lemma RefBegin(m: Machine)
    requires Inv(m) && (m.state.Misc2? || m.state.Attr3?)
    ensures Kept(m, (RefStart(m.(state := if m.state.Misc2? then Misc2a else Attr4)), OK))
  {
  }

  lemma RefMore(m: Machine, ch: byte)
    requires Inv(m) && (m.state.Misc2a? || m.state.Attr4?) && IsRef(ch)
    ensures Kept(m, RefChar(m, ch))
  {
  }

  lemma RefFinish(m: Machine, ret: Ret)
    requires Inv(m) && (m.state.Misc2a? || m.state.Attr4?)
    ensures m.data[7] == 0
    ensures Kept(m, RefEnd(m.(state := if m.state.Misc2a? then Misc2 else Attr3), ret))
  {
  }

  /** One byte of an end tag matched against the open element's name. */
  lemma MatchByte(m: Machine, ch: byte)
    requires Inv(m) && ch != 0 && (m.state.Etag0? || m.state.Etag1?)
    ensures Kept(m, ElemClose(m.(state := Etag1), ch))
  {
  }

  // -------------------------------------------------------------------
  // The groups that touch the stack.
  // -------------------------------------------------------------------

  /** Attributes: the name grows its frame, the closing quote drops it. */
  lemma AttrKeeps(m: Machine, ch: byte)
    requires Inv(m) && ch != 0 && IsAttr(m.state)
    ensures Kept(m, AttrStep(m, ch))
  {
    if m.state.Attr0? || m.state.Attr1? || m.state.Attr2? {
      AttrNameKeeps(m, ch);
    } else {
      AttrValueKeeps(m, ch);
    }
  }

  lemma AttrNameKeeps(m: Machine, ch: byte)
    requires Inv(m) && ch != 0 && (m.state.Attr0? || m.state.Attr1? || m.state.Attr2?)
    ensures Kept(m, AttrStep(m, ch))
  {
    var r := AttrStep(m, ch);
    if m.state.Attr0? {
      if IsName(ch) { GrowFrame(m, ch); } else if !r.1.IsError() { Relabel(m, r.0); }
    } else if m.state.Attr1? {
      if !r.1.IsError() { Relabel(m, r.0); }
    } else {
      if !r.1.IsError() { Relabel(m, r.0); }
    }
  }

  lemma AttrValueKeeps(m: Machine, ch: byte)
    requires Inv(m) && ch != 0 && (m.state.Attr3? || m.state.Attr4?)
    ensures Kept(m, AttrStep(m, ch))
  {
    var r := AttrStep(m, ch);
    if m.state.Attr3? {
      if IsAttValue(ch, m.quote) {
        Relabel(m, r.0);
      } else if ch == AMP {
        RefBegin(m);
      } else if m.quote == ch {
        DropAttr(m);
      }
    } else {
      if IsRef(ch) { RefMore(m, ch); } else if ch == SEMI { RefFinish(m, ATTRVAL); }
    }
  }

  /** Start tags: the name grows its frame, an attribute opens one, "/>" drops it. */
  lemma ElemKeeps(m: Machine, ch: byte)
    requires Inv(m) && ch != 0 && IsElem(m.state)
    ensures Kept(m, ElemStep(m, ch))
  {
    if m.state.Elem0? || m.state.Elem1? {
      ElemNameKeeps(m, ch);
    } else {
      ElemEndKeeps(m, ch);
    }
  }

  lemma ElemNameKeeps(m: Machine, ch: byte)
    requires Inv(m) && ch != 0 && (m.state.Elem0? || m.state.Elem1?)
    ensures Kept(m, ElemStep(m, ch))
  {
    var r := ElemStep(m, ch);
    if m.state.Elem0? {
      if IsName(ch) { GrowFrame(m, ch); } else if !r.1.IsError() { Relabel(m, r.0); }
    } else {
      if !IsSP(ch) && ch != SLASH && ch != GT && IsNameStart(ch) {
        OpenAttr(m, ch);
      } else if !r.1.IsError() {
        Relabel(m, r.0);
      }
    }
  }

  lemma ElemEndKeeps(m: Machine, ch: byte)
    requires Inv(m) && ch != 0 && (m.state.Elem2? || m.state.Elem3?)
    ensures Kept(m, ElemStep(m, ch))
  {
    var r := ElemStep(m, ch);
    if m.state.Elem2? {
      if !r.1.IsError() { Relabel(m, r.0); }
    } else {
      if ch == GT { DropElem(m, Misc2); }
    }
  }

  /** End tags: the name is matched, the end drops the element frame. */
  lemma EtagKeeps(m: Machine, ch: byte)
    requires Inv(m) && ch != 0 && (m.state.Etag0? || m.state.Etag1? || m.state.Etag2?)
    ensures Kept(m, EtagStep(m, ch))
  {
    var r := EtagStep(m, ch);
    if m.state.Etag0? {
      if IsNameStart(ch) { MatchByte(m, ch); }
    } else if m.state.Etag1? {
      if IsName(ch) {
        MatchByte(m, ch);
      } else if IsSP(ch) {
        if m.stack[m.elem] == 0 { DropElem(m, Etag2); }
      } else if ch == GT {
        if m.stack[m.elem] == 0 { DropElem(m, Misc2); }
      }
    } else {
      if !r.1.IsError() { Relabel(m, r.0); }
    }
  }

  /** After "<": a start tag opens an element frame, a PI target a PI frame. */
  lemma LeKeeps(m: Machine, ch: byte)
    requires Inv(m) && ch != 0 && IsLe(m.state)
    ensures Kept(m, LeStep(m, ch))
  {
    var r := LeStep(m, ch);
    if m.state.Init? || m.state.Le3? || m.state.Lee1? || m.state.Lee2? {
      LeMarkupKeeps(m, ch);
    } else if m.state.Le0? || m.state.Le1? {
      LePrologKeeps(m, ch);
    } else if m.state.Le2? {
      if ch != BANG && ch != QM && ch != SLASH && IsNameStart(ch) {
        OpenElem(m, ch);
      } else if !r.1.IsError() {
        Relabel(m, r.0);
      }
    } else {
      if ch != 0x78 && IsNameStart(ch) {
        OpenPrologPi(m, ch);
      } else if !r.1.IsError() {
        Relabel(m, r.0);
      }
    }
  }

  lemma LeMarkupKeeps(m: Machine, ch: byte)
    requires Inv(m) && ch != 0 && (m.state.Init? || m.state.Le3? || m.state.Lee1? || m.state.Lee2?)
    ensures Kept(m, LeStep(m, ch))
  {
    var r := LeStep(m, ch);
    if !r.1.IsError() {
      Relabel(m, r.0);
    }
  }

  lemma LePrologKeeps(m: Machine, ch: byte)
    requires Inv(m) && ch != 0 && (m.state.Le0? || m.state.Le1?)
    ensures Kept(m, LeStep(m, ch))
  {
    var r := LeStep(m, ch);
    if ch != BANG && ch != QM && IsNameStart(ch) {
      OpenElem(m, ch);
    } else if !r.1.IsError() {
      Relabel(m, r.0);
    }
  }

  /** Between markup: content data and references. */
  lemma MiscKeeps(m: Machine, ch: byte)
    requires Inv(m) && ch != 0 && IsMisc(m.state)
    ensures Kept(m, MiscStep(m, ch))
  {
    if m.state.Misc0? || m.state.Misc1? || m.state.Misc3? {
      MiscOutsideKeeps(m, ch);
    } else {
      MiscContentKeeps(m, ch);
    }
  }

  lemma MiscOutsideKeeps(m: Machine, ch: byte)
    requires Inv(m) && ch != 0 && (m.state.Misc0? || m.state.Misc1? || m.state.Misc3?)
    ensures Kept(m, MiscStep(m, ch))
  {
    var r := MiscStep(m, ch);
    if m.state.Misc0? {
      if !r.1.IsError() { Relabel(m, r.0); }
    } else if m.state.Misc1? {
      if !r.1.IsError() { Relabel(m, r.0); }
    } else {
      if !r.1.IsError() { Relabel(m, r.0); }
    }
  }

  lemma MiscContentKeeps(m: Machine, ch: byte)
    requires Inv(m) && ch != 0 && (m.state.Misc2? || m.state.Misc2a?)
    ensures Kept(m, MiscStep(m, ch))
  {
    var r := MiscStep(m, ch);
    if m.state.Misc2? {
      if ch == AMP { RefBegin(m); } else { Relabel(m, r.0); }
    } else {
      if IsRef(ch) { RefMore(m, ch); } else if ch == SEMI { RefFinish(m, CONTENT); }
    }
  }

  /** Processing instructions: the target opens a frame, "?>" drops it. */
  lemma PiKeeps(m: Machine, ch: byte)
    requires Inv(m) && ch != 0 && (m.state.Pi0? || m.state.Pi1? || m.state.Pi2? || m.state.Pi3? || m.state.Pi4?)
    ensures Kept(m, PiStep(m, ch))
  {
    var r := PiStep(m, ch);
    if m.state.Pi0? {
      if IsNameStart(ch) { OpenPi(m, ch); }
    } else if m.state.Pi1? {
      if IsName(ch) { GrowFrame(m, ch); } else if !r.1.IsError() { Relabel(m, r.0); }
    } else if m.state.Pi2? {
      Relabel(m, r.0);
    } else if m.state.Pi3? {
      if ch == GT { DropPi(m); } else { Relabel(m, r.0); }
    } else {
      if ch == GT { DropPi(m); }
    }
  }

  // -------------------------------------------------------------------
  // yxml_parse, yxml_init and yxml_eof.
  // -------------------------------------------------------------------

  /** The switch of yxml_parse on a byte that is not NUL: it keeps the
      invariant when it returns no error, and the stack when it does. */
  function Dispatch(m: Machine, ch: byte): (r: (Machine, Ret))
    requires Inv(m) && ch != 0
    ensures Kept(m, r)
  {
    if m.state.String? then StringKeeps(m, ch); StringStep(m, ch)
    else if IsAttr(m.state) then AttrKeeps(m, ch); AttrStep(m, ch)
    else if IsCd(m.state) then CdKeeps(m, ch); CdStep(m, ch)
    else if IsComment(m.state) then CommentKeeps(m, ch); CommentStep(m, ch)
    else if IsDt(m.state) then DtKeeps(m, ch); DtStep(m, ch)
    else if IsElem(m.state) then ElemKeeps(m, ch); ElemStep(m, ch)
    else if IsEnc(m.state) then EncKeeps(m, ch); EncStep(m, ch)
    else if IsEtag(m.state) then EtagKeeps(m, ch); EtagStep(m, ch)
    else if IsLe(m.state) then LeKeeps(m, ch); LeStep(m, ch)
    else if IsMisc(m.state) then MiscKeeps(m, ch); MiscStep(m, ch)
    else if IsPi(m.state) then PiKeeps(m, ch); PiStep(m, ch)
    else if IsStd(m.state) then StdKeeps(m, ch); StdStep(m, ch)
    else if IsVer(m.state) then VerKeeps(m, ch); VerStep(m, ch)
    else XmldeclKeeps(m, ch); XmldeclStep(m, ch)
  }

  /** The byte yxml_parse works on: (_ch + 256) & 0xff. */
  function InputByte(c: int): byte
  {
    (c + 256) % 256
  }

  /** yxml_parse on the byte ch: NUL is refused with nothing changed; LF
      right after CR is swallowed; CR and LF both reach the state machine
      as LF and start a new line. The invariant is kept by every call that
      returns no error. */
  function Next(t: Tokenizer, ch: byte): (r: (Tokenizer, Ret))
    requires Inv(t.m)
    ensures Kept(t.m, (r.0.m, r.1))
  {
    if ch == 0 then (t, ESYN)
    else if t.ignore == ch then (t.(ignore := 0, total := t.total + 1), OK)
    else
      var eol := ch == LF || ch == CR;
      var step := Dispatch(t.m, if eol then LF else ch);
      (Tokenizer(step.0, if ch == CR then LF else 0,
                 if eol then t.line + 1 else t.line,
                 if eol then 1 else t.column + 1,
                 t.total + 1), step.1)
  }

  /** A call past the NUL and swallowed-LF checks is the state's step
      on the normalised byte, with the counters moved on. */
  lemma NextSteps(t: Tokenizer, ch: byte, step: (Machine, Ret))
    requires Inv(t.m) && ch != 0 && t.ignore != ch
    requires step == Dispatch(t.m, if ch == LF || ch == CR then LF else ch)
    ensures var eol := ch == LF || ch == CR;
      Next(t, ch) == (Tokenizer(step.0, if ch == CR then LF else 0,
                                if eol then t.line + 1 else t.line,
                                if eol then 1 else t.column + 1,
                                t.total + 1), step.1)
  {
  }

  /** yxml_init on a stack buffer of at least one byte: everything zero,
      line 1, the state YXMLS_init and a NUL at offset 0; the invariant
      holds from the start. */
  function Initial(buffer: seq<byte>): (t: Tokenizer)
    requires |buffer| >= 1
    ensures Inv(t.m) && t.m.stack[1..] == buffer[1..]
  {
    Tokenizer(Machine(Init, String, buffer[0 := 0], 0, 0, 0, 0, [], [0, 0, 0, 0, 0, 0, 0, 0], 0, 0),
              0, 1, 0, 0)
  }

  /** yxml_eof: the document is complete only in YXMLS_misc3. */
  function Eof(m: Machine): (r: Ret)
    ensures r == OK <==> m.state == Misc3
    ensures r != OK ==> r == EEOF
  {
    if m.state != Misc3 then EEOF else OK
  }
}
