// The flash descriptor parser of flash.c (GetFlashOrganisation): a line
// "0xMMMM-0xDDDD = NxS, NxS, ..." of a flash description text names the
// organisation of the flash with manufacturer MMMM and device DDDD as
// blocks of N sectors of S KiB.
module FlashDescriptor {
  import opened Bytes
  import opened CLib
  import opened Flash

  // ---------------------------------------------------------------------
  // The search key "0x%04X-0x%04X"
  // ---------------------------------------------------------------------

  function HexDigit(d: nat): (c: char)
    requires d < 16
    ensures c != '=' && !IsSpace(c)
  {
    "0123456789ABCDEF"[d]
  }

  function HexDigitValue(c: char): nat
  {
    if '0' <= c <= '9' then c as int - '0' as int
    else if 'A' <= c <= 'F' then c as int - 'A' as int + 10
    else 0
  }

  /** Four upper-case hex digits, most significant first. */
  function Hex4(x: u16): (r: string)
    ensures |r| == 4 && forall k :: 0 <= k < 4 ==> r[k] != '=' && !IsSpace(r[k])
  {
    [HexDigit(x / 0x1000), HexDigit(x / 0x100 % 16), HexDigit(x / 16 % 16), HexDigit(x % 16)]
  }

  function Key(manId: u16, devId: u16): (r: string)
    ensures |r| == 13
  {
    "0x" + Hex4(manId) + "-0x" + Hex4(devId)
  }

  /** No character of a key is '=' or white space. */
  lemma KeyChars(manId: u16, devId: u16)
    ensures forall k :: 0 <= k < 13 ==> Key(manId, devId)[k] != '=' && !IsSpace(Key(manId, devId)[k])
  {
    var a, b := Hex4(manId), Hex4(devId);
    var r := Key(manId, devId);
    assert r == ['0', 'x', a[0], a[1], a[2], a[3], '-', '0', 'x', b[0], b[1], b[2], b[3]];
  }

  lemma HexDigitRoundTrip(d: nat)
    requires d < 16
    ensures HexDigitValue(HexDigit(d)) == d
  {
  }

  lemma Hex4RoundTrip(x: u16)
    ensures var r := Hex4(x);
            HexDigitValue(r[0]) * 0x1000 + HexDigitValue(r[1]) * 0x100 + HexDigitValue(r[2]) * 16 + HexDigitValue(r[3]) == x
  {
    var d3, d2, d1, d0 := x / 0x1000, x / 0x100 % 16, x / 16 % 16, x % 16;
    HexDigitRoundTrip(d3);
    HexDigitRoundTrip(d2);
    HexDigitRoundTrip(d1);
    HexDigitRoundTrip(d0);
    var y := x / 16;
    var z := y / 16;
    assert x == y * 16 + d0;
    assert z == x / 0x100 && d1 == y % 16;
    assert y == z * 16 + d1;
    assert z / 16 == d3 && z % 16 == d2;
    assert z == d3 * 16 + d2;
  }

  /** Distinct identifier pairs have distinct keys, so a key names one
      device. */
  lemma KeyInjective(m1: u16, d1: u16, m2: u16, d2: u16)
    requires Key(m1, d1) == Key(m2, d2)
    ensures m1 == m2 && d1 == d2
  {
    var k1, k2 := Key(m1, d1), Key(m2, d2);
    assert Hex4(m1) == k1[2..6] == k2[2..6] == Hex4(m2);
    assert Hex4(d1) == k1[9..13] == k2[9..13] == Hex4(d2);
    Hex4RoundTrip(m1);
    Hex4RoundTrip(m2);
    Hex4RoundTrip(d1);
    Hex4RoundTrip(d2);
  }

  // ---------------------------------------------------------------------
  // Locating the descriptor line
  // ---------------------------------------------------------------------

  const SEPARATORS: string := " \t\n\U{000B}\U{000C}\r,"

  /** The end of the line [p, e) once trailing white space is dropped. */
  function TrimEnd(text: string, p: nat, e: nat): (r: nat)
    requires p <= e <= |text|
    ensures p <= r <= e
    ensures r == p || !IsSpace(text[r - 1])
    ensures forall k :: r <= k < e ==> IsSpace(text[k])
    decreases e
  {
    if e > p && IsSpace(text[e - 1]) then TrimEnd(text, p, e - 1) else e
  }

  /** The bounds [p, e) of the organisation part of the first line naming
      the device: after the key, the next '=', any tabs, blanks and further
      '=', up to the first ';', CR or LF, trailing white space dropped.
      None when the key, the '=' or the line end is missing. */
  function Locate(text: string, manId: u16, devId: u16): (r: Option<(nat, nat)>)
    ensures r.Some? ==> r.value.0 <= r.value.1 <= |text|
  {
    match FindFrom(text, Key(manId, devId), 0)
    case None => None
    case Some(i) =>
      match IndexOf(text, '=', i)
      case None => None
      case Some(q) =>
        var p := SpanIn(text, q, "\t =");
        match FindAnyOf(text, p, ";\r\n")
        case None => None
        case Some(c) => Some((p, TrimEnd(text, p, c)))
  }

  // ---------------------------------------------------------------------
  // Parsing "NxS, NxS, ..."
  // ---------------------------------------------------------------------

  /** One round of the parse loop at pos: a block "NxS" and the separators
      after it, an 'x' after a count whose size does not parse (the loop
      goes on after the 'x'), or anything else, on which the loop makes no
      progress. */
  datatype Token = Stall | Skip(next: nat) | Item(next: nat, block: Block)

  function Step(line: string, pos: nat): (r: Token)
    requires pos < |line|
    ensures !r.Stall? ==> pos < r.next <= |line|
    ensures r.Item? ==> r.block.count > 0
  {
    var first := StrToUL(line, pos);
    var stop := first.1;
    var count := ToU32(first.0);
    if stop > pos && stop < |line| && line[stop] == 'x' && count > 0 then
      var second := StrToUL(line, stop + 1);
      var stop2 := second.1;
      var sz := ToU32(second.0);
      if stop2 > stop + 1 && sz > 0 then
        Item(SpanIn(line, stop2, SEPARATORS), Block(count, ToU32(sz * 1024)))
      else Skip(stop + 1)
    else Stall
  }

  /** The blocks the loop adds from pos to the end of the line, or None
      when the loop stalls there and never ends. */
  function Blocks(line: string, pos: nat): Option<seq<Block>>
    requires pos <= |line|
    decreases |line| - pos, 1
  {
    if pos == |line| then Some([]) else BlocksAt(line, pos)
  }

  /** Blocks from a position inside the line: one round, then the rest. */
  function BlocksAt(line: string, pos: nat): Option<seq<Block>>
    requires pos < |line|
    decreases |line| - pos, 0
  {
    match Step(line, pos)
    case Stall => None
    case Skip(next) => Blocks(line, next)
    case Item(next, b) =>
      match Blocks(line, next)
      case None => None
      case Some(rest) => Some([b] + rest)
  }

  /** Sum of Count * Size over the blocks. */
  function Total(bs: seq<Block>): nat
  {
    if |bs| == 0 then 0 else Total(bs[..|bs| - 1]) + bs[|bs| - 1].count * bs[|bs| - 1].size
  }

  datatype Outcome = NotFound | Hangs | Parsed(blocks: seq<Block>)

  /** What GetFlashOrganisation makes of a description text. */
  function Organisation(text: string, manId: u16, devId: u16): Outcome
  {
    match Locate(text, manId, devId)
    case None => NotFound
    case Some(bounds) =>
      match Blocks(text[bounds.0..bounds.1], 0)
      case None => Hangs
      case Some(bs) => Parsed(bs)
  }

  /** Looks up the organisation of flash (manId, devId) in a description
      text: the named file's content (fromFile) or the compiled-in
      table. A file replaces the blocks held so far, the compiled-in text
      adds to them. On success size becomes the U4 sum of Count * Size over
      the new blocks, and the result is TRUE iff the list now holds a
      block. */
  method GetFlashOrganisation(manId: u16, devId: u16, arr: BlockArr, size: u32, text: string, fromFile: bool)
    returns (ok: bool, newSize: u32)
    requires Organisation(text, manId, devId) != Hangs
    modifies arr
    ensures var base := if fromFile then [] else old(arr.blocks);
            match Organisation(text, manId, devId)
            case NotFound => !ok && newSize == size && arr.blocks == base
            case Parsed(bs) => arr.blocks == base + bs && newSize == ToU32(Total(bs))
                               && ok == (|arr.blocks| > 0)
  {
    if fromFile {
      arr.ClearBlocks();
    }
    var i := FindFrom(text, Key(manId, devId), 0);
    if i.None? {
      return false, size;
    }
    var q := IndexOf(text, '=', i.value);
    if q.None? {
      return false, size;
    }
    var p := SpanIn(text, q.value, "\t =");
    var c := FindAnyOf(text, p, ";\r\n");
    if c.None? {
      return false, size;
    }
    // the cut becomes the NUL; trailing white space is dropped
    var e: nat := c.value;
    while e > p && IsSpace(text[e - 1])
      invariant p <= e <= c.value
      invariant TrimEnd(text, p, e) == TrimEnd(text, p, c.value)
    {
      e := e - 1;
    }
    var line := text[p..e];
    assert Locate(text, manId, devId) == Some((p, e));
    newSize := ParseOrganisation(line, arr);
    ok := |arr.blocks| > 0;
  }

  /** The parse loop of GetFlashOrganisation: adds the blocks of a
      descriptor line that does not stall the loop and returns the U4 sum of
      their Count * Size. */
  method ParseOrganisation(line: string, arr: BlockArr) returns (newSize: u32)
    requires Blocks(line, 0).Some?
    modifies arr
    ensures arr.blocks == old(arr.blocks) + Blocks(line, 0).value
    ensures newSize == ToU32(Total(Blocks(line, 0).value))
  {
    ghost var base := arr.blocks;
    ghost var whole := Blocks(line, 0).value;
    ghost var added: seq<Block> := [];
    newSize := 0;
    var pos: nat := 0;
    assert added + Blocks(line, pos).value == whole;
    while pos < |line|
      invariant pos <= |line| && Blocks(line, pos).Some?
      invariant whole == added + Blocks(line, pos).value
      invariant arr.blocks == base + added
      invariant newSize == ToU32(Total(added))
      decreases |line| - pos
    {
      ghost var pos0 := pos;
      var first := StrToUL(line, pos);
      var value, stop := first.0, first.1;
      if stop > pos && stop < |line| && line[stop] == 'x' && ToU32(value) > 0 {
        var count := ToU32(value);
        pos := stop + 1;
        var second := StrToUL(line, pos);
        var value2, stop2 := second.0, second.1;
        if stop2 > pos && ToU32(value2) > 0 {
          ItemBlocks(line, pos0, value, stop, value2, stop2);
          var b := Block(count, ToU32(ToU32(value2) * 1024));
          pos := stop2;
          AddToTotal(added, b, newSize);
          newSize := ToU32(newSize + ToU32(b.count * b.size));
          arr.AddBlock(b);
          pos := SkipSeparators(line, pos);
          AppendShift(added, b, Blocks(line, pos).value);
          added := added + [b];
        } else {
          SkipBlocks(line, pos0, value, stop, value2, stop2);
        }
      } else {
        StallBlocks(line, pos0, value, stop);
        assert false;
      }
    }
    assert added + Blocks(line, pos).value == added;
  }

  /** A round of the parse loop that reads "NxS" adds one block. */
  lemma ItemBlocks(line: string, pos: nat, v: nat, stop: nat, v2: nat, stop2: nat)
    requires pos < |line| && StrToUL(line, pos).0 == v && StrToUL(line, pos).1 == stop
    requires stop > pos && stop < |line| && line[stop] == 'x' && ToU32(v) > 0
    requires StrToUL(line, stop + 1).0 == v2 && StrToUL(line, stop + 1).1 == stop2 && stop2 > stop + 1 && ToU32(v2) > 0
    requires Blocks(line, pos).Some?
    ensures var next := SpanIn(line, stop2, SEPARATORS);
            next <= |line| && Blocks(line, next).Some?
            && Blocks(line, pos).value == [Block(ToU32(v), ToU32(ToU32(v2) * 1024))] + Blocks(line, next).value
  {
    StepItem(line, pos, v, stop, v2, stop2);
    StepBlocks(line, pos);
  }

  /** A round that reads "Nx" and no size adds nothing. */
  lemma SkipBlocks(line: string, pos: nat, v: nat, stop: nat, v2: nat, stop2: nat)
    requires pos < |line| && StrToUL(line, pos).0 == v && StrToUL(line, pos).1 == stop
    requires stop > pos && stop < |line| && line[stop] == 'x' && ToU32(v) > 0
    requires StrToUL(line, stop + 1).0 == v2 && StrToUL(line, stop + 1).1 == stop2
    requires !(stop2 > stop + 1 && ToU32(v2) > 0)
    ensures Blocks(line, pos) == Blocks(line, stop + 1)
  {
    StepSkip(line, pos, v, stop, v2, stop2);
    StepBlocks(line, pos);
  }

  /** A round that reads no "Nx" leaves the loop where it is for ever. */
  lemma StallBlocks(line: string, pos: nat, v: nat, stop: nat)
    requires pos < |line| && StrToUL(line, pos).0 == v && StrToUL(line, pos).1 == stop
    requires !(stop > pos && stop < |line| && line[stop] == 'x' && ToU32(v) > 0)
    ensures Blocks(line, pos).None?
  {
    assert Step(line, pos) == Stall;
    StepBlocks(line, pos);
  }

  /** Blocks after one round of the parse loop. */
  lemma StepBlocks(line: string, pos: nat)
    requires pos < |line|
    ensures match Step(line, pos)
            case Stall => Blocks(line, pos).None?
            case Skip(next) => Blocks(line, pos) == Blocks(line, next)
            case Item(next, b) =>
              (Blocks(line, pos).Some? <==> Blocks(line, next).Some?)
              && (Blocks(line, pos).Some? ==> Blocks(line, pos).value == [b] + Blocks(line, next).value)
  {
    assert Blocks(line, pos) == BlocksAt(line, pos);
  }

  /** The loop skipping white space and commas after a block. */
  method SkipSeparators(line: string, start: nat) returns (pos: nat)
    requires start <= |line|
    ensures pos == SpanIn(line, start, SEPARATORS)
  {
    pos := start;
    while pos < |line| && line[pos] in SEPARATORS
      invariant start <= pos <= |line|
      invariant SpanIn(line, pos, SEPARATORS) == SpanIn(line, start, SEPARATORS)
    {
      pos := pos + 1;
    }
  }

  lemma AppendShift(added: seq<Block>, b: Block, rest: seq<Block>)
    ensures added + ([b] + rest) == (added + [b]) + rest
  {
  }

  lemma StepItem(line: string, pos: nat, v: nat, stop: nat, v2: nat, stop2: nat)
    requires pos < |line| && StrToUL(line, pos).0 == v && StrToUL(line, pos).1 == stop
    requires stop > pos && stop < |line| && line[stop] == 'x' && ToU32(v) > 0
    requires StrToUL(line, stop + 1).0 == v2 && StrToUL(line, stop + 1).1 == stop2 && stop2 > stop + 1 && ToU32(v2) > 0
    ensures Step(line, pos) == Item(SpanIn(line, stop2, SEPARATORS), Block(ToU32(v), ToU32(ToU32(v2) * 1024)))
  {
  }

  lemma StepSkip(line: string, pos: nat, v: nat, stop: nat, v2: nat, stop2: nat)
    requires pos < |line| && StrToUL(line, pos).0 == v && StrToUL(line, pos).1 == stop
    requires stop > pos && stop < |line| && line[stop] == 'x' && ToU32(v) > 0
    requires StrToUL(line, stop + 1).0 == v2 && StrToUL(line, stop + 1).1 == stop2
    requires !(stop2 > stop + 1 && ToU32(v2) > 0)
    ensures Step(line, pos) == Skip(stop + 1)
  {
  }

  lemma AddToTotal(added: seq<Block>, b: Block, size: u32)
    requires size == ToU32(Total(added))
    ensures ToU32(size + ToU32(b.count * b.size)) == ToU32(Total(added + [b]))
  {
    assert (added + [b])[..|added|] == added;
    ModAddLeft(Total(added), b.count * b.size, U32_MOD);
    ModAddLeft(b.count * b.size, size, U32_MOD);
  }

  // ---------------------------------------------------------------------
  // Reading back a written descriptor
  // ---------------------------------------------------------------------

  /** A descriptor entry "NxS": N sectors of S KiB. */
  datatype Entry = Entry(count: nat, kib: nat)

  predicate ValidEntries(es: seq<Entry>)
  {
    forall k :: 0 <= k < |es| ==> 0 < es[k].count < U32_MOD && 0 < es[k].kib < U32_MOD
  }

  /** "NxS" */
  function EntryText(e: Entry): (r: string)
    ensures |r| > 0 && IsDigit(r[0]) && IsDigit(r[|r| - 1])
  {
    Dec(e.count) + "x" + Dec(e.kib)
  }

  /** "N1xS1, N2xS2, ..." */
  function Render(es: seq<Entry>): (r: string)
    requires |es| > 0
    ensures |r| > 0 && IsDigit(r[0])
  {
    EntryText(es[0]) + (if |es| == 1 then "" else ", " + Render(es[1..]))
  }

  /** The block each entry stands for: Size is S * 1024 as a U4. */
  function BlocksOf(es: seq<Entry>): (r: seq<Block>)
    requires ValidEntries(es)
    ensures |r| == |es|
  {
    if |es| == 0 then [] else [Block(es[0].count, ToU32(es[0].kib * 1024))] + BlocksOf(es[1..])
  }

  /** line holds the entry e at pos, followed by the end of the line or a
      character that is not a digit. */
  predicate EntryAt(line: string, pos: nat, e: Entry)
  {
    var end := pos + |EntryText(e)|;
    end <= |line| && line[pos..end] == EntryText(e) && (end == |line| || !IsDigit(line[end]))
  }

  lemma EntryCount(line: string, pos: nat, e: Entry)
    requires e.count < U32_MOD && EntryAt(line, pos, e)
    ensures var stop := pos + |Dec(e.count)|;
            stop < |line| && line[stop] == 'x'
            && StrToUL(line, pos).0 == e.count && StrToUL(line, pos).1 == stop
  {
    EntryPieces(line, pos, e);
    StrToULAt(line, pos, e.count);
  }

  lemma EntrySize(line: string, pos: nat, e: Entry)
    requires e.kib < U32_MOD && EntryAt(line, pos, e)
    ensures var stop := pos + |Dec(e.count)|;
            StrToUL(line, stop + 1).0 == e.kib && StrToUL(line, stop + 1).1 == stop + 1 + |Dec(e.kib)|
  {
    EntryPieces(line, pos, e);
    StrToULAt(line, pos + |Dec(e.count)| + 1, e.kib);
  }

  /** The count, the 'x' and the size of an entry, in place. */
  lemma EntryPieces(line: string, pos: nat, e: Entry)
    requires EntryAt(line, pos, e)
    ensures var stop := pos + |Dec(e.count)|;
            var end := pos + |EntryText(e)|;
            end == stop + 1 + |Dec(e.kib)| <= |line|
            && line[pos..stop] == Dec(e.count) && line[stop] == 'x' && line[stop + 1..end] == Dec(e.kib)
            && (end == |line| || !IsDigit(line[end]))
  {
    var stop := pos + |Dec(e.count)|;
    var end := pos + |EntryText(e)|;
    var t := line[pos..end];
    assert t == Dec(e.count) + "x" + Dec(e.kib);
    assert line[pos..stop] == t[..|Dec(e.count)|];
    assert line[stop] == t[|Dec(e.count)|];
    assert line[stop + 1..end] == t[|Dec(e.count)| + 1..];
  }

  /** Where the entries of a list rendered from p on start. */
  function Positions(p: nat, es: seq<Entry>): (ps: seq<nat>)
    ensures |ps| == |es|
    decreases |es|
  {
    if |es| == 0 then [] else [p] + Positions(p + |EntryText(es[0])| + 2, es[1..])
  }

  predicate EntryAtIndex(line: string, ps: seq<nat>, es: seq<Entry>, k: nat)
    requires k < |ps| == |es|
  {
    EntryAt(line, ps[k], es[k])
  }

  /** Entry k is followed by ", " and then by entry k + 1. */
  predicate SepAtIndex(line: string, ps: seq<nat>, es: seq<Entry>, k: nat)
    requires k + 1 < |ps| == |es|
  {
    var end := ps[k] + |EntryText(es[k])|;
    ps[k + 1] == end + 2 < |line| && line[end] == ',' && line[end + 1] == ' ' && line[end + 2] !in SEPARATORS
  }

  /** line holds the entries es at the positions ps, separated by ", ",
      the last one ending the line. */
  predicate Layout(line: string, ps: seq<nat>, es: seq<Entry>)
  {
    0 < |ps| == |es|
    && (forall k: nat :: k < |es| ==> EntryAtIndex(line, ps, es, k))
    && (forall k: nat :: k + 1 < |es| ==> SepAtIndex(line, ps, es, k))
    && ps[|es| - 1] + |EntryText(es[|es| - 1])| == |line|
  }

  /** What one round of the parse loop reads at entry k of a layout. */
  lemma TokenFacts(line: string, ps: seq<nat>, es: seq<Entry>, k: nat)
    requires Layout(line, ps, es) && ValidEntries(es) && k < |es|
    ensures var pos := ps[k];
            var stop := pos + |Dec(es[k].count)|;
            var stop2 := pos + |EntryText(es[k])|;
            stop < |line| && line[stop] == 'x' && stop + 1 < stop2 <= |line|
            && StrToUL(line, pos).0 == es[k].count && StrToUL(line, pos).1 == stop
            && StrToUL(line, stop + 1).0 == es[k].kib && StrToUL(line, stop + 1).1 == stop2
            && SpanIn(line, stop2, SEPARATORS) == (if k + 1 == |es| then |line| else ps[k + 1])
  {
    LayoutEntry(line, ps, es, k);
    EntryTokens(line, ps[k], es[k]);
    TokenSpan(line, ps, es, k);
  }

  lemma LayoutEntry(line: string, ps: seq<nat>, es: seq<Entry>, k: nat)
    requires Layout(line, ps, es) && k < |es|
    ensures EntryAt(line, ps[k], es[k])
  {
    assert EntryAtIndex(line, ps, es, k);
  }

  /** The two numbers strtoul reads from an entry, and where it stops. */
  lemma EntryTokens(line: string, pos: nat, e: Entry)
    requires e.count < U32_MOD && e.kib < U32_MOD && EntryAt(line, pos, e)
    ensures var stop := pos + |Dec(e.count)|;
            var stop2 := pos + |EntryText(e)|;
            stop < |line| && line[stop] == 'x' && stop + 1 < stop2 <= |line|
            && StrToUL(line, pos).0 == e.count && StrToUL(line, pos).1 == stop
            && StrToUL(line, stop + 1).0 == e.kib && StrToUL(line, stop + 1).1 == stop2
  {
    EntryCount(line, pos, e);
    EntrySize(line, pos, e);
  }

  /** After entry k the scan lands on entry k + 1, or on the end of the
      line after the last entry. */
  lemma TokenSpan(line: string, ps: seq<nat>, es: seq<Entry>, k: nat)
    requires Layout(line, ps, es) && k < |es|
    ensures ps[k] + |EntryText(es[k])| <= |line|
    ensures SpanIn(line, ps[k] + |EntryText(es[k])|, SEPARATORS) == (if k + 1 == |es| then |line| else ps[k + 1])
  {
    var stop2 := ps[k] + |EntryText(es[k])|;
    if k + 1 < |es| {
      assert SepAtIndex(line, ps, es, k);
      SepSpan(line, ps, es, k);
    } else {
      SpanInAt(line, stop2, stop2, SEPARATORS);
    }
  }

  /** The separators ", " before an entry are skipped in one go. */
  lemma SepSpan(line: string, ps: seq<nat>, es: seq<Entry>, k: nat)
    requires k + 1 < |ps| == |es| && SepAtIndex(line, ps, es, k)
    ensures SpanIn(line, ps[k] + |EntryText(es[k])|, SEPARATORS) == ps[k + 1]
  {
    var end := ps[k] + |EntryText(es[k])|;
    assert SEPARATORS[6] == line[end] && SEPARATORS[0] == line[end + 1];
    SpanInAt(line, end, end + 2, SEPARATORS);
  }

  /** From entry k of a layout on, the parse loop adds the blocks of the
      remaining entries. */
  /** What the parse loop reads at entry k: strtoul stops at the 'x' after
      the count and at the end of the size, and the separators after the
      entry end at the next entry, or at the end of the line. */
  predicate ItemAt(line: string, ps: seq<nat>, es: seq<Entry>, k: nat)
    requires k < |ps| == |es| && ValidEntries(es)
  {
    var next := if k + 1 == |es| then |line| else ps[k + 1];
    ps[k] < next <= |line|
    && Step(line, ps[k]) == Item(next, Block(es[k].count, ToU32(es[k].kib * 1024)))
  }

  predicate Parsable(line: string, ps: seq<nat>, es: seq<Entry>)
    requires ValidEntries(es)
  {
    0 < |ps| == |es| && forall k: nat :: k < |es| ==> ItemAt(line, ps, es, k)
  }

  /** The parse loop reads every entry of a layout as it was rendered. */
  lemma LayoutParsable(line: string, ps: seq<nat>, es: seq<Entry>)
    requires Layout(line, ps, es) && ValidEntries(es)
    ensures Parsable(line, ps, es)
  {
    forall k: nat | k < |es|
      ensures ItemAt(line, ps, es, k)
    {
      LayoutItem(line, ps, es, k);
    }
  }

  lemma LayoutItem(line: string, ps: seq<nat>, es: seq<Entry>, k: nat)
    requires Layout(line, ps, es) && ValidEntries(es) && k < |es|
    ensures ItemAt(line, ps, es, k)
  {
    var e := es[k];
    assert 0 < e.count < U32_MOD && 0 < e.kib < U32_MOD;
    TokenFacts(line, ps, es, k);
    var next := if k + 1 == |es| then |line| else ps[k + 1];
    EntryStep(line, ps[k], e, next);
  }

  /** The round of the parse loop at an entry whose tokens were read. */
  lemma EntryStep(line: string, pos: nat, e: Entry, next: nat)
    requires 0 < e.count < U32_MOD && 0 < e.kib < U32_MOD
    requires var stop := pos + |Dec(e.count)|;
             var stop2 := pos + |EntryText(e)|;
             stop < |line| && line[stop] == 'x' && stop + 1 < stop2 <= |line|
             && StrToUL(line, pos).0 == e.count && StrToUL(line, pos).1 == stop
             && StrToUL(line, stop + 1).0 == e.kib && StrToUL(line, stop + 1).1 == stop2
             && SpanIn(line, stop2, SEPARATORS) == next
    ensures Step(line, pos) == Item(next, Block(e.count, ToU32(e.kib * 1024)))
  {
    EntryBlock(e);
    StepItem(line, pos, e.count, pos + |Dec(e.count)|, e.kib, pos + |EntryText(e)|);
  }

  /** The block the loop builds from an entry's two numbers. */
  lemma EntryBlock(e: Entry)
    requires 0 < e.count < U32_MOD && 0 < e.kib < U32_MOD
    ensures ToU32(e.count) == e.count > 0 && ToU32(e.kib) == e.kib > 0
    ensures Block(ToU32(e.count), ToU32(ToU32(e.kib) * 1024)) == Block(e.count, ToU32(e.kib * 1024))
  {
  }

  /** From entry k on, the parse loop adds the blocks of the remaining
      entries. */
  lemma {:induction false} ParseFrom(line: string, ps: seq<nat>, es: seq<Entry>, k: nat)
    requires ValidEntries(es) && Parsable(line, ps, es) && k < |es|
    ensures ps[k] <= |line| && Blocks(line, ps[k]) == Some(BlocksOf(es[k..]))
    decreases |es| - k
  {
    ParseStep(line, ps, es, k);
    assert es[k..][1..] == es[k + 1..];
    if k + 1 < |es| {
      ParseFrom(line, ps, es, k + 1);
    } else {
      assert Blocks(line, |line|) == Some([]);
    }
  }

  /** One round of the parse loop at entry k adds that entry's block and
      moves on to the next entry, or to the end of the line. */
  lemma ParseStep(line: string, ps: seq<nat>, es: seq<Entry>, k: nat)
    requires ValidEntries(es) && Parsable(line, ps, es) && k < |es|
    ensures var next := if k + 1 == |es| then |line| else ps[k + 1];
            ps[k] < next <= |line|
            && (Blocks(line, ps[k]).Some? <==> Blocks(line, next).Some?)
            && (Blocks(line, ps[k]).Some? ==>
                  Blocks(line, ps[k]).value == [Block(es[k].count, ToU32(es[k].kib * 1024))] + Blocks(line, next).value)
  {
    assert ItemAt(line, ps, es, k);
  }

  /** A rendered list is laid out at its positions, wherever it starts. */
  lemma {:induction false} RenderLayout(pre: string, es: seq<Entry>)
    requires |es| > 0
    ensures Layout(pre + Render(es), Positions(|pre|, es), es)
    decreases |es|
  {
    var e := es[0];
    var line := pre + Render(es);
    var a := EntryText(e);
    var end := |pre| + |a|;
    var ps := Positions(|pre|, es);
    if |es| == 1 {
      assert line == pre + a;
      assert line[|pre|..end] == a;
      assert EntryAtIndex(line, ps, es, 0);
    } else {
      var r := Render(es[1..]);
      var pre' := pre + a + ", ";
      var ps' := Positions(|pre'|, es[1..]);
      assert line == pre + a + (", " + r);
      assert line == pre' + r;
      RenderLayout(pre', es[1..]);
      assert ps == [|pre|] + ps';
      assert line[|pre|..end] == a;
      assert EntryAt(line, |pre|, e);
      LayoutCons(line, |pre|, ps', es);
    }
  }

  /** Entry es[0] at p, then ", " and a layout of the rest, is a layout. */
  lemma LayoutCons(line: string, p: nat, ps': seq<nat>, es: seq<Entry>)
    requires |es| > 1 && Layout(line, ps', es[1..]) && EntryAt(line, p, es[0])
    requires var end := p + |EntryText(es[0])|;
             ps'[0] == end + 2 < |line| && line[end] == ',' && line[end + 1] == ' '
    ensures Layout(line, [p] + ps', es)
  {
    var ps := [p] + ps';
    var end := p + |EntryText(es[0])|;
    forall k: nat | k < |es|
      ensures EntryAtIndex(line, ps, es, k)
    {
      if k > 0 {
        assert EntryAtIndex(line, ps', es[1..], k - 1);
      }
    }
    LayoutEntry(line, ps', es[1..], 0);
    assert IsDigit(EntryText(es[1])[0]);
    assert line[end + 2] == EntryText(es[1])[0];
    forall k: nat | k + 1 < |es|
      ensures SepAtIndex(line, ps, es, k)
    {
      if k > 0 {
        assert SepAtIndex(line, ps', es[1..], k - 1);
      }
    }
  }

  /** A rendered descriptor list parses back to its blocks, wherever it
      starts in the line. */
  lemma RenderParses(pre: string, es: seq<Entry>)
    requires |es| > 0 && ValidEntries(es)
    ensures Blocks(pre + Render(es), |pre|) == Some(BlocksOf(es))
  {
    RenderLayout(pre, es);
    LayoutParsable(pre + Render(es), Positions(|pre|, es), es);
    ParseFrom(pre + Render(es), Positions(|pre|, es), es, 0);
    assert es[0..] == es;
  }

  /** No ';', CR or LF inside a rendered list, and it ends in a digit. */
  lemma {:induction false} RenderChars(es: seq<Entry>)
    requires |es| > 0
    ensures forall j :: 0 <= j < |Render(es)| ==> Render(es)[j] !in ";\r\n"
    ensures IsDigit(Render(es)[|Render(es)| - 1])
    decreases |es|
  {
    var a := EntryText(es[0]);
    EntryChars(es[0]);
    if |es| > 1 {
      RenderChars(es[1..]);
      var r := Render(es[1..]);
      var full := Render(es);
      assert full == a + (", " + r);
      forall j | 0 <= j < |full|
        ensures full[j] !in ";\r\n"
      {
        if j >= |a| + 2 {
          assert full[j] == r[j - |a| - 2];
        }
      }
      assert full[|full| - 1] == r[|r| - 1];
    } else {
      assert Render(es) == a + "";
    }
  }

  lemma EntryChars(e: Entry)
    ensures forall j :: 0 <= j < |EntryText(e)| ==> EntryText(e)[j] !in ";\r\n"
  {
    var a, b := Dec(e.count), Dec(e.kib);
    assert EntryText(e) == a + "x" + b;
    forall j | 0 <= j < |EntryText(e)|
      ensures EntryText(e)[j] !in ";\r\n"
    {
      if j < |a| {
        assert EntryText(e)[j] == a[j];
      } else if j > |a| {
        assert EntryText(e)[j] == b[j - |a| - 1];
      }
    }
  }

  /** A description text holding a device line "key gap1=gap2 list" between
      the text before it and the lines after it. */
  function DescriptorText(pre: string, manId: u16, devId: u16, gap1: string, gap2: string,
                          es: seq<Entry>, post: string): string
    requires |es| > 0
  {
    LineIn(pre, Key(manId, devId), gap1, gap2, Render(es), post)
  }

  function LineIn(pre: string, key: string, gap1: string, gap2: string, list: string, post: string): string
  {
    pre + (key + (gap1 + ("=" + (gap2 + (list + ("\n" + post))))))
  }

  /** The organisation found for a device is the list its line holds: the
      first occurrence of the device's key at i, the next '=' at q, the
      gap of tabs, blanks and '=' up to p, and a rendered list from p to the
      line end at c. */
  lemma DescriptorFound(text: string, manId: u16, devId: u16, i: nat, q: nat, p: nat, c: nat,
                        es: seq<Entry>)
    requires |es| > 0 && ValidEntries(es)
    requires i <= q < p < c < |text|
    requires OccursAt(text, Key(manId, devId), i)
    requires forall k: nat :: k < i ==> !OccursAt(text, Key(manId, devId), k)
    requires text[q] == '=' && forall j :: i <= j < q ==> text[j] != '='
    requires (forall j :: q <= j < p ==> text[j] in "\t =") && text[p] !in "\t ="
    requires text[c] == '\n' && text[p..c] == Render(es)
    ensures Organisation(text, manId, devId) == Parsed(BlocksOf(es))
  {
    RenderChars(es);
    ListEnd(text, p, c, Render(es));
    LocateFrom(text, manId, devId, i, q, p, c);
    RenderParses([], es);
    assert [] + Render(es) == text[p..c];
    OrganisationOf(text, manId, devId, p, c, BlocksOf(es));
  }

  /** A list with no ';', CR or LF that ends in a digit, right before a
      line feed. */
  lemma ListEnd(text: string, p: nat, c: nat, list: string)
    requires p < c <= |text| && text[p..c] == list
    requires forall j :: 0 <= j < |list| ==> list[j] !in ";\r\n"
    requires IsDigit(list[|list| - 1])
    ensures (forall j :: p <= j < c ==> text[j] !in ";\r\n") && !IsSpace(text[c - 1])
  {
    forall j | p <= j < c
      ensures text[j] !in ";\r\n"
    {
      assert text[j] == list[j - p];
    }
    assert text[c - 1] == list[|list| - 1];
  }

  lemma OrganisationOf(text: string, manId: u16, devId: u16, p: nat, c: nat, bs: seq<Block>)
    requires p <= c <= |text|
    requires Locate(text, manId, devId) == Some((p, c))
    requires Blocks(text[p..c], 0) == Some(bs)
    ensures Organisation(text, manId, devId) == Parsed(bs)
  {
  }

  /** A description text with the device line "key gap1=gap2 list" after pre
      and no earlier occurrence of the key has the shape DescriptorFound
      reads. */
  lemma DescriptorShape(pre: string, manId: u16, devId: u16, gap1: string, gap2: string,
                        es: seq<Entry>, post: string)
    requires |es| > 0
    requires forall j :: 0 <= j < |gap1| ==> gap1[j] != '='
    requires forall j :: 0 <= j < |gap2| ==> gap2[j] == ' ' || gap2[j] == '\t'
    requires forall k: nat :: k < |pre| ==>
               !OccursAt(DescriptorText(pre, manId, devId, gap1, gap2, es, post), Key(manId, devId), k)
    ensures var text := DescriptorText(pre, manId, devId, gap1, gap2, es, post);
            var q := |pre| + 13 + |gap1|;
            var p := q + 1 + |gap2|;
            var c := p + |Render(es)|;
            c < |text| && OccursAt(text, Key(manId, devId), |pre|)
            && text[q] == '=' && (forall j :: |pre| <= j < q ==> text[j] != '=')
            && (forall j :: q <= j < p ==> text[j] in "\t =") && text[p] !in "\t ="
            && text[c] == '\n' && text[p..c] == Render(es)
  {
    var key := Key(manId, devId);
    var r := Render(es);
    KeyChars(manId, devId);
    RenderChars(es);
    LineKey(pre, key, gap1, gap2, r, post);
    LineEquals(pre, key, gap1, gap2, r, post);
    LineGap(pre, key, gap1, gap2, r, post);
    LineList(pre, key, gap1, gap2, r, post);
  }

  /** The scan of Locate, stated on the characters of the text: the first
      occurrence of the key at i, the '=' at q, the gap up to p and the
      line end at c. */
  lemma LocateFrom(text: string, manId: u16, devId: u16, i: nat, q: nat, p: nat, c: nat)
    requires i <= q < p < c < |text|
    requires OccursAt(text, Key(manId, devId), i)
    requires forall k: nat :: k < i ==> !OccursAt(text, Key(manId, devId), k)
    requires text[q] == '=' && forall j :: i <= j < q ==> text[j] != '='
    requires (forall j :: q <= j < p ==> text[j] in "\t =") && text[p] !in "\t ="
    requires text[c] == '\n' && forall j :: p <= j < c ==> text[j] !in ";\r\n"
    requires !IsSpace(text[c - 1])
    ensures Locate(text, manId, devId) == Some((p, c))
  {
    var key := Key(manId, devId);
    FindFromAt(text, key, 0, i);
    IndexOfAt(text, '=', i, q);
    SpanInAt(text, q, p, "\t =");
    FindAnyOfAt(text, p, c, ";\r\n");
    assert TrimEnd(text, p, c) == c;
    LocateAt(text, manId, devId, i, q, p, c);
  }

  lemma LineKey(pre: string, key: string, gap1: string, gap2: string, list: string, post: string)
    ensures OccursAt(LineIn(pre, key, gap1, gap2, list, post), key, |pre|)
  {
    var t1 := key + (gap1 + ("=" + (gap2 + (list + ("\n" + post)))));
    assert t1[..|key|] == key;
    assert LineIn(pre, key, gap1, gap2, list, post)[|pre|..|pre| + |key|] == t1[..|key|];
  }

  lemma LineEquals(pre: string, key: string, gap1: string, gap2: string, list: string, post: string)
    requires forall j :: 0 <= j < |key| ==> key[j] != '='
    requires forall j :: 0 <= j < |gap1| ==> gap1[j] != '='
    ensures var s := LineIn(pre, key, gap1, gap2, list, post);
            var q := |pre| + |key| + |gap1|;
            q < |s| && s[q] == '=' && forall j :: |pre| <= j < q ==> s[j] != '='
  {
    var t3 := "=" + (gap2 + (list + ("\n" + post)));
    var t2 := gap1 + t3;
    var t1 := key + t2;
    var s := LineIn(pre, key, gap1, gap2, list, post);
    assert s == pre + t1;
    forall j | |pre| <= j < |pre| + |key| + |gap1|
      ensures s[j] != '='
    {
      if j < |pre| + |key| {
        assert s[j] == t1[j - |pre|] == key[j - |pre|];
      } else {
        assert s[j] == t1[j - |pre|] == t2[j - |pre| - |key|];
      }
    }
    assert s[|pre| + |key| + |gap1|] == t1[|key| + |gap1|] == t2[|gap1|] == t3[0];
  }

  lemma LineGap(pre: string, key: string, gap1: string, gap2: string, list: string, post: string)
    requires forall j :: 0 <= j < |gap2| ==> gap2[j] == ' ' || gap2[j] == '\t'
    requires |list| > 0 && IsDigit(list[0])
    ensures var s := LineIn(pre, key, gap1, gap2, list, post);
            var q := |pre| + |key| + |gap1|;
            q + 1 + |gap2| < |s| && (forall j :: q <= j < q + 1 + |gap2| ==> s[j] in "\t =")
            && s[q + 1 + |gap2|] !in "\t ="
  {
    var t4 := gap2 + (list + ("\n" + post));
    var t3 := "=" + t4;
    var u := pre + key + gap1;
    var s := LineIn(pre, key, gap1, gap2, list, post);
    assert s == u + t3;
    var q := |u|;
    forall j | q < j < q + 1 + |gap2|
      ensures s[j] in "\t ="
    {
      assert s[j] == t3[j - q] == t4[j - q - 1] == gap2[j - q - 1];
    }
    assert s[q] == t3[0];
    assert s[q + 1 + |gap2|] == t4[|gap2|] == list[0];
  }

  lemma LineList(pre: string, key: string, gap1: string, gap2: string, list: string, post: string)
    requires |list| > 0 && IsDigit(list[|list| - 1])
    requires forall j :: 0 <= j < |list| ==> list[j] !in ";\r\n"
    ensures var s := LineIn(pre, key, gap1, gap2, list, post);
            var p := |pre| + |key| + |gap1| + 1 + |gap2|;
            p + |list| < |s| && s[p..p + |list|] == list && s[p + |list|] == '\n'
            && (forall j :: p <= j < p + |list| ==> s[j] !in ";\r\n")
            && !IsSpace(s[p + |list| - 1])
  {
    var t5 := list + ("\n" + post);
    var u := pre + key + gap1 + "=" + gap2;
    var s := LineIn(pre, key, gap1, gap2, list, post);
    assert s == u + t5;
    var p := |u|;
    assert s[p..p + |list|] == t5[..|list|] == list;
    assert s[p + |list|] == t5[|list|];
    assert s[p + |list| - 1] == list[|list| - 1];
  }

  lemma LocateAt(text: string, manId: u16, devId: u16, i: nat, q: nat, p: nat, c: nat)
    requires i <= q <= p <= c <= |text|
    requires FindFrom(text, Key(manId, devId), 0) == Some(i)
    requires IndexOf(text, '=', i) == Some(q)
    requires SpanIn(text, q, "\t =") == p
    requires FindAnyOf(text, p, ";\r\n") == Some(c)
    requires TrimEnd(text, p, c) == c
    ensures Locate(text, manId, devId) == Some((p, c))
  {
  }
}
