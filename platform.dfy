// The part of the platform layer the update logic depends on
// (platform.c): a serial handle as the receiver sees it, the SPI
// read-back buffer, the splitting of UPD-FLWRI flash writes on SPI
// links, and SER_BAUDRATE. Operating-system and vendor drivers are
// replaced by the state they would show to the caller: the bytes the
// device will send, how much each write accepts, the clock, and which
// rates the device setter accepts.
module Platform {
  import opened Bytes
  import opened Buffer
  import UbxMsg

  function Min(a: nat, b: nat): nat
  {
    if a <= b then a else b
  }

  /** n bytes of 0xFF: an idle SPI line, or erased flash. */
  function Idle(n: nat): (r: seq<byte>)
    ensures |r| == n && forall k :: 0 <= k < n ==> r[k] == 0xFF
  {
    seq(n, _ => 0xFF)
  }

  /** How many bytes a write of size bytes hands over when the driver's
      next limits are those given: all of them once the list is used up. */
  function Allowance(limits: seq<nat>, size: nat): (n: nat)
    ensures n <= size
  {
    if |limits| == 0 then size else Min(size, limits[0])
  }

  /** The limits left for later writes once one write is done. */
  function Later(limits: seq<nat>): seq<nat>
  {
    if |limits| == 0 then [] else limits[1..]
  }

  /** The chunks a driver will deliver, as one byte stream. */
  function Concat(chunks: seq<seq<byte>>): seq<byte>
  {
    if |chunks| == 0 then [] else chunks[0] + Concat(chunks[1..])
  }

  // ---------------------------------------------------------------------
  // Serial handle (SER_HANDLE_t with SER_WRITE, SER_READ, SER_BAUDRATE,
  // and the clock of TIME_GET / TIME_SLEEP)
  // ---------------------------------------------------------------------

  class SerialPort {
    /** The rate last set successfully (h->baudrate). */
    var baudrate: nat
    /** TIME_GET in milliseconds; only TIME_SLEEP advances it. */
    var now: nat
    /** What successive reads will find, one driver read per chunk. */
    var incoming: seq<seq<byte>>
    /** What each write handed to the driver actually accepted. */
    var sent: seq<seq<byte>>
    /** How many bytes each of the next writes accepts; writes beyond the
        list accept everything. */
    var writeLimits: seq<nat>
    /** The rates the device setter accepts. */
    const rates: set<nat>

    constructor (baudrate: nat, incoming: seq<seq<byte>>, writeLimits: seq<nat>, rates: set<nat>)
      ensures this.baudrate == baudrate && this.incoming == incoming
      ensures this.writeLimits == writeLimits && this.rates == rates
      ensures now == 0 && sent == []
    {
      this.baudrate := baudrate;
      this.incoming := incoming;
      this.writeLimits := writeLimits;
      this.rates := rates;
      now := 0;
      sent := [];
    }

    /** Bytes the device has sent that no read has taken yet. */
    function Pending(): seq<byte>
      reads this
    {
      Concat(incoming)
    }

    /** How many bytes the next write of size bytes accepts. */
    function Accepts(size: nat): (n: nat)
      reads this
      ensures n <= size
    {
      Allowance(writeLimits, size)
    }

    /** SER_WRITE: hands p to the driver and returns how much it took. */
    method Write(p: seq<byte>) returns (n: nat)
      modifies this
      ensures n == old(Accepts(|p|))
      ensures sent == old(sent) + [p[..n]]
      ensures writeLimits == Later(old(writeLimits))
      ensures incoming == old(incoming) && now == old(now) && baudrate == old(baudrate)
    {
      n := Accepts(|p|);
      sent := sent + [p[..n]];
      if |writeLimits| > 0 {
        writeLimits := writeLimits[1..];
      }
    }

    /** SER_READ: copies at most size bytes of what has arrived. */
    method Read(size: nat) returns (d: seq<byte>)
      modifies this
      ensures |d| <= size && d + Pending() == old(Pending())
      ensures sent == old(sent) && writeLimits == old(writeLimits)
      ensures now == old(now) && baudrate == old(baudrate)
    {
      if |incoming| == 0 {
        return [];
      }
      var c := incoming[0];
      var k := Min(size, |c|);
      d := c[..k];
      assert Concat(incoming) == c + Concat(incoming[1..]);
      if k == |c| {
        incoming := incoming[1..];
      } else {
        assert Concat([c[k..]] + incoming[1..]) == c[k..] + Concat(incoming[1..]) by {
          assert ([c[k..]] + incoming[1..])[1..] == incoming[1..];
        }
        incoming := [c[k..]] + incoming[1..];
        assert c == d + c[k..];
      }
    }

    /** TIME_SLEEP. */
    method Sleep(ms: nat)
      modifies this
      ensures now == old(now) + ms
      ensures incoming == old(incoming) && sent == old(sent)
      ensures writeLimits == old(writeLimits) && baudrate == old(baudrate)
    {
      now := now + ms;
    }

    /** SER_BAUDRATE: the handle records br only when the device setter
        succeeds, and the result is the setter's. */
    method SetBaudrate(br: nat) returns (ok: bool)
      modifies this
      ensures ok == (br in rates)
      ensures baudrate == if ok then br else old(baudrate)
      ensures incoming == old(incoming) && sent == old(sent)
      ensures writeLimits == old(writeLimits) && now == old(now)
    {
      ok := br in rates;
      if ok {
        baudrate := br;
      }
    }
  }

  // ---------------------------------------------------------------------
  // SPI link (SPI_WRITE, SPI_READ and SER_WRITE_SPI)
  // ---------------------------------------------------------------------

  /** sizeof(SPI_READBUFFER_t.buffer). */
  const SPI_READBUF_SIZE: nat := 4096
  /** COMPSZ: the longest read performed with a dummy write. */
  const SPI_COMPARE_SIZE: nat := 50
  /** totalFF: the longest run of 0xFF kept inside one flash sub-write. */
  const MAX_FF_RUN: nat := 8

  /** The first n bytes the device clocks back, an idle line (0xFF) once
      what it has to say is exhausted. */
  function ClockedBack(miso: seq<byte>, n: nat): (r: seq<byte>)
    ensures |r| == n
  {
    if n <= |miso| then miso[..n] else miso + Idle(n - |miso|)
  }

  class SpiPort {
    /** Bytes read back during writes, returned by later reads. */
    const readBuf: ByteBuffer
    /** Bytes clocked out to the device, one entry per transfer. */
    var transfers: seq<seq<byte>>
    /** What the device will clock back. */
    var miso: seq<byte>
    /** Every transfer reports an error status. */
    const fails: bool

    predicate Valid()
      reads this, readBuf
    {
      readBuf.Valid() && readBuf.data.Length == SPI_READBUF_SIZE
    }

    constructor (miso: seq<byte>, fails: bool)
      ensures Valid() && fresh(readBuf) && fresh(readBuf.data)
      ensures readBuf.Contents() == [] && transfers == []
      ensures this.miso == miso && this.fails == fails
    {
      readBuf := new ByteBuffer(SPI_READBUF_SIZE);
      transfers := [];
      this.miso := miso;
      this.fails := fails;
    }

    /** One full-duplex transfer of out; returns the bytes clocked back. */
    method Transfer(out: seq<byte>) returns (back: seq<byte>)
      modifies this
      ensures back == ClockedBack(old(miso), |out|)
      ensures miso == old(miso)[Min(|out|, |old(miso)|)..]
      ensures transfers == old(transfers) + [out]
    {
      back := ClockedBack(miso, |out|);
      miso := miso[Min(|out|, |miso|)..];
      transfers := transfers + [out];
    }

    /** SPI_WRITE: sends as many bytes as the read-back buffer has room
        for, keeps the bytes read back meanwhile, and returns the count;
        an error status gives 0 with nothing kept. */
    method SpiWrite(p: seq<byte>) returns (n: nat)
      requires Valid()
      modifies this, readBuf, readBuf.data
      ensures Valid()
      ensures n == if fails then 0 else Min(old(readBuf.Room()), |p|)
      ensures fails ==> readBuf.Contents() == old(readBuf.Contents()) && transfers == old(transfers)
      ensures !fails ==> (transfers == old(transfers) + [p[..n]]
                          && readBuf.Contents() == old(readBuf.Contents()) + ClockedBack(old(miso), n))
    {
      var size := Min(readBuf.Room(), |p|);
      if fails {
        return 0;
      }
      var back := Transfer(p[..size]);
      readBuf.Append(back);
      n := size;
    }

    /** SPI_READ: buffered bytes are returned first, from the front, the
        rest moving down in order. With nothing buffered, a dummy write of
        at most COMPSZ 0xFF bytes reads the device, and a reply made only
        of 0xFF counts as no data. */
    method SpiRead(size: nat) returns (d: seq<byte>)
      requires Valid()
      modifies this, readBuf, readBuf.data
      ensures Valid()
      ensures old(readBuf.size) > 0 ==>
                d == old(readBuf.Contents())[..Min(size, old(readBuf.size))]
                && readBuf.Contents() == old(readBuf.Contents())[|d|..]
      ensures old(readBuf.size) == 0 ==>
                readBuf.Contents() == []
                && (d == [] || d == ClockedBack(old(miso), Min(size, SPI_COMPARE_SIZE)))
                && (d != [] <==> !fails && ClockedBack(old(miso), Min(size, SPI_COMPARE_SIZE))
                                              != Idle(Min(size, SPI_COMPARE_SIZE)))
    {
      if readBuf.size > 0 {
        var k := Min(readBuf.size, size);
        d := readBuf.Contents()[..k];
        readBuf.Consume(k);
      } else {
        var k := Min(size, SPI_COMPARE_SIZE);
        if fails {
          return [];
        }
        var back := Transfer(Idle(k));
        if back == Idle(k) {
          d := [];
        } else {
          d := back;
        }
      }
    }

    /** Hands each frame to SPI_WRITE in turn, ignoring the counts. */
    method SpiWriteAll(frames: seq<seq<byte>>)
      requires Valid()
      modifies this, readBuf, readBuf.data
      ensures Valid()
      ensures |transfers| == |old(transfers)| + (if fails then 0 else |frames|)
      ensures forall k :: 0 <= k < |transfers| - |old(transfers)| ==> transfers[|old(transfers)| + k] <= frames[k]
    {
      var k := 0;
      while k < |frames|
        invariant 0 <= k <= |frames| && Valid()
        invariant |transfers| == |old(transfers)| + (if fails then 0 else k)
        invariant forall j :: 0 <= j < |transfers| - |old(transfers)| ==>
                    transfers[|old(transfers)| + j] <= frames[j]
      {
        ghost var before := transfers;
        var w := SpiWrite(frames[k]);
        if !fails {
          assert transfers == before + [frames[k][..w]];
        }
        k := k + 1;
      }
    }

    /** SER_WRITE_SPI: a UPD-FLWRI message is split into sub-writes that
        leave out long runs of 0xFF (see SplitFlashWrite), each sent as its
        own UPD-FLWRI frame, and the full size is reported whatever was
        sent; any other message goes to SPI_WRITE unchanged. */
    method SerWriteSpi(msg: seq<byte>) returns (n: nat, spans: seq<Span>, frames: seq<seq<byte>>)
      requires Valid() && UbxMsg.HEAD_SIZE <= |msg|
      requires IsFlashWrite(msg) ==> FLWRI_DATA <= |msg| && FLWRI_DATA + LE32At(msg, UbxMsg.HEAD_SIZE + 4) <= |msg|
      modifies this, readBuf, readBuf.data
      ensures Valid()
      ensures IsFlashWrite(msg) ==>
                n == |msg|
                && Segmented(FlashWriteData(msg), spans)
                && frames == FlashWriteFrames(LE32At(msg, UbxMsg.HEAD_SIZE), FlashWriteData(msg), spans)
      ensures !IsFlashWrite(msg) ==>
                frames == [msg] && n == if fails then 0 else Min(old(readBuf.Room()), |msg|)
      ensures |transfers| == |old(transfers)| + (if fails then 0 else |frames|)
      ensures forall k :: 0 <= k < |transfers| - |old(transfers)| ==> transfers[|old(transfers)| + k] <= frames[k]
    {
      if !IsFlashWrite(msg) {
        spans, frames := [], [msg];
        n := SpiWrite(msg);
        return;
      }
      var target := LE32At(msg, UbxMsg.HEAD_SIZE);
      var data := FlashWriteData(msg);
      spans := SplitFlashWrite(data);
      frames := FlashWriteFrames(target, data, spans);
      SpiWriteAll(frames);
      n := |msg|;
    }
  }

  // ---------------------------------------------------------------------
  // Splitting of UPD-FLWRI writes
  // ---------------------------------------------------------------------

  /** Offset of the data in a UPD-FLWRI frame: header, address, size. */
  const FLWRI_DATA: nat := UbxMsg.HEAD_SIZE + 8

  predicate IsFlashWrite(msg: seq<byte>)
    requires UbxMsg.HEAD_SIZE <= |msg|
  {
    msg[2] == UbxMsg.CLASS_UPD && msg[3] == UbxMsg.UPD_FLWRI
  }

  /** The writeSize bytes after the address and size words. */
  function FlashWriteData(msg: seq<byte>): seq<byte>
    requires FLWRI_DATA <= |msg| && FLWRI_DATA + LE32At(msg, UbxMsg.HEAD_SIZE + 4) <= |msg|
  {
    msg[FLWRI_DATA..FLWRI_DATA + LE32At(msg, UbxMsg.HEAD_SIZE + 4)]
  }

  /** A sub-write: len bytes of the data from offset start. */
  datatype Span = Span(start: nat, len: nat)

  function End(s: Span): nat
  {
    s.start + s.len
  }

  predicate AllIdle(data: seq<byte>, lo: nat, hi: nat)
    requires lo <= hi <= |data|
  {
    forall k :: lo <= k < hi ==> data[k] == 0xFF
  }

  /** MAX_FF_RUN + 1 bytes 0xFF from offset k. */
  predicate LongRunAt(data: seq<byte>, k: nat)
  {
    k + MAX_FF_RUN < |data| && AllIdle(data, k, k + MAX_FF_RUN + 1)
  }

  /** No run of more than MAX_FF_RUN bytes 0xFF inside [lo, hi). */
  predicate ShortRuns(data: seq<byte>, lo: nat, hi: nat)
    requires lo <= hi <= |data|
  {
    forall k :: lo <= k && k + MAX_FF_RUN < hi ==> !LongRunAt(data, k)
  }

  /** A sub-write holds data, ends on a byte other than 0xFF, keeps no long
      run of 0xFF, and starts on a byte other than 0xFF unless it is at
      the very start. */
  predicate SpanOk(data: seq<byte>, s: Span)
  {
    0 < s.len && End(s) <= |data| && data[End(s) - 1] != 0xFF
    && ShortRuns(data, s.start, End(s))
    && (s.start == 0 || data[s.start] != 0xFF)
  }

  /** Consecutive sub-writes are separated by a run of more than
      MAX_FF_RUN bytes 0xFF. */
  predicate Separated(data: seq<byte>, a: Span, b: Span)
  {
    End(a) + MAX_FF_RUN < b.start <= |data| && AllIdle(data, End(a), b.start)
  }

  /** What precedes the first sub-write: nothing, or a long run of 0xFF. */
  predicate Leading(data: seq<byte>, start: nat)
  {
    start <= |data| && (start == 0 || (MAX_FF_RUN < start && AllIdle(data, 0, start)))
  }

  /** The sub-writes of data in address order, with only 0xFF between
      them and after the last one; no sub-write at all iff the data is all
      0xFF. */
  predicate Segmented(data: seq<byte>, spans: seq<Span>)
  {
    (forall i :: 0 <= i < |spans| ==> SpanOk(data, spans[i]))
    && (forall i :: 0 < i < |spans| ==> Separated(data, spans[i - 1], spans[i]))
    && (if |spans| == 0 then AllIdle(data, 0, |data|)
        else Leading(data, spans[0].start) && AllIdle(data, End(spans[|spans| - 1]), |data|))
  }

  /** The sub-writes found before offset start, where the pending one
      begins. */
  predicate SegmentedBefore(data: seq<byte>, spans: seq<Span>, start: nat)
  {
    (forall i :: 0 <= i < |spans| ==> SpanOk(data, spans[i]))
    && (forall i :: 0 < i < |spans| ==> Separated(data, spans[i - 1], spans[i]))
    && (if |spans| == 0 then Leading(data, start)
        else Leading(data, spans[0].start) && Separated(data, spans[|spans| - 1], Span(start, 0)))
  }

  /** The state of the scan: [start, e) is the pending sub-write, ending
      on the last byte other than 0xFF seen so far, after the sub-writes
      already closed. */
  predicate PendingSpan(data: seq<byte>, spans: seq<Span>, start: nat, e: nat)
  {
    start <= e <= |data| && (e == 0 || data[e - 1] != 0xFF)
    && (0 < start ==> start < e && data[start] != 0xFF)
    && ShortRuns(data, start, e)
    && SegmentedBefore(data, spans, start)
  }

  /** The pending sub-write [start, e) once closed: nothing if it is empty. */
  function Closed(spans: seq<Span>, start: nat, e: nat): seq<Span>
  {
    if start < e then spans + [Span(start, e - start)] else spans
  }

  /** The scan of SER_WRITE_SPI over the data of a UPD-FLWRI message:
      pos walks the data, startOfData marks the pending sub-write and
      curSearch counts the 0xFF bytes since the last other byte. */
  method SplitFlashWrite(data: seq<byte>) returns (spans: seq<Span>)
    ensures Segmented(data, spans)
  {
    var pos, start, ff := 0, 0, 0;
    ghost var e := 0;   // pos - curSearch: just past the last byte other than 0xFF
    spans := [];
    while pos < |data|
      invariant ff <= pos <= |data| && e == pos - ff && AllIdle(data, e, pos)
      invariant PendingSpan(data, spans, start, e)
    {
      if data[pos] == 0xFF {
        ff := ff + 1;
      } else {
        if ff > MAX_FF_RUN {
          CloseSpan(data, spans, start, e, pos);
          ghost var closed := Closed(spans, start, e);
          if pos - start - ff > 0 {
            spans := spans + [Span(start, pos - start - ff)];
          }
          assert spans == closed;
          start := pos;
        } else {
          ExtendSpan(data, spans, start, e, pos);
        }
        ff := 0;
        e := pos + 1;
      }
      pos := pos + 1;
    }
    FinishSpans(data, spans, start, e);
    ghost var closed := Closed(spans, start, e);
    if pos - start - ff > 0 {
      spans := spans + [Span(start, pos - start - ff)];
    }
    assert spans == closed;
  }

  /** A short run of 0xFF, then another byte: the pending sub-write grows
      over both. */
  lemma ExtendSpan(data: seq<byte>, spans: seq<Span>, start: nat, e: nat, pos: nat)
    requires PendingSpan(data, spans, start, e)
    requires e <= pos < |data| && pos - e <= MAX_FF_RUN
    requires AllIdle(data, e, pos) && data[pos] != 0xFF
    ensures PendingSpan(data, spans, start, pos + 1)
  {
    forall k | start <= k && k + MAX_FF_RUN < pos + 1
      ensures !LongRunAt(data, k)
    {
      if k + MAX_FF_RUN < e {
      } else if k + MAX_FF_RUN == pos {
        assert data[pos] != 0xFF;
      } else {
        assert k <= e - 1 <= k + MAX_FF_RUN;
        assert data[e - 1] != 0xFF;
      }
    }
  }

  /** A long run of 0xFF, then another byte: the pending sub-write is
      closed and a new one starts at pos. */
  lemma CloseSpan(data: seq<byte>, spans: seq<Span>, start: nat, e: nat, pos: nat)
    requires PendingSpan(data, spans, start, e)
    requires e + MAX_FF_RUN < pos < |data|
    requires AllIdle(data, e, pos) && data[pos] != 0xFF
    ensures PendingSpan(data, Closed(spans, start, e), pos, pos + 1)
  {
    var spans' := Closed(spans, start, e);
    if start < e {
      assert SpanOk(data, Span(start, e - start));
      assert spans'[|spans'| - 1] == Span(start, e - start);
      forall i | 0 < i < |spans'|
        ensures Separated(data, spans'[i - 1], spans'[i])
      {
        if i < |spans'| - 1 {
          assert spans'[i - 1] == spans[i - 1] && spans'[i] == spans[i];
        }
      }
    }
  }

  /** At the end of the data the pending sub-write is closed, and what
      follows it is all 0xFF. */
  lemma FinishSpans(data: seq<byte>, spans: seq<Span>, start: nat, e: nat)
    requires PendingSpan(data, spans, start, e) && AllIdle(data, e, |data|)
    ensures Segmented(data, Closed(spans, start, e))
  {
    var spans' := Closed(spans, start, e);
    if start < e {
      assert SpanOk(data, Span(start, e - start));
      assert spans'[|spans'| - 1] == Span(start, e - start);
      forall i | 0 < i < |spans'|
        ensures Separated(data, spans'[i - 1], spans'[i])
      {
        if i < |spans'| - 1 {
          assert spans'[i - 1] == spans[i - 1] && spans'[i] == spans[i];
        }
      }
    }
  }

  /** The UPD-FLWRI frame of one sub-write: its address is target plus
      its offset, in 32-bit arithmetic, then its size, then its bytes. */
  function SubWriteFrame(target: u32, data: seq<byte>, s: Span): seq<byte>
    requires End(s) <= |data|
  {
    UbxMsg.Frame(UbxMsg.CLASS_UPD, UbxMsg.UPD_FLWRI,
                 EncodeLE32(ToU32(target + s.start)) + EncodeLE32(ToU32(s.len)) + data[s.start..End(s)])
  }

  /** The frames SER_WRITE_SPI sends for a write of data to address target:
      one per sub-write, or a single 0xFF byte at target when there is no
      sub-write. */
  function FlashWriteFrames(target: u32, data: seq<byte>, spans: seq<Span>): (r: seq<seq<byte>>)
    requires forall i :: 0 <= i < |spans| ==> End(spans[i]) <= |data|
    ensures |r| == if |spans| == 0 then 1 else |spans|
  {
    if |spans| == 0 then
      [UbxMsg.Frame(UbxMsg.CLASS_UPD, UbxMsg.UPD_FLWRI, EncodeLE32(target) + EncodeLE32(1) + [0xFF])]
    else
      seq(|spans|, i requires 0 <= i < |spans| => SubWriteFrame(target, data, spans[i]))
  }

  // ---------------------------------------------------------------------
  // What the splitting promises
  // ---------------------------------------------------------------------

  /** Sub-writes come in address order, each more than MAX_FF_RUN bytes
      past the end of the one before, so no two overlap. */
  lemma {:induction false} SpansOrdered(data: seq<byte>, spans: seq<Span>, i: nat, j: nat)
    requires Segmented(data, spans) && i < j < |spans|
    ensures End(spans[i]) + MAX_FF_RUN < spans[j].start
    decreases j - i
  {
    assert Separated(data, spans[j - 1], spans[j]);
    if i < j - 1 {
      SpansOrdered(data, spans, i, j - 1);
    }
  }

  /** Every byte other than 0xFF goes out in exactly one sub-write. */
  lemma EveryDataByteSent(data: seq<byte>, spans: seq<Span>, k: nat)
    requires Segmented(data, spans) && k < |data| && data[k] != 0xFF
    ensures exists i :: 0 <= i < |spans| && spans[i].start <= k < End(spans[i])
    ensures forall i, j :: 0 <= i < j < |spans| && spans[i].start <= k < End(spans[i]) ==>
              !(spans[j].start <= k < End(spans[j]))
  {
    var i := SpanBefore(data, spans, k, 0);
    forall i, j | 0 <= i < j < |spans| && spans[i].start <= k < End(spans[i])
      ensures !(spans[j].start <= k < End(spans[j]))
    {
      SpansOrdered(data, spans, i, j);
    }
  }

  /** The sub-write holding byte k, found by walking from sub-write i. */
  lemma {:induction false} SpanBefore(data: seq<byte>, spans: seq<Span>, k: nat, i: nat) returns (r: nat)
    requires Segmented(data, spans) && k < |data| && data[k] != 0xFF
    requires i < |spans| && (if i == 0 then true else End(spans[i - 1]) <= k)
    ensures r < |spans| && spans[r].start <= k < End(spans[r])
    decreases |spans| - i
  {
    if k < End(spans[i]) {
      r := i;
    } else if i + 1 < |spans| {
      r := SpanBefore(data, spans, k, i + 1);
    } else {
      assert false;
    }
  }

  /** The single-byte write at the original address happens exactly when
      the data is all 0xFF: only then is there no sub-write. */
  lemma NoSpansIffIdle(data: seq<byte>, spans: seq<Span>)
    requires Segmented(data, spans)
    ensures |spans| == 0 <==> AllIdle(data, 0, |data|)
  {
    if |spans| > 0 {
      assert SpanOk(data, spans[0]);
    }
  }

  /** The leading and separating rules leave no choice: the sub-writes
      are the same whoever computes them. */
  lemma SegmentedUnique(data: seq<byte>, s: seq<Span>, t: seq<Span>)
    requires Segmented(data, s) && Segmented(data, t)
    ensures s == t
  {
    if |s| <= |t| {
      PrefixAgrees(data, s, t, |s|);
      SameCount(data, s, t);
    } else {
      PrefixAgrees(data, t, s, |t|);
      SameCount(data, t, s);
    }
  }

  lemma {:induction false} PrefixAgrees(data: seq<byte>, s: seq<Span>, t: seq<Span>, i: nat)
    requires Segmented(data, s) && Segmented(data, t) && i <= |s| && i <= |t|
    ensures forall j :: 0 <= j < i ==> s[j] == t[j]
    decreases i
  {
    if i > 0 {
      PrefixAgrees(data, s, t, i - 1);
      SameStart(data, s, t, i - 1);
      NotShorter(data, s, t, i - 1);
      NotShorter(data, t, s, i - 1);
    }
  }

  /** Sub-write i starts at the same offset in both, given the same end of
      sub-write i - 1. */
  lemma SameStart(data: seq<byte>, s: seq<Span>, t: seq<Span>, i: nat)
    requires Segmented(data, s) && Segmented(data, t) && i < |s| && i < |t|
    requires i == 0 || End(s[i - 1]) == End(t[i - 1])
    ensures s[i].start == t[i].start
  {
    assert SpanOk(data, s[i]) && SpanOk(data, t[i]);
    if i == 0 {
      FirstStart(data, s, t);
      FirstStart(data, t, s);
    } else {
      assert Separated(data, s[i - 1], s[i]) && Separated(data, t[i - 1], t[i]);
    }
  }

  lemma FirstStart(data: seq<byte>, s: seq<Span>, t: seq<Span>)
    requires Segmented(data, s) && Segmented(data, t) && 0 < |s| && 0 < |t|
    ensures s[0].start <= t[0].start
  {
    assert SpanOk(data, s[0]) && SpanOk(data, t[0]);
    if t[0].start < s[0].start {
      assert Leading(data, s[0].start);
      if t[0].start == 0 {
        assert LongRunAt(data, 0);
      }
      assert false;
    }
  }

  /** Sub-write i of s ends no earlier than that of t when both start at
      the same offset. */
  lemma NotShorter(data: seq<byte>, s: seq<Span>, t: seq<Span>, i: nat)
    requires Segmented(data, s) && Segmented(data, t) && i < |s| && i < |t|
    requires s[i].start == t[i].start
    ensures End(t[i]) <= End(s[i])
  {
    var e := End(s[i]);
    assert SpanOk(data, t[i]);
    if e < End(t[i]) {
      if i + 1 < |s| {
        assert Separated(data, s[i], s[i + 1]);
        assert LongRunAt(data, e);
      }
      assert false;
    }
  }

  /** With the first |s| sub-writes equal, t has no more of them: the
      data after the last of them is all 0xFF. */
  lemma SameCount(data: seq<byte>, s: seq<Span>, t: seq<Span>)
    requires Segmented(data, s) && Segmented(data, t) && |s| <= |t|
    requires forall j :: 0 <= j < |s| ==> s[j] == t[j]
    ensures |s| == |t|
  {
    if |s| < |t| {
      MoreSpansNotIdle(data, t, |s|);
    }
  }

  /** A further sub-write means the data after sub-write i - 1 is not all
      0xFF. */
  lemma MoreSpansNotIdle(data: seq<byte>, t: seq<Span>, i: nat)
    requires Segmented(data, t) && i < |t|
    ensures i == 0 ==> !AllIdle(data, 0, |data|)
    ensures 0 < i ==> End(t[i - 1]) <= |data| && !AllIdle(data, End(t[i - 1]), |data|)
  {
    assert SpanOk(data, t[i]);
    if 0 < i {
      assert Separated(data, t[i - 1], t[i]);
    }
  }
}
