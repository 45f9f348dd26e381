// A receiver session (receiver.c): the 64 KiB receive buffer in which
// incoming bytes wait until a UBX frame can be cut out of them, and the
// send / poll / acknowledge / autobaud exchanges built on it.
module Receiver {
  import opened Bytes
  import opened Buffer
  import opened Platform
  import opened UbxMsg
  import CLib

  type Option<T> = CLib.Option<T>

  const RECEIVEBUF_SIZE: nat := 65536
  const AUTOBAUD_TIMEOUT: nat := 300
  const POLL_TIMEOUT: nat := 1000
  const RETRY_COUNT_AUTOBAUD: nat := 5
  const RETRY_COUNT: nat := 3
  /** gAutoBaudRates, in the order autobauding tries them. */
  const AUTOBAUD_RATES: seq<nat> := [9600, 115200, 57600, 19200, 38400, 230400]
  /** The two bytes rcvSendTrainingSequence sends to wake a receiver. */
  const TRAINING_SEQUENCE: seq<byte> := [0x55, 0x55]

  // ---------------------------------------------------------------------
  // Streams and frames
  // ---------------------------------------------------------------------

  /** t is what is left of s once a prefix is dropped. */
  predicate EndsWith(s: seq<byte>, t: seq<byte>)
  {
    |t| <= |s| && s[|s| - |t|..] == t
  }

  lemma EndsWithTrans(a: seq<byte>, b: seq<byte>, c: seq<byte>)
    requires EndsWith(a, b) && EndsWith(b, c)
    ensures EndsWith(a, c)
  {
    assert a[|a| - |c|..] == a[|a| - |b|..][|b| - |c|..];
  }

  /** Cutting m off the front of what followed s0 leaves a suffix of o. */
  lemma EndsWithDrop(o: seq<byte>, s0: seq<byte>, m: seq<byte>, s: seq<byte>)
    requires EndsWith(o, s0) && EndsWith(s0, m + s)
    ensures EndsWith(o, s)
  {
    EndsWithTrans(o, s0, m + s);
    assert (m + s)[|m|..] == s;
    EndsWithTrans(o, m + s, s);
  }

  /** Every write from index from on was a prefix of f. */
  predicate SentPrefixes(sent: seq<seq<byte>>, from: nat, f: seq<byte>)
  {
    forall k :: from <= k < |sent| ==> sent[k] <= f
  }

  lemma SentPrefixesGrow(sent: seq<seq<byte>>, req: seq<byte>, from: nat, f: seq<byte>)
    requires SentPrefixes(sent, from, f) && req <= f
    ensures SentPrefixes(sent + [req], from, f)
  {
  }

  /** No header in s declares a frame longer than 16384 bytes. The source
      gives such a header meaning only while the rest of the buffer is
      shorter than its stale length (it then stays in the buffer for good,
      the scan never dropping it from rcvReceiveMessage's point of view);
      once enough bytes follow, UbxSearchMsg reuses the stale header and
      reads outside the buffer. */
  predicate NoOversized(s: seq<byte>)
  {
    forall i :: 0 <= i && i + FRAME_SIZE <= |s| && SyncAt(s, i) ==> LengthAt(s, i) + FRAME_SIZE <= MAX_FRAME_SIZE
  }

  lemma NoOversizedSuffix(s: seq<byte>, k: nat)
    requires NoOversized(s) && k <= |s|
    ensures NoOversized(s[k..])
  {
    forall i | 0 <= i && i + FRAME_SIZE <= |s[k..]| && SyncAt(s[k..], i)
      ensures LengthAt(s[k..], i) + FRAME_SIZE <= MAX_FRAME_SIZE
    {
      assert SyncAt(s, k + i);
      assert s[k..][i + 4] == s[k + i + 4] && s[k..][i + 5] == s[k + i + 5];
    }
  }

  lemma NoOversizedPrefix(s: seq<byte>, t: seq<byte>)
    requires NoOversized(s + t)
    ensures NoOversized(s) && NoStaleReuse(s)
  {
    forall i | 0 <= i && i + FRAME_SIZE <= |s| && SyncAt(s, i)
      ensures LengthAt(s, i) + FRAME_SIZE <= MAX_FRAME_SIZE
    {
      assert SyncAt(s + t, i);
      assert (s + t)[i + 4] == s[i + 4] && (s + t)[i + 5] == s[i + 5];
    }
  }

  /** After a read, the buffered bytes are still a prefix of the stream,
      which the read does not change. */
  lemma BufferedPrefix(s0: seq<byte>, c0: seq<byte>, d: seq<byte>, c: seq<byte>, p: seq<byte>)
    requires NoOversized(s0) && s0 == c0 + (d + p) && c == c0 + d
    ensures s0 == c + p && NoStaleReuse(c)
  {
    assert s0 == c + p;
    NoOversizedPrefix(c, p);
  }

  /** The buffered bytes split around a cut frame split the stream too. */
  lemma CutApart(s0: seq<byte>, c: seq<byte>, skipped: seq<byte>, m: seq<byte>, rest: seq<byte>, p: seq<byte>)
    requires s0 == c + p && c == skipped + m + rest
    ensures s0 == skipped + m + (rest + p)
  {
  }

  /** Cutting a frame out of the buffered bytes c leaves a suffix of the
      stream, shorter by the frame. */
  lemma AfterCut(o: seq<byte>, s0: seq<byte>, c: seq<byte>, m: seq<byte>, rest: seq<byte>, p: seq<byte>)
    requires NoOversized(s0) && s0 == c + p && EndsWith(c, m + rest) && EndsWith(o, s0)
    ensures NoOversized(rest + p)
    ensures EndsWith(o, m + (rest + p)) && EndsWith(o, rest + p)
  {
    var k := CutSuffix(s0, c, m, rest, p);
    NoOversizedSuffix(s0, k);
    EndsWithTrans(o, s0, m + (rest + p));
    EndsWithTrans(o, s0, rest + p);
  }

  lemma CutSuffix(s0: seq<byte>, c: seq<byte>, m: seq<byte>, rest: seq<byte>, p: seq<byte>) returns (k: nat)
    requires s0 == c + p && EndsWith(c, m + rest)
    ensures k <= |s0| && s0[k..] == rest + p
    ensures EndsWith(s0, m + (rest + p)) && EndsWith(s0, rest + p)
  {
    var j := |c| - |m + rest|;
    assert c == c[..j] + (m + rest);
    assert s0 == c[..j] + m + (rest + p);
    k := j + |m|;
    assert s0[j..] == m + (rest + p);
    assert s0[k..] == rest + p;
  }

  /** A whole frame the scan accepts, as rcvReceiveMessage copies it out. */
  predicate IsFrame(m: seq<byte>)
  {
    ValidFrameAt(m, 0) && |m| == LengthAt(m, 0) + FRAME_SIZE
  }

  lemma FrameCut(c: seq<byte>, at: nat)
    requires ValidFrameAt(c, at)
    ensures IsFrame(c[at..at + LengthAt(c, at) + FRAME_SIZE])
  {
    var m := c[at..at + LengthAt(c, at) + FRAME_SIZE];
    assert m[..] == c[at..][..LengthAt(c, at) + FRAME_SIZE];
    assert forall k :: 0 <= k < |m| ==> m[k] == c[at + k];
    assert LengthAt(m, 0) == LengthAt(c, at);
    var n := LengthAt(c, at);
    assert m[PREFIX_SIZE..HEAD_SIZE + n] == c[at + PREFIX_SIZE..at + HEAD_SIZE + n];
  }

  /** rcvReceiveMessage's filter: -1 matches any class or id. */
  predicate Matches(m: seq<byte>, classId: int, msgId: int)
    requires HEAD_SIZE <= |m|
  {
    (classId == -1 || classId == m[2]) && (msgId == -1 || msgId == m[3])
  }

  /** A valid frame at j stays valid when bytes are appended. */
  lemma ValidFramePrefix(x: seq<byte>, y: seq<byte>, j: nat)
    ensures ValidFrameAt(x, j) ==> ValidFrameAt(x + y, j)
  {
    if ValidFrameAt(x, j) {
      var n := LengthAt(x, j);
      assert (x + y)[j + 4] == x[j + 4] && (x + y)[j + 5] == x[j + 5];
      assert (x + y)[j + PREFIX_SIZE .. j + HEAD_SIZE + n] == x[j + PREFIX_SIZE .. j + HEAD_SIZE + n];
    }
  }

  /** frame is the first whole valid frame in skipped + frame: no valid
      frame starts in the bytes skipped in front of it. */
  predicate FirstFrame(skipped: seq<byte>, frame: seq<byte>)
  {
    IsFrame(frame) && forall j :: 0 <= j < |skipped| ==> !ValidFrameAt(skipped + frame, j)
  }

  /** A frame cut out of the stream, with the bytes discarded in front of it. */
  datatype Cut = Cut(skipped: seq<byte>, frame: seq<byte>)

  /** The bytes the cuts took off the front of the stream, in order. */
  function Consumed(cuts: seq<Cut>): (r: seq<byte>)
    ensures cuts == [] ==> r == []
  {
    if cuts == [] then []
    else Consumed(cuts[..|cuts| - 1]) + cuts[|cuts| - 1].skipped + cuts[|cuts| - 1].frame
  }

  /** A first frame that rcvReceiveMessage cut out and dropped because its
      class or id did not match. */
  predicate Dropped(c: Cut, classId: int, msgId: int)
  {
    FirstFrame(c.skipped, c.frame) && !Matches(c.frame, classId, msgId)
  }

  lemma ConsumedMore(o: seq<byte>, cuts: seq<Cut>, s0: seq<byte>, c: Cut, s: seq<byte>)
    requires o == Consumed(cuts) + s0 && s0 == c.skipped + c.frame + s
    ensures o == Consumed(cuts + [c]) + s
  {
    assert (cuts + [c])[..|cuts|] == cuts;
  }

  /** The frames ms were taken out of s0 in this order: ms[i] is followed
      in s0 by after[i] bytes, each frame lies before the next, and all of
      them lie before the bytes t that are left. */
  predicate Taken(s0: seq<byte>, ms: seq<seq<byte>>, after: seq<nat>, t: seq<byte>)
    decreases |ms|
  {
    |after| == |ms| && EndsWith(s0, t)
    && (|ms| > 0 ==>
          var k := |ms| - 1;
          |t| <= after[k] && after[k] + |ms[k]| <= |s0|
          && s0[|s0| - after[k] - |ms[k]|..|s0| - after[k]] == ms[k]
          && Taken(s0, ms[..k], after[..k], s0[|s0| - after[k] - |ms[k]|..]))
  }

  /** Dropping more of the stream keeps what was taken. */
  lemma TakenLess(s0: seq<byte>, ms: seq<seq<byte>>, after: seq<nat>, t: seq<byte>, u: seq<byte>)
    requires Taken(s0, ms, after, t) && EndsWith(t, u)
    ensures Taken(s0, ms, after, u)
  {
    EndsWithTrans(s0, t, u);
  }

  /** A frame cut off what was left is taken after the others. */
  lemma TakenMore(s0: seq<byte>, ms: seq<seq<byte>>, after: seq<nat>, t: seq<byte>, m: seq<byte>, u: seq<byte>)
    requires Taken(s0, ms, after, t) && EndsWith(t, m + u)
    ensures Taken(s0, ms + [m], after + [|u|], u)
  {
    EndsWithTrans(s0, t, m + u);
    EndsWithDrop(s0, s0, m, u);
    var k := |s0| - |u| - |m|;
    assert s0[k..] == m + u;
    assert s0[k..|s0| - |u|] == s0[k..][..|m|];
    assert EndsWith(t, s0[k..]);
    TakenLess(s0, ms, after, t, s0[k..]);
    assert (ms + [m])[..|ms|] == ms && (after + [|u|])[..|ms|] == after;
  }

  // ---------------------------------------------------------------------
  // The session (RCV_DATA_t)
  // ---------------------------------------------------------------------

  class Session {
    const port: SerialPort
    /** RECEIVEBUF_t: Buf and pEnd; pCurrent equals Buf between calls. */
    const buf: ByteBuffer

    predicate Valid()
      reads this, buf
    {
      buf.Valid() && buf.data.Length == RECEIVEBUF_SIZE
    }

    /** What rcvReceiveMessage can still see: the buffered bytes, then
        whatever the device has sent that no read has taken yet. */
    function Stream(): seq<byte>
      reads this, buf, buf.data, port
      requires Valid()
    {
      buf.Contents() + port.Pending()
    }

    constructor (port: SerialPort)
      ensures Valid() && this.port == port && fresh(buf) && fresh(buf.data)
      ensures buf.Contents() == []
    {
      this.port := port;
      buf := new ByteBuffer(RECEIVEBUF_SIZE);
    }

    /** rcvClearBuffer: pCurrent = pEnd = Buf. */
    method ClearBuffer()
      requires Valid()
      modifies buf
      ensures Valid() && buf.Contents() == []
    {
      buf.Clear();
    }

    /** One pass of rcvReceiveMessage over the buffer: when UbxSearchMsg
        finds a frame, the frame is copied out and every byte up to its end
        is removed, the rest moving to the start in order; otherwise the
        buffer is left as it is and the scan's discard position ignored. */
    method TakeFrame() returns (m: Option<seq<byte>>, ghost skipped: seq<byte>)
      requires Valid() && NoStaleReuse(buf.Contents())
      modifies buf, buf.data
      ensures Valid()
      ensures var r := Search(old(buf.Contents()), 0);
              if r.0 then
                r.1 + HEAD_SIZE <= |old(buf.Contents())|
                && var e := r.1 + LengthAt(old(buf.Contents()), r.1) + FRAME_SIZE;
                   e <= |old(buf.Contents())|
                   && m == CLib.Some(old(buf.Contents())[r.1..e])
                   && buf.Contents() == old(buf.Contents())[e..]
              else m.None? && buf.Contents() == old(buf.Contents())
      ensures m.Some? ==> IsFrame(m.value) && EndsWith(old(buf.Contents()), m.value + buf.Contents())
      ensures m.Some? ==> old(buf.Contents()) == skipped + m.value + buf.Contents() && FirstFrame(skipped, m.value)
    {
      var c := buf.Contents();
      var found, at := UbxSearchMsg(c);
      skipped := [];
      if !found {
        return CLib.None, skipped;
      }
      var e := at + LengthAt(c, at) + FRAME_SIZE;
      FrameCut(c, at);
      m := CLib.Some(c[at..e]);
      buf.Consume(e);
      assert c[at..] == c[at..e] + c[e..];
      skipped := c[..at];
      assert c == (skipped + m.value) + c[e..];
      SearchSpec(c, 0);
      forall j | 0 <= j < |skipped|
        ensures !ValidFrameAt(skipped + m.value, j)
      {
        ValidFramePrefix(skipped + m.value, c[e..], j);
      }
    }

    /** One pass of rcvReceiveMessage's loop: the free space is filled
        from the driver, then one frame, if any, is cut out. */
    method ReceivePass() returns (m: Option<seq<byte>>, ghost skipped: seq<byte>)
      requires Valid() && NoOversized(Stream())
      modifies buf, buf.data, port
      ensures Valid() && NoOversized(Stream())
      ensures port.sent == old(port.sent) && port.writeLimits == old(port.writeLimits)
      ensures port.baudrate == old(port.baudrate) && port.now == old(port.now)
      ensures m.Some? ==> IsFrame(m.value) && EndsWith(old(Stream()), m.value + Stream())
      ensures m.Some? ==> old(Stream()) == skipped + m.value + Stream() && FirstFrame(skipped, m.value)
      ensures m.None? ==> Stream() == old(Stream())
      ensures EndsWith(old(Stream()), Stream())
    {
      ghost var s0, c0 := Stream(), buf.Contents();
      var d := port.Read(buf.Room());
      buf.Append(d);
      ghost var c := buf.Contents();
      BufferedPrefix(s0, c0, d, c, port.Pending());
      m, skipped := TakeFrame();
      if m.Some? {
        AfterCut(s0, s0, c, m.value, buf.Contents(), port.Pending());
        CutApart(s0, c, skipped, m.value, buf.Contents(), port.Pending());
      } else {
        assert Stream() == s0;
      }
    }

    /** The 1 ms rcvReceiveMessage sleeps when no frame was found. */
    method Pause()
      requires Valid()
      modifies port
      ensures Valid() && Stream() == old(Stream())
      ensures port.now == old(port.now) + 1
      ensures port.sent == old(port.sent) && port.writeLimits == old(port.writeLimits)
      ensures port.baudrate == old(port.baudrate)
    {
      port.Sleep(1);
    }

    /** rcvReceiveMessage: reads into the free space, cuts out frames, and
        returns the first one whose class and id match (-1 matching any);
        frames that do not match are dropped. It gives up, with nothing
        removed past the last frame cut out, once the deadline now + timeout
        has passed, the first pass being made whatever the timeout. */
    method ReceiveMessage(timeout: nat, classId: int, msgId: int) returns (m: Option<seq<byte>>, ghost cuts: seq<Cut>)
      requires Valid() && NoOversized(Stream())
      modifies buf, buf.data, port
      ensures Valid() && NoOversized(Stream())
      ensures port.sent == old(port.sent) && port.writeLimits == old(port.writeLimits)
      ensures port.baudrate == old(port.baudrate) && old(port.now) <= port.now
      ensures m.Some? ==> IsFrame(m.value) && Matches(m.value, classId, msgId)
                          && EndsWith(old(Stream()), m.value + Stream())
      ensures m.None? ==> EndsWith(old(Stream()), Stream()) && old(port.now) + timeout <= port.now
      ensures m.None? ==> |Stream()| < |old(Stream())| || old(port.now) < port.now
      ensures old(Stream()) == Consumed(cuts) + Stream()
      ensures m.Some? ==> |cuts| > 0 && cuts[|cuts| - 1].frame == m.value
                          && FirstFrame(cuts[|cuts| - 1].skipped, m.value)
                          && forall k :: 0 <= k < |cuts| - 1 ==> Dropped(cuts[k], classId, msgId)
      ensures m.None? ==> forall k :: 0 <= k < |cuts| ==> Dropped(cuts[k], classId, msgId)
    {
      var toTime := port.now + timeout;
      ghost var moved := false;
      cuts := [];
      while true
        invariant Valid() && NoOversized(Stream()) && EndsWith(old(Stream()), Stream())
        invariant port.sent == old(port.sent) && port.writeLimits == old(port.writeLimits)
        invariant port.baudrate == old(port.baudrate) && old(port.now) <= port.now <= toTime
        invariant moved ==> |Stream()| < |old(Stream())| || old(port.now) < port.now
        invariant old(Stream()) == Consumed(cuts) + Stream()
        invariant forall k :: 0 <= k < |cuts| ==> Dropped(cuts[k], classId, msgId)
        decreases toTime - port.now, |Stream()|
      {
        ghost var s0 := Stream();
        ghost var skipped;
        m, skipped := ReceivePass();
        EndsWithTrans(old(Stream()), s0, Stream());
        if m.Some? {
          ConsumedMore(old(Stream()), cuts, s0, Cut(skipped, m.value), Stream());
          cuts := cuts + [Cut(skipped, m.value)];
          if Matches(m.value, classId, msgId) {
            EndsWithTrans(old(Stream()), s0, m.value + Stream());
            return;
          }
          assert |Stream()| < |s0|;
        } else {
          Pause();
        }
        moved := true;
        if port.now >= toTime {
          break;
        }
      }
      m := CLib.None;
    }

    /** rcvSendMessage: TRUE iff the driver took the whole frame. */
    method SendMessage(classId: byte, msgId: byte, payload: seq<byte>) returns (ok: bool)
      modifies port
      ensures ok == (old(port.Accepts(|Frame(classId, msgId, payload)|)) == |Frame(classId, msgId, payload)|)
      ensures port.sent == old(port.sent) + [Frame(classId, msgId, payload)[..old(port.Accepts(|Frame(classId, msgId, payload)|))]]
      ensures port.writeLimits == Later(old(port.writeLimits))
      ensures port.incoming == old(port.incoming) && port.now == old(port.now) && port.baudrate == old(port.baudrate)
    {
      var msg := UbxCreateMessage(classId, msgId, payload);
      var written := port.Write(msg);
      ok := written == |msg|;
    }

    /** One round of rcvPollMessage: the request, then, when the driver
        took all of it, a wait of timeout ms for the reply of the same
        class and id. */
    method PollRound(classId: byte, msgId: byte, payload: seq<byte>, timeout: nat)
      returns (m: Option<seq<byte>>, ghost req: seq<byte>)
      requires Valid() && NoOversized(Stream())
      modifies buf, buf.data, port
      ensures Valid() && NoOversized(Stream()) && EndsWith(old(Stream()), Stream())
      ensures port.baudrate == old(port.baudrate) && old(port.now) <= port.now
      ensures port.sent == old(port.sent) + [req] && req <= Frame(classId, msgId, payload)
      ensures m.Some? ==> IsFrame(m.value) && m.value[2] == classId && m.value[3] == msgId
                          && EndsWith(old(Stream()), m.value + Stream())
    {
      ghost var s0 := Stream();
      var sentOk := SendMessage(classId, msgId, payload);
      req := port.sent[|port.sent| - 1];
      m := CLib.None;
      if sentOk {
        ghost var cuts;
        m, cuts := ReceiveMessage(timeout, classId, msgId);
        if m.Some? {
          EndsWithDrop(old(Stream()), s0, m.value, Stream());
        } else {
          EndsWithTrans(old(Stream()), s0, Stream());
        }
      }
    }

    /** rcvPollMessage: up to RETRY_COUNT rounds of sending the request and
        waiting timeout ms for a reply of the same class and id; a round
        whose send falls short waits for nothing. */
    method PollMessage(classId: byte, msgId: byte, payload: seq<byte>, timeout: nat) returns (m: Option<seq<byte>>)
      requires Valid() && NoOversized(Stream())
      modifies buf, buf.data, port
      ensures Valid() && NoOversized(Stream()) && EndsWith(old(Stream()), Stream())
      ensures port.baudrate == old(port.baudrate) && old(port.now) <= port.now
      ensures 1 <= |port.sent| - |old(port.sent)| <= RETRY_COUNT
      ensures SentPrefixes(port.sent, |old(port.sent)|, Frame(classId, msgId, payload))
      ensures m.Some? ==> IsFrame(m.value) && m.value[2] == classId && m.value[3] == msgId
                          && EndsWith(old(Stream()), m.value + Stream())
      ensures m.None? ==> |port.sent| == |old(port.sent)| + RETRY_COUNT
    {
      ghost var f := Frame(classId, msgId, payload);
      var retry := 0;
      while retry < RETRY_COUNT
        invariant 0 <= retry <= RETRY_COUNT && |port.sent| == |old(port.sent)| + retry
        invariant Valid() && NoOversized(Stream()) && EndsWith(old(Stream()), Stream())
        invariant port.baudrate == old(port.baudrate) && old(port.now) <= port.now
        invariant SentPrefixes(port.sent, |old(port.sent)|, f)
      {
        ghost var s0, sent0 := Stream(), port.sent;
        ghost var req;
        m, req := PollRound(classId, msgId, payload, timeout);
        EndsWithTrans(old(Stream()), s0, Stream());
        SentPrefixesGrow(sent0, req, |old(port.sent)|, f);
        if m.Some? {
          EndsWithTrans(old(Stream()), s0, m.value + Stream());
          return;
        }
        retry := retry + 1;
      }
      m := CLib.None;
    }

    /** The inner loop of rcvAckMessage: ACK-class messages are read until
        one names the command, or until the round's deadline toTime. */
    method AwaitAck(classId: byte, msgId: byte, toTime: nat) returns (r: int, ghost reply: seq<byte>)
      requires Valid() && NoOversized(Stream()) && port.now <= toTime
      modifies buf, buf.data, port
      ensures Valid() && NoOversized(Stream()) && EndsWith(old(Stream()), Stream())
      ensures port.baudrate == old(port.baudrate) && port.sent == old(port.sent)
      ensures old(port.now) <= port.now
      ensures r == 1 || r == 0 || r == -1
      ensures r != -1 ==> IsFrame(reply) && reply[2] == CLASS_ACK
                          && reply[6] == classId && reply[7] == msgId
                          && (r == 1 <==> reply[3] == ACK_ACK)
                          && EndsWith(old(Stream()), reply + Stream())
    {
      reply := [];
      while true
        invariant Valid() && NoOversized(Stream()) && EndsWith(old(Stream()), Stream())
        invariant port.baudrate == old(port.baudrate) && port.sent == old(port.sent)
        invariant old(port.now) <= port.now <= toTime
        decreases toTime - port.now, |Stream()|
      {
        ghost var s0 := Stream();
        var ack, cuts := ReceiveMessage(toTime - port.now, CLASS_ACK as int, -1);
        if ack.Some? {
          EndsWithDrop(old(Stream()), s0, ack.value, Stream());
          var a := ack.value;
          if a[HEAD_SIZE] == classId && a[HEAD_SIZE + 1] == msgId {
            EndsWithTrans(old(Stream()), s0, a + Stream());
            reply := a;
            r := if a[3] == ACK_ACK then 1 else 0;
            return;
          }
        } else {
          EndsWithTrans(old(Stream()), s0, Stream());
        }
        if port.now >= toTime {
          break;
        }
      }
      r := -1;
    }

    /** One round of rcvAckMessage: the command, then, when the driver took
        all of it, the wait for its acknowledgement. */
    method AckRound(classId: byte, msgId: byte, payload: seq<byte>, timeout: nat)
      returns (r: int, ghost reply: seq<byte>, ghost req: seq<byte>)
      requires Valid() && NoOversized(Stream())
      modifies buf, buf.data, port
      ensures Valid() && NoOversized(Stream()) && EndsWith(old(Stream()), Stream())
      ensures port.baudrate == old(port.baudrate) && old(port.now) <= port.now
      ensures port.sent == old(port.sent) + [req] && req <= Frame(classId, msgId, payload)
      ensures r == 1 || r == 0 || r == -1
      ensures r != -1 ==> IsFrame(reply) && reply[2] == CLASS_ACK
                          && reply[6] == classId && reply[7] == msgId
                          && (r == 1 <==> reply[3] == ACK_ACK)
                          && EndsWith(old(Stream()), reply + Stream())
    {
      ghost var s0 := Stream();
      var sentOk := SendMessage(classId, msgId, payload);
      req := port.sent[|port.sent| - 1];
      r, reply := -1, [];
      if sentOk {
        r, reply := AwaitAck(classId, msgId, port.now + timeout);
        EndsWithTrans(old(Stream()), s0, Stream());
        if r != -1 {
          EndsWithTrans(old(Stream()), s0, reply + Stream());
        }
      }
    }

    /** rcvAckMessage: up to RETRY_COUNT rounds of sending the command and
        reading ACK-class messages until one names the command's class
        and id (payload bytes 0 and 1) or the round's deadline passes.
        ACKs for other commands are skipped without resending. The result
        is 1 for ACK-ACK, 0 for any other ACK-class message naming the
        command, and -1 when every round ends without one. */
    method AckMessage(classId: byte, msgId: byte, payload: seq<byte>, timeout: nat) returns (r: int, ghost reply: seq<byte>)
      requires Valid() && NoOversized(Stream())
      modifies buf, buf.data, port
      ensures Valid() && NoOversized(Stream()) && EndsWith(old(Stream()), Stream())
      ensures port.baudrate == old(port.baudrate) && old(port.now) <= port.now
      ensures 1 <= |port.sent| - |old(port.sent)| <= RETRY_COUNT
      ensures SentPrefixes(port.sent, |old(port.sent)|, Frame(classId, msgId, payload))
      ensures r == 1 || r == 0 || r == -1
      ensures r != -1 ==> IsFrame(reply) && reply[2] == CLASS_ACK
                          && reply[6] == classId && reply[7] == msgId
                          && (r == 1 <==> reply[3] == ACK_ACK)
                          && EndsWith(old(Stream()), reply + Stream())
      ensures r == -1 ==> |port.sent| == |old(port.sent)| + RETRY_COUNT
    {
      ghost var f := Frame(classId, msgId, payload);
      reply := [];
      var retry := 0;
      while retry < RETRY_COUNT
        invariant 0 <= retry <= RETRY_COUNT && |port.sent| == |old(port.sent)| + retry
        invariant Valid() && NoOversized(Stream()) && EndsWith(old(Stream()), Stream())
        invariant port.baudrate == old(port.baudrate) && old(port.now) <= port.now
        invariant SentPrefixes(port.sent, |old(port.sent)|, f)
      {
        ghost var s0, sent0 := Stream(), port.sent;
        ghost var req;
        r, reply, req := AckRound(classId, msgId, payload, timeout);
        EndsWithTrans(old(Stream()), s0, Stream());
        SentPrefixesGrow(sent0, req, |old(port.sent)|, f);
        if r != -1 {
          EndsWithTrans(old(Stream()), s0, reply + Stream());
          return;
        }
        retry := retry + 1;
      }
      r := -1;
    }

    /** rcvSetBaud: clears the buffer, then asks the driver for the rate;
        FALSE when the driver refuses it, otherwise TRUE after 200 ms. */
    method SetBaud(baud: nat) returns (ok: bool)
      requires Valid() && NoOversized(Stream())
      modifies buf, port
      ensures Valid() && NoOversized(Stream()) && buf.Contents() == []
      ensures EndsWith(old(Stream()), Stream())
      ensures ok == (baud in port.rates)
      ensures port.baudrate == if ok then baud else old(port.baudrate)
      ensures port.sent == old(port.sent) && old(port.now) <= port.now
    {
      ghost var s0 := Stream();
      ClearBuffer();
      assert s0 == old(buf.Contents()) + Stream();
      NoOversizedSuffix(s0, |old(buf.Contents())|);
      ok := port.SetBaudrate(baud);
      if !ok {
        return;
      }
      port.Sleep(200);
    }

    /** rcvSendTrainingSequence: two 0x55 bytes, then 10 ms of quiet. */
    method SendTrainingSequence() returns (ok: bool)
      modifies port
      ensures ok == (old(port.Accepts(|TRAINING_SEQUENCE|)) == |TRAINING_SEQUENCE|)
      ensures port.sent == old(port.sent) + [TRAINING_SEQUENCE[..old(port.Accepts(|TRAINING_SEQUENCE|))]]
      ensures port.incoming == old(port.incoming) && port.baudrate == old(port.baudrate)
      ensures port.now == old(port.now) + 10
    {
      var written := port.Write(TRAINING_SEQUENCE);
      ok := written == |TRAINING_SEQUENCE|;
      port.Sleep(10);
    }

    /** One MON-VER poll of rcvDoAutobaud, with the autobaud timeout. */
    method PollVersion() returns (m: Option<seq<byte>>)
      requires Valid() && NoOversized(Stream())
      modifies buf, buf.data, port
      ensures Valid() && NoOversized(Stream()) && EndsWith(old(Stream()), Stream())
      ensures m.Some? ==> IsFrame(m.value) && m.value[2] == CLASS_MON && m.value[3] == MON_VER
                          && EndsWith(old(Stream()), m.value + Stream())
    {
      m := PollMessage(CLASS_MON, MON_VER, [], AUTOBAUD_TIMEOUT);
    }

    /** rcvDoAutobaud's switch to the next rate: rcvSetBaud, whatever its
        outcome, then the training sequence when asked for. */
    method SwitchRate(baud: nat, sendTraining: bool)
      requires Valid() && NoOversized(Stream())
      modifies buf, buf.data, port
      ensures Valid() && NoOversized(Stream()) && EndsWith(old(Stream()), Stream())
      ensures port.baudrate == if baud in port.rates then baud else old(port.baudrate)
    {
      var _ := SetBaud(baud);
      if sendTraining {
        var _ := SendTrainingSequence();
      }
    }

    /** rcvDoAutobaud: polls MON-VER with the 300 ms timeout until a reply
        comes. Each rate, the current one first, gets
        RETRY_COUNT_AUTOBAUD + 2 polls (the counter is compared before it
        is incremented); then the next rate of gAutoBaudRates is set,
        whether or not the driver takes it, and the training sequence is
        sent when asked for. NULL only once the list is exhausted. */
    method DoAutobaud(sendTraining: bool) returns (m: Option<seq<byte>>, ghost tried: seq<nat>, ghost polls: nat)
      requires Valid() && NoOversized(Stream())
      modifies buf, buf.data, port
      ensures Valid() && NoOversized(Stream())
      ensures m.Some? ==> IsFrame(m.value) && m.value[2] == CLASS_MON && m.value[3] == MON_VER
                          && EndsWith(old(Stream()), m.value + Stream())
      ensures m.Some? ==> tried <= AUTOBAUD_RATES
      ensures m.None? ==> tried == AUTOBAUD_RATES
                          && polls == (|AUTOBAUD_RATES| + 1) * (RETRY_COUNT_AUTOBAUD + 2)
    {
      var retryCount := 0;
      var autoBaudIndex := 0;
      tried, polls := [], 0;
      while true
        invariant Valid() && NoOversized(Stream()) && EndsWith(old(Stream()), Stream())
        invariant autoBaudIndex <= |AUTOBAUD_RATES| && retryCount <= RETRY_COUNT_AUTOBAUD + 1
        invariant tried == AUTOBAUD_RATES[..autoBaudIndex]
        invariant polls == autoBaudIndex * (RETRY_COUNT_AUTOBAUD + 2) + retryCount
        decreases |AUTOBAUD_RATES| - autoBaudIndex, RETRY_COUNT_AUTOBAUD + 1 - retryCount
      {
        ghost var s0 := Stream();
        m := PollVersion();
        polls := polls + 1;
        if m.Some? {
          EndsWithTrans(old(Stream()), s0, m.value + Stream());
          return;
        }
        EndsWithTrans(old(Stream()), s0, Stream());
        var count := retryCount;
        retryCount := retryCount + 1;
        if count <= RETRY_COUNT_AUTOBAUD {
          // retry at the same rate
        } else if autoBaudIndex < |AUTOBAUD_RATES| {
          ghost var s1 := Stream();
          SwitchRate(AUTOBAUD_RATES[autoBaudIndex], sendTraining);
          EndsWithTrans(old(Stream()), s1, Stream());
          tried := AUTOBAUD_RATES[..autoBaudIndex + 1];
          autoBaudIndex := autoBaudIndex + 1;
          retryCount := 0;
        } else {
          return CLib.None, tried, polls;
        }
      }
    }
  }
}
