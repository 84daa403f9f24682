/**
 * esp/src/mqtt/queue.c, and the retry loop of mqtt.c around it: a packet that does not fit
 * drives the oldest chunks out of the ring until it does or nothing is left.
 */
module Queue {
  import opened Bytes
  import opened RingBuf
  import opened Proto

  // ----- the retry loop on ring contents -----

  /** A frame: an END at the end and nowhere else. */
  ghost predicate IsFrame(f: seq<byte>) {
    f != [] && forall k :: 0 <= k < |f| ==> END !in f[..k]
  }

  /** The content once f has been torn off at a full ring and the oldest chunk dropped. */
  ghost function TornAndDropped(size: nat, c: seq<byte>, f: seq<byte>): seq<byte>
    requires |c| <= size < |c| + |f| && END in c
  {
    c[EndPos(c) + 1..] + f[..size - |c|]
  }

  /** Each try either fits, or costs the oldest chunk, or finds none and drains the ring. */
  ghost function Retry(size: nat, c: seq<byte>, f: seq<byte>): (bool, seq<byte>)
    requires |c| <= size && IsFrame(f)
    decreases |Chunks(c)|
  {
    if |c| + |f| <= size then (true, c + f)
    else if END !in c then (false, [])
    else
      DropShortens(size, c, f);
      Retry(size, TornAndDropped(size, c, f), f)
  }

  lemma DropShortens(size: nat, c: seq<byte>, f: seq<byte>)
    requires |c| <= size < |c| + |f| && END in c && IsFrame(f)
    ensures var d := TornAndDropped(size, c, f);
            && Chunks(d) == Chunks(c)[1..] && |d| <= size && size - |d| == |Chunks(c)[0]|
            && forall cap :: Messages(cap, d) == Messages(cap, c)[1..]
  {
    var rest, torn := c[EndPos(c) + 1..], f[..size - |c|];
    forall cap
      ensures Messages(cap, rest + torn) == Messages(cap, c)[1..] && Chunks(rest + torn) == Chunks(c)[1..]
    {
      CutOne(cap, c);
      TornAddsNothing(cap, rest, torn);
    }
    CutOne(0, c);
    assert Messages(0, rest + torn) == Messages(0, c)[1..];
  }

  /** The first chunk at least e long, or the number of chunks. */
  ghost function FirstFit(chunks: seq<seq<byte>>, e: nat): (j: nat)
    ensures j <= |chunks|
    ensures j < |chunks| ==> |chunks[j]| >= e
    ensures forall i :: 0 <= i < j ==> |chunks[i]| < e
  {
    if chunks == [] || |chunks[0]| >= e then 0 else 1 + FirstFit(chunks[1..], e)
  }

  /**
   * The retry loop in one step: the frame is accepted exactly when it fits the free space or
   * some chunk is at least as long as it. Then the messages after the first such chunk
   * survive, followed by the new one. Otherwise the ring ends up empty.
   */
  lemma {:induction false} RetryOutcome(size: nat, cap: nat, c: seq<byte>, m: seq<byte>)
    requires |c| <= size && |m| <= cap && IsFrame(Frame(m))
    ensures var f, chunks := Frame(m), Chunks(c);
            var (ok, d) := Retry(size, c, f);
            var j := FirstFit(chunks, |f|);
            && (ok <==> |c| + |f| <= size || j < |chunks|)
            && (|c| + |f| <= size ==> d == c + f && Messages(cap, d) == Messages(cap, c) + [m])
            && (|c| + |f| > size && ok ==> Messages(cap, d) == Messages(cap, c)[j + 1..] + [m])
            && (!ok ==> d == [])
    decreases |Chunks(c)|
  {
    hide Frame, Messages, Chunks, TornAndDropped, IsFrame;
    var f := Frame(m);
    CutNoneOrSome(cap, c);
    if |c| + |f| <= size {
      FrameAddsMessage(cap, c, m);
    } else if END in c {
      DropShortens(size, c, f);
      var d := TornAndDropped(size, c, f);
      RetryOutcome(size, cap, d, m);
    }
  }

  lemma CutNoneOrSome(cap: nat, c: seq<byte>)
    ensures END in c <==> Chunks(c) != []
    ensures |Messages(cap, c)| == |Chunks(c)|
  {
  }

  /** However many frames are torn and dropped on the way, the content stays made of pieces. */
  lemma {:induction false} RetryFramed(size: nat, cap: nat, c: seq<byte>, m: seq<byte>)
    requires |c| <= size && |m| <= cap && IsFrame(Frame(m)) && Framed(cap, c)
    ensures Framed(cap, Retry(size, c, Frame(m)).1)
    decreases |Chunks(c)|
  {
    hide Framed, Frame, Chunks, IsFrame;
    var f := Frame(m);
    if |c| + |f| <= size {
      FramedPut(cap, c, m, |f|);
      assert f[..|f|] == f;
    } else if END in c {
      DropShortens(size, c, f);
      CutNoneOrSome(cap, c);
      FramedGet(cap, c);
      FramedPut(cap, c[EndPos(c) + 1..], m, size - |c|);
      RetryFramed(size, cap, TornAndDropped(size, c, f), m);
    } else {
      EmptyIsFramed(cap);
    }
  }

  lemma FrameIsFrame(m: seq<byte>)
    ensures IsFrame(Frame(m))
  {
    forall k | 0 <= k < |Frame(m)|
      ensures END !in Frame(m)[..k]
    {
      TornHasNoEnd(m, k);
    }
  }

  /** One attempt to put f behind c: it fits, or the ring is full with a torn f. */
  ghost predicate Tried(size: nat, c: seq<byte>, f: seq<byte>, rc: int, now: seq<byte>) {
    && |c| <= size && f != []
    && if |c| + |f| <= size then rc == |f| && now == c + f
       else rc == -1 && now == c + f[..size - |c|]
  }

  /** After a failed attempt there is a chunk to drop, or the loop gives up. */
  lemma FailedTry(size: nat, c: seq<byte>, f: seq<byte>, now: seq<byte>)
    requires Tried(size, c, f, -1, now) && IsFrame(f)
    ensures |c| + |f| > size
    ensures END !in now ==> Retry(size, c, f) == (false, [])
    ensures END in now ==>
              && END in c
              && now[EndPos(now) + 1..] == TornAndDropped(size, c, f)
              && |TornAndDropped(size, c, f)| <= size
              && Retry(size, c, f) == Retry(size, TornAndDropped(size, c, f), f)
              && |Chunks(TornAndDropped(size, c, f))| < |Chunks(c)|
  {
    if END in c {
      DropShortens(size, c, f);
      FirstChunk(c, f[..size - |c|]);
      CutNoneOrSome(0, c);
    }
  }

  lemma SuccessfulTry(size: nat, c: seq<byte>, f: seq<byte>, rc: int, now: seq<byte>)
    requires Tried(size, c, f, rc, now) && IsFrame(f) && rc != -1
    ensures Retry(size, c, f) == (true, now)
  {
  }

  // ----- the queue -----

  class MsgQueue {
    const rb: Ring

    ghost predicate Valid()
      reads rb
    {
      rb.Valid() && rb.buf.Length < 0x8000
    }

    ghost function Contents(): seq<byte>
      reads rb, rb.buf
      requires Valid()
    {
      rb.Contents()
    }

    constructor Init(bufferSize: nat)
      requires 2 <= bufferSize < 0x8000
      ensures Valid() && Contents() == [] && rb.buf.Length == bufferSize && fresh(rb) && fresh(rb.buf)
    {
      rb := new Ring();
      new;
      var buf := new byte[bufferSize](_ => 0);
      var rc := rb.Init(buf);
    }

    method Puts(packet: seq<byte>) returns (rc: int)
      requires Valid() && |packet| < 0x1_0000
      modifies rb`fillCnt, rb`writePos, rb.buf
      ensures Valid() && Tried(rb.buf.Length, old(Contents()), Frame(packet), rc, Contents())
    {
      rc := AddRb(rb, packet);
    }

    method Gets(buffer: array<byte>, maxLen: nat, garbage: bool) returns (rc: int, len: nat)
      requires Valid() && maxLen <= buffer.Length && buffer != rb.buf
      modifies rb`fillCnt, rb`readPos, buffer
      ensures Valid()
      ensures var c := old(Contents()); var n := EndPos(c);
              if END in c then
                rc == 0 && Contents() == c[n + 1..] && len <= buffer.Length && buffer[..len] == Decode(maxLen, garbage, c[..n])
              else rc == -1 && Contents() == []
    {
      rc, len := ParseRb(rb, buffer, maxLen, garbage);
    }

    method IsEmpty() returns (empty: bool)
      requires Valid()
      ensures empty == (Contents() == [])
    {
      empty := rb.fillCnt <= 0;
    }

    lemma ContentsFit()
      requires Valid()
      ensures |Contents()| <= rb.buf.Length
    {
    }

    /** The loop of MQTT_Publish, MQTT_Subscribe, MQTT_UnSubscribe and MQTT_Ping. */
    method PutsOrDrop(packet: seq<byte>, maxLen: nat, garbage: bool) returns (ok: bool)
      requires Valid() && |packet| < 0x1_0000
      modifies rb`fillCnt, rb`readPos, rb`writePos, rb.buf
      ensures Valid()
      ensures |old(Contents())| <= rb.buf.Length && IsFrame(Frame(packet))
      ensures (ok, Contents()) == Retry(rb.buf.Length, old(Contents()), Frame(packet))
    {
      hide Frame, Retry, Decode, Tried, IsFrame, TornAndDropped, Chunks, EndPos, MsgQueue.Contents, Ring.Valid, Ring.Contents;
      ContentsFit();
      var dataBuffer := new byte[maxLen](_ => 0);
      ghost var c, f, size := Contents(), Frame(packet), rb.buf.Length;
      FrameIsFrame(packet);
      ghost var before := c;
      var rc := Puts(packet);
      while rc == -1
        invariant Valid() && |before| <= size && Tried(size, before, f, rc, Contents())
        invariant Retry(size, before, f) == Retry(size, c, f)
        decreases |Chunks(before)|
      {
        FailedTry(size, before, f, Contents());
        var got, len := Gets(dataBuffer, maxLen, garbage);
        if got == -1 {
          return false;
        }
        before := Contents();
        rc := Puts(packet);
      }
      SuccessfulTry(size, before, f, rc, Contents());
      return true;
    }
  }
}
