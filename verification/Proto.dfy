/**
 * esp/src/mqtt/proto.c: packets are stuffed into frames BEGIN .. END in a ring buffer. A full
 * ring leaves a torn frame behind; the parser finds its feet again at the next BEGIN.
 */
module Proto {
  import opened Bytes
  import opened RingBuf

  // ----- frames -----

  function Stuff(m: seq<byte>): seq<byte> {
    if m == [] then []
    else (if IsMark(m[0]) then [ESC, FlipBit5(m[0])] else [m[0]]) + Stuff(m[1..])
  }

  function Frame(m: seq<byte>): seq<byte> {
    [BEGIN] + Stuff(m) + [END]
  }

  lemma {:induction false} StuffConcat(a: seq<byte>, b: seq<byte>)
    ensures Stuff(a + b) == Stuff(a) + Stuff(b)
  {
    if a == [] {
      assert a + b == b;
    } else {
      assert (a + b)[1..] == a[1..] + b;
      StuffConcat(a[1..], b);
    }
  }

  lemma {:induction false} StuffHasNoFrameMarks(m: seq<byte>)
    ensures BEGIN !in Stuff(m) && END !in Stuff(m)
  {
    if m != [] {
      StuffHasNoFrameMarks(m[1..]);
    }
  }

  // ----- the parser -----

  /** Parser memory: the bytes kept so far and the two flags. */
  datatype Parse = Parse(out: seq<byte>, isEsc: bool, isBegin: bool)

  /** What one byte other than END does; at most cap bytes are kept. */
  function Feed(cap: nat, p: Parse, c: byte): Parse {
    if c == ESC then p.(isEsc := true)
    else if c == BEGIN then Parse([], false, true)
    else if !p.isBegin then p
    else
      var v := if p.isEsc then FlipBit5(c) else c;
      Parse(if |p.out| < cap then p.out + [v] else p.out, false, true)
  }

  function FeedAll(cap: nat, p: Parse, s: seq<byte>): Parse {
    if s == [] then p else Feed(cap, FeedAll(cap, p, s[..|s| - 1]), s[|s| - 1])
  }

  lemma {:induction false} FeedConcat(cap: nat, p: Parse, a: seq<byte>, b: seq<byte>)
    ensures FeedAll(cap, p, a + b) == FeedAll(cap, FeedAll(cap, p, a), b)
    decreases |b|
  {
    if b == [] {
      assert a + b == a;
    } else {
      assert (a + b)[..|a + b| - 1] == a + b[..|b| - 1];
      FeedConcat(cap, p, a, b[..|b| - 1]);
    }
  }

  lemma FeedOne(cap: nat, p: Parse, c: byte)
    ensures FeedAll(cap, p, [c]) == Feed(cap, p, c)
  {
    assert [c][..0] == [];
  }

  lemma FeedNothing(cap: nat, p: Parse)
    ensures FeedAll(cap, p, []) == p
  {
  }

  lemma FlipTwice(c: byte)
    requires IsMark(c)
    ensures FlipBit5(FlipBit5(c)) == c && !IsMark(FlipBit5(c))
  {
  }

  /** Reading a stuffed packet appends it, as far as there is room. */
  lemma {:induction false} FeedStuffed(cap: nat, p: Parse, m: seq<byte>)
    requires p.isBegin && !p.isEsc && |p.out| + |m| <= cap
    ensures FeedAll(cap, p, Stuff(m)) == Parse(p.out + m, false, true)
    decreases |m|
  {
    hide Feed, FlipBit5;
    if m == [] {
      assert p.out + m == p.out;
    } else {
      var head := if IsMark(m[0]) then [ESC, FlipBit5(m[0])] else [m[0]];
      var q := Parse(p.out + [m[0]], false, true);
      assert FeedAll(cap, p, head) == q by {
        FeedHead(cap, p, m[0]);
      }
      FeedConcat(cap, p, head, Stuff(m[1..]));
      FeedStuffed(cap, q, m[1..]);
      assert q.out + m[1..] == p.out + m;
    }
  }

  lemma FeedHead(cap: nat, p: Parse, c: byte)
    requires p.isBegin && !p.isEsc && |p.out| < cap
    ensures FeedAll(cap, p, if IsMark(c) then [ESC, FlipBit5(c)] else [c]) == Parse(p.out + [c], false, true)
  {
    if IsMark(c) {
      FlipTwice(c);
      var s := [ESC, FlipBit5(c)];
      assert s[..1] == [ESC] && s[..1][..0] == [];
      assert FeedAll(cap, p, [ESC]) == Feed(cap, FeedAll(cap, p, [ESC][..0]), ESC);
    } else {
      assert [c][..0] == [];
    }
  }

  /** What the parser has kept after s, whatever came before it. */
  function Decode(cap: nat, garbage: bool, s: seq<byte>): seq<byte> {
    FeedAll(cap, Parse([], false, garbage), s).out
  }

  /** Whatever precedes a frame, even half an escape, the frame is read whole. */
  lemma DecodeAfterJunk(cap: nat, garbage: bool, junk: seq<byte>, m: seq<byte>)
    requires |m| <= cap
    ensures Decode(cap, garbage, junk + ([BEGIN] + Stuff(m))) == m
  {
    var p := Parse([], false, garbage);
    FeedConcat(cap, p, junk, [BEGIN] + Stuff(m));
    var q := FeedAll(cap, p, junk);
    FeedConcat(cap, q, [BEGIN], Stuff(m));
    assert [BEGIN][..0] == [];
    FeedStuffed(cap, Parse([], false, true), m);
  }

  /** After a BEGIN the parser's past is forgotten. */
  lemma {:induction false} GarbageForgotten(cap: nat, s: seq<byte>)
    requires BEGIN in s
    ensures FeedAll(cap, Parse([], false, true), s) == FeedAll(cap, Parse([], false, false), s)
    decreases |s|
  {
    var last := s[|s| - 1];
    if last != BEGIN {
      GarbageForgotten(cap, s[..|s| - 1]);
    }
  }

  // ----- chunks of a ring -----

  /** The position of the first END, or the length. */
  function EndPos(c: seq<byte>): (n: nat)
    ensures n <= |c|
    ensures END !in c[..n]
    ensures n < |c| ==> c[n] == END
    ensures END in c <==> n < |c|
  {
    if c == [] || c[0] == END then 0
    else
      var n := EndPos(c[1..]);
      assert c[..n + 1] == [c[0]] + c[1..][..n];
      n + 1
  }

  /** The content cut after each END; what follows the last END is left out. */
  function Chunks(c: seq<byte>): seq<seq<byte>> {
    if END !in c then [] else [c[..EndPos(c) + 1]] + Chunks(c[EndPos(c) + 1..])
  }

  /** What follows the last END. */
  function Rest(c: seq<byte>): (r: seq<byte>)
    ensures END !in r
  {
    if END !in c then c else Rest(c[EndPos(c) + 1..])
  }

  /** The messages the chunks decode to. */
  function Messages(cap: nat, c: seq<byte>): (ms: seq<seq<byte>>)
    ensures |ms| == |Chunks(c)|
  {
    if END !in c then [] else [Decode(cap, false, c[..EndPos(c)])] + Messages(cap, c[EndPos(c) + 1..])
  }

  lemma {:induction false} EndPosUnique(a: seq<byte>, b: seq<byte>)
    requires END !in a
    ensures EndPos(a + [END] + b) == |a|
  {
    if a != [] {
      EndPosUnique(a[1..], b);
      assert (a + [END] + b)[1..] == a[1..] + [END] + b;
    }
  }

  lemma CutOne(cap: nat, c: seq<byte>)
    requires END in c
    ensures var n := EndPos(c);
            n < |c| && Chunks(c) == [c[..n + 1]] + Chunks(c[n + 1..]) && Rest(c) == Rest(c[n + 1..])
            && Messages(cap, c) == [Decode(cap, false, c[..n])] + Messages(cap, c[n + 1..])
  {
    hide Decode, EndPos;
  }

  lemma CutNone(cap: nat, c: seq<byte>)
    requires END !in c
    ensures Chunks(c) == [] && Rest(c) == c && Messages(cap, c) == []
  {
  }

  /** Bytes without END change neither chunks nor messages. */
  lemma {:induction false} TornAddsNothing(cap: nat, c: seq<byte>, t: seq<byte>)
    requires END !in t
    ensures Chunks(c + t) == Chunks(c) && Messages(cap, c + t) == Messages(cap, c) && Rest(c + t) == Rest(c) + t
    decreases |c|
  {
    hide *;
    if END in c {
      var n := EndPos(c);
      FirstChunk(c, t);
      CutOne(cap, c);
      CutOne(cap, c + t);
      TornAddsNothing(cap, c[n + 1..], t);
    } else {
      CutNone(cap, c);
      CutNone(cap, c + t);
    }
  }

  lemma FirstChunk(c: seq<byte>, t: seq<byte>)
    requires END in c
    ensures var n := EndPos(c);
            EndPos(c + t) == n && (c + t)[..n] == c[..n] && (c + t)[..n + 1] == c[..n + 1] && (c + t)[n + 1..] == c[n + 1..] + t
  {
    var n := EndPos(c);
    assert c + t == c[..n] + [END] + (c[n + 1..] + t);
    EndPosUnique(c[..n], c[n + 1..] + t);
  }

  /** A frame put at the end is one more message, whatever torn frame it follows. */
  lemma {:induction false} FrameAddsMessage(cap: nat, c: seq<byte>, m: seq<byte>)
    requires |m| <= cap
    ensures Chunks(c + Frame(m)) == Chunks(c) + [Rest(c) + Frame(m)]
    ensures Messages(cap, c + Frame(m)) == Messages(cap, c) + [m]
    ensures Rest(c + Frame(m)) == []
    decreases |c|
  {
    hide *;
    if END in c {
      var n := EndPos(c);
      FirstChunk(c, Frame(m));
      CutOne(cap, c);
      CutOne(cap, c + Frame(m));
      FrameAddsMessage(cap, c[n + 1..], m);
    } else {
      CutNone(cap, c);
      FrameIsOneChunk(cap, c, m);
    }
  }

  lemma FrameIsOneChunk(cap: nat, c: seq<byte>, m: seq<byte>)
    requires END !in c && |m| <= cap
    ensures Chunks(c + Frame(m)) == [c + Frame(m)] && Messages(cap, c + Frame(m)) == [m] && Rest(c + Frame(m)) == []
  {
    StuffHasNoFrameMarks(m);
    var a, d := c + ([BEGIN] + Stuff(m)), c + Frame(m);
    assert d == a + [END] + [];
    EndPosUnique(a, []);
    assert d[..|a|] == a && d[|a| + 1..] == [] && d[..|a| + 1] == d;
    DecodeAfterJunk(cap, false, c, m);
  }

  // ----- what the ring can hold -----

  /** A piece of ring content: a whole frame, or the first k bytes of one that did not fit. */
  datatype Piece = Whole(msg: seq<byte>) | Torn(msg: seq<byte>, k: nat)

  ghost predicate GoodPiece(cap: nat, p: Piece) {
    |p.msg| <= cap && (p.Torn? ==> 1 <= p.k < |Frame(p.msg)|)
  }

  function PieceBytes(p: Piece): seq<byte>
    requires p.Torn? ==> p.k <= |Frame(p.msg)|
  {
    match p
    case Whole(m) => Frame(m)
    case Torn(m, k) => Frame(m)[..k]
  }

  ghost predicate GoodPieces(cap: nat, ps: seq<Piece>) {
    forall i :: 0 <= i < |ps| ==> GoodPiece(cap, ps[i])
  }

  ghost function Flatten(cap: nat, ps: seq<Piece>): seq<byte>
    requires GoodPieces(cap, ps)
  {
    if ps == [] then [] else PieceBytes(ps[0]) + Flatten(cap, ps[1..])
  }

  /** What a ring written and read only by the queue holds: a sequence of pieces. */
  ghost predicate Framed(cap: nat, c: seq<byte>) {
    exists ps :: GoodPieces(cap, ps) && Flatten(cap, ps) == c
  }

  lemma EmptyIsFramed(cap: nat)
    ensures Framed(cap, [])
  {
    assert Flatten(cap, []) == [];
  }

  lemma {:induction false} FlattenSnoc(cap: nat, ps: seq<Piece>, p: Piece)
    requires GoodPieces(cap, ps) && GoodPiece(cap, p)
    ensures GoodPieces(cap, ps + [p]) && Flatten(cap, ps + [p]) == Flatten(cap, ps) + PieceBytes(p)
    decreases |ps|
  {
    hide PieceBytes, GoodPiece;
    if ps == [] {
      assert (ps + [p])[1..] == [];
    } else {
      FlattenSnoc(cap, ps[1..], p);
      assert (ps + [p])[1..] == ps[1..] + [p];
    }
  }

  /** Adding the first k bytes of a frame keeps the content framed. */
  lemma FramedPut(cap: nat, c: seq<byte>, m: seq<byte>, k: nat)
    requires Framed(cap, c) && |m| <= cap && k <= |Frame(m)|
    ensures Framed(cap, c + Frame(m)[..k])
  {
    var ps :| GoodPieces(cap, ps) && Flatten(cap, ps) == c;
    if k == |Frame(m)| {
      assert Frame(m)[..k] == Frame(m);
      FlattenSnoc(cap, ps, Whole(m));
    } else if k > 0 {
      FlattenSnoc(cap, ps, Torn(m, k));
    } else {
      assert c + Frame(m)[..0] == c;
    }
  }

  lemma PieceMarks(cap: nat, p: Piece)
    requires GoodPiece(cap, p)
    ensures PieceBytes(p) != [] && PieceBytes(p)[0] == BEGIN
    ensures p.Torn? ==> END !in PieceBytes(p)
    ensures p.Whole? ==> EndPos(PieceBytes(p)) == |PieceBytes(p)| - 1
  {
    StuffHasNoFrameMarks(p.msg);
    var body := [BEGIN] + Stuff(p.msg);
    if p.Torn? {
      assert PieceBytes(p) == body[..p.k];
    } else {
      assert Frame(p.msg) == body + [END] + [];
      EndPosUnique(body, []);
    }
  }

  /** Cutting after the first END of b + d. */
  lemma CutAfter(b: seq<byte>, d: seq<byte>)
    requires END in b || END in d
    ensures var c := b + d;
            END in c
            && (END in b ==> EndPos(c) == EndPos(b) && c[EndPos(c) + 1..] == b[EndPos(b) + 1..] + d)
            && (END !in b ==> EndPos(c) == |b| + EndPos(d) && c[EndPos(c) + 1..] == d[EndPos(d) + 1..])
  {
    if END in b {
      FirstChunk(b, d);
    } else {
      var e := EndPos(d);
      assert b + d == (b + d[..e]) + [END] + d[e + 1..];
      EndPosUnique(b + d[..e], d[e + 1..]);
    }
  }

  /** Taking the oldest chunk away leaves a sequence of pieces. */
  lemma {:induction false} FlattenTail(cap: nat, ps: seq<Piece>)
    requires GoodPieces(cap, ps) && END in Flatten(cap, ps)
    ensures Framed(cap, Flatten(cap, ps)[EndPos(Flatten(cap, ps)) + 1..])
    decreases |ps|
  {
    hide PieceBytes, EndPos;
    var b, d := PieceBytes(ps[0]), Flatten(cap, ps[1..]);
    PieceMarks(cap, ps[0]);
    CutAfter(b, d);
    if END in b {
      assert b[EndPos(b) + 1..] + d == d;
    } else {
      FlattenTail(cap, ps[1..]);
    }
  }

  lemma FramedGet(cap: nat, c: seq<byte>)
    requires Framed(cap, c) && END in c
    ensures Framed(cap, c[EndPos(c) + 1..])
  {
    var ps :| GoodPieces(cap, ps) && Flatten(cap, ps) == c;
    FlattenTail(cap, ps);
  }

  /** Framed content starts with a BEGIN. */
  lemma FramedStart(cap: nat, c: seq<byte>)
    requires Framed(cap, c) && c != []
    ensures c[0] == BEGIN
  {
    var ps :| GoodPieces(cap, ps) && Flatten(cap, ps) == c;
    PieceMarks(cap, ps[0]);
  }

  /** Framed content read back: the whole frames, in order; torn ones are skipped. */
  ghost function WholeMessages(ps: seq<Piece>): seq<seq<byte>> {
    if ps == [] then []
    else WholeMessages(ps[..|ps| - 1]) + (if ps[|ps| - 1].Whole? then [ps[|ps| - 1].msg] else [])
  }

  lemma {:induction false} MessagesAreWholeFrames(cap: nat, ps: seq<Piece>)
    requires GoodPieces(cap, ps)
    ensures Messages(cap, Flatten(cap, ps)) == WholeMessages(ps)
    decreases |ps|
  {
    if ps != [] {
      var init, p := ps[..|ps| - 1], ps[|ps| - 1];
      assert ps == init + [p];
      FlattenSnoc(cap, init, p);
      MessagesAreWholeFrames(cap, init);
      if p.Whole? {
        FrameAddsMessage(cap, Flatten(cap, init), p.msg);
      } else {
        PieceMarks(cap, p);
        TornAddsNothing(cap, Flatten(cap, init), PieceBytes(p));
      }
    }
  }

  /** On framed content it does not matter what isBegin happened to hold. */
  lemma AnyGarbage(cap: nat, garbage: bool, c: seq<byte>)
    requires Framed(cap, c) && END in c
    ensures Decode(cap, garbage, c[..EndPos(c)]) == Decode(cap, false, c[..EndPos(c)])
  {
    FramedStart(cap, c);
    assert c[..EndPos(c)][0] == BEGIN;
    GarbageForgotten(cap, c[..EndPos(c)]);
  }

  /**
   * On framed content the parser returns the oldest whole message and leaves the other
   * messages as they are.
   */
  lemma OldestMessage(cap: nat, garbage: bool, c: seq<byte>)
    requires Framed(cap, c) && END in c
    ensures Messages(cap, c) == [Decode(cap, garbage, c[..EndPos(c)])] + Messages(cap, c[EndPos(c) + 1..])
    ensures Framed(cap, c[EndPos(c) + 1..])
  {
    hide *;
    AnyGarbage(cap, garbage, c);
    CutOne(cap, c);
    FramedGet(cap, c);
  }

  /** A frame byte by byte: 0x7E, the packet with its marks escaped, 0x7F. */
  lemma FrameInBytes(m: seq<byte>, c: byte)
    ensures Frame(m) == [0x7E] + Stuff(m) + [0x7F] && Stuff([]) == []
    ensures Stuff(m + [c]) == Stuff(m) +
              if c == 0x7D then [0x7D, 0x5D] else if c == 0x7E then [0x7D, 0x5E] else if c == 0x7F then [0x7D, 0x5F] else [c]
  {
    StuffConcat(m, [c]);
    assert [c][1..] == [];
  }

  // ----- the operations -----

  class Parser {
    var buf: array<byte>
    var bufSize: nat
    var dataLen: nat
    var isEsc: bool
    var isBegin: bool

    ghost predicate Valid()
      reads this
    {
      dataLen <= bufSize <= buf.Length
    }

    ghost function State(): Parse
      reads this, buf
      requires Valid()
    {
      Parse(buf[..dataLen], isEsc, isBegin)
    }

    /** PROTO_Init leaves isBegin alone: it holds whatever was on the stack. */
    constructor (buf: array<byte>, bufSize: nat, garbage: bool)
      requires bufSize <= buf.Length
      ensures Valid() && State() == Parse([], false, garbage)
      ensures this.buf == buf && this.bufSize == bufSize
    {
      this.buf := buf;
      this.bufSize := bufSize;
      isBegin := garbage;
      dataLen := 0;
      isEsc := false;
    }

    method ParseByte(value: byte) returns (rc: int)
      requires Valid()
      modifies this`dataLen, this`isEsc, this`isBegin, buf
      ensures Valid()
      ensures value == END ==> rc == 0 && State().out == old(State().out)
      ensures value != END ==> rc == -1 && State() == Feed(bufSize, old(State()), value)
    {
      if value == 0x7D {
        isEsc := true;
      } else if value == 0x7E {
        dataLen := 0;
        isEsc := false;
        isBegin := true;
      } else if value == 0x7F {
        isBegin := false;
        return 0;
      } else if isBegin {
        var v := value;
        if isEsc {
          v := FlipBit5(value);
          isEsc := false;
        }
        if dataLen < bufSize {
          buf[dataLen] := v;
          dataLen := dataLen + 1;
        }
      }
      return -1;
    }
  }

  /** The parser's memory after the bytes read so far. */
  ghost predicate HasRead(proto: Parser, cap: nat, garbage: bool, done: seq<byte>)
    reads proto, proto.buf
  {
    proto.Valid() && END !in done && proto.State() == FeedAll(cap, Parse([], false, garbage), done)
  }

  lemma ReadOne(cap: nat, garbage: bool, c: seq<byte>, i: nat)
    requires i < |c| && END !in c[..i] && c[i] != END
    ensures END !in c[..i + 1]
    ensures FeedAll(cap, Parse([], false, garbage), c[..i + 1]) == Feed(cap, FeedAll(cap, Parse([], false, garbage), c[..i]), c[i])
  {
    assert c[..i + 1] == c[..i] + [c[i]];
    FeedConcat(cap, Parse([], false, garbage), c[..i], [c[i]]);
    FeedOne(cap, FeedAll(cap, Parse([], false, garbage), c[..i]), c[i]);
  }

  lemma FirstEnd(c: seq<byte>, i: nat)
    requires i < |c| && END !in c[..i] && c[i] == END
    ensures EndPos(c) == i
  {
    assert c == c[..i] + [END] + c[i + 1..];
    EndPosUnique(c[..i], c[i + 1..]);
  }

  lemma NoEnd(c: seq<byte>)
    requires END !in c[..|c|]
    ensures END !in c
  {
    assert c[..|c|] == c;
  }

  lemma Advance(c: seq<byte>, i: nat, x: byte, rest: seq<byte>)
    requires i <= |c| && c[i..] != [] && [x] + rest == c[i..]
    ensures i < |c| && x == c[i] && rest == c[i + 1..]
  {
    assert rest == ([x] + rest)[1..];
  }

  /** Reads to the end of the oldest chunk; fails, with the ring drained, if there is none. */
  method ParseRb(rb: Ring, bufOut: array<byte>, maxBufLen: nat, garbage: bool) returns (rc: int, len: nat)
    requires rb.Valid() && maxBufLen <= bufOut.Length && bufOut != rb.buf
    modifies rb`fillCnt, rb`readPos, bufOut
    ensures rb.Valid()
    ensures var c := old(rb.Contents()); var n := EndPos(c);
            if END in c then
              rc == 0 && rb.Contents() == c[n + 1..] && len <= bufOut.Length && bufOut[..len] == Decode(maxBufLen, garbage, c[..n])
            else rc == -1 && rb.Contents() == []
  {
    hide Feed, FeedAll, EndPos, Ring.Contents, Ring.Valid;
    FeedNothing(maxBufLen, Parse([], false, garbage));
    var proto := new Parser(bufOut, maxBufLen, garbage);
    ghost var c, i := rb.Contents(), 0;
    assert c[0..] == c;
    while true
      invariant rb.Valid() && proto.buf == bufOut && proto.bufSize == maxBufLen
      invariant i <= |c| && rb.Contents() == c[i..]
      invariant HasRead(proto, maxBufLen, garbage, c[..i])
      decreases |c| - i
    {
      var got, x := rb.Get();
      if got != 0 {
        NoEnd(c);
        return -1, 0;
      }
      Advance(c, i, x, rb.Contents());
      var ended := proto.ParseByte(x);
      if ended == 0 {
        FirstEnd(c, i);
        return 0, proto.dataLen;
      }
      ReadOne(maxBufLen, garbage, c, i);
      i := i + 1;
    }
  }

  /** The stuffed form of the first i bytes is a prefix of the frame; what comes next in it. */
  lemma NextInFrame(m: seq<byte>, i: nat)
    requires i < |m|
    ensures var k := 1 + |Stuff(m[..i])|;
            var k' := 1 + |Stuff(m[..i + 1])|;
            if IsMark(m[i]) then k' == k + 2 < |Frame(m)| && Frame(m)[k] == ESC && Frame(m)[k + 1] == FlipBit5(m[i])
            else k' == k + 1 < |Frame(m)| && Frame(m)[k] == m[i]
  {
    assert m == m[..i] + [m[i]] + m[i + 1..] && m[..i + 1] == m[..i] + [m[i]];
    StuffConcat(m[..i], [m[i]]);
    StuffConcat(m[..i] + [m[i]], m[i + 1..]);
    assert [m[i]][1..] == [];
  }

  lemma FrameEnds(m: seq<byte>)
    ensures var k := 1 + |Stuff(m[..|m|])|;
            k + 1 == |Frame(m)| && Frame(m)[k] == END && Frame(m)[0] == BEGIN && Frame(m)[..|Frame(m)|] == Frame(m)
  {
    assert m[..|m|] == m;
  }

  /** Puts byte k of f after the first k. */
  method PutNext(rb: Ring, x: byte, ghost c: seq<byte>, ghost f: seq<byte>, ghost k: nat) returns (rc: int)
    requires rb.Valid() && k < |f| && f[k] == x && rb.Contents() == c + f[..k]
    modifies rb`fillCnt, rb`writePos, rb.buf
    ensures rb.Valid()
    ensures if |c| + k < rb.buf.Length then rc == 0 && rb.Contents() == c + f[..k + 1]
            else rc == -1 && |c| + k == rb.buf.Length && rb.Contents() == c + f[..k]
  {
    rc := rb.Put(x);
    assert c + f[..k] + [x] == c + f[..k + 1];
  }

  /** A 16-bit counter returned as I16. */
  function AsI16(i: nat): int {
    if i % 0x1_0000 < 0x8000 then i % 0x1_0000 else i % 0x1_0000 - 0x1_0000
  }

  lemma AsI16Wraps(i: nat)
    ensures AsI16(i % 0x1_0000) == AsI16(i)
    ensures AsI16(i) == -1 <==> i % 0x1_0000 == 0xFFFF
  {
  }

  /** The 16-bit sum of a counter and a small step. */
  function Plus16(i: nat, step: nat): nat {
    (i + step) % 0x1_0000
  }

  lemma Plus16Counts(n: nat, step: nat)
    ensures Plus16(n % 0x1_0000, step) == (n + step) % 0x1_0000
  {
  }

  /** The switch of the loop: one byte of the packet as it stands in the frame. */
  method AddByte(rb: Ring, x: byte, ghost c: seq<byte>, ghost f: seq<byte>, ghost k: nat) returns (rc: int, used: nat)
    requires rb.Valid() && k < |f| && rb.Contents() == c + f[..k]
    requires if IsMark(x) then k + 2 < |f| && f[k] == ESC && f[k + 1] == FlipBit5(x) else k + 1 < |f| && f[k] == x
    modifies rb`fillCnt, rb`writePos, rb.buf
    ensures rb.Valid() && k + used < |f| && used == if IsMark(x) then 2 else 1
    ensures if |c| + k + used <= rb.buf.Length then rc == 0 && rb.Contents() == c + f[..k + used]
            else rc == -1 && 0 <= rb.buf.Length - |c| < |f| && rb.Contents() == c + f[..rb.buf.Length - |c|]
  {
    hide Ring.Contents, Ring.Valid, FlipBit5;
    if x == 0x7D || x == 0x7E || x == 0x7F {
      rc := PutNext(rb, 0x7D, c, f, k);
      if rc == -1 {
        return -1, 2;
      }
      rc := PutNext(rb, FlipBit5(x), c, f, k + 1);
      used := 2;
    } else {
      rc := PutNext(rb, x, c, f, k);
      used := 1;
    }
  }

  /**
   * Writes the frame of a packet. If it does not fit, the ring is left exactly full with as
   * much of the frame as there was room for. The length returned is a 16-bit one: a frame that
   * is one byte short of a multiple of 65536 long is written and reported as a failure.
   */
  method AddRb(rb: Ring, packet: seq<byte>) returns (rc: int)
    requires rb.Valid() && |packet| < 0x1_0000
    modifies rb`fillCnt, rb`writePos, rb.buf
    ensures rb.Valid()
    ensures var c, f := old(rb.Contents()), Frame(packet);
            if |c| + |f| <= rb.buf.Length then rc == AsI16(|f|) && rb.Contents() == c + f
            else rc == -1 && rb.Contents() == c + f[..rb.buf.Length - |c|]
    ensures rc == -1 <==> |old(rb.Contents())| + |Frame(packet)| > rb.buf.Length || |Frame(packet)| % 0x1_0000 == 0xFFFF
  {
    hide Frame, Stuff, Ring.Contents, Ring.Valid, AsI16, Plus16, FlipBit5;
    ghost var c, f := rb.Contents(), Frame(packet);
    assert c + f[..0] == c;
    FrameEnds(packet);
    EmptyStuff(packet);
    AsI16Wraps(|f|);
    var i := 2;
    var put := PutNext(rb, 0x7E, c, f, 0);
    if put == -1 {
      return -1;
    }
    ghost var at := 1;
    for n := 0 to |packet|
      invariant rb.Valid() && at == 1 + |Stuff(packet[..n])| < |f| && rb.Contents() == c + f[..at]
      invariant i == (at + 1) % 0x1_0000
    {
      NextInFrame(packet, n);
      var used;
      put, used := AddByte(rb, packet[n], c, f, at);
      if put == -1 {
        return -1;
      }
      Plus16Counts(at + 1, used);
      i, at := Plus16(i, used), at + used;
    }
    put := PutNext(rb, 0x7F, c, f, at);
    if put == -1 {
      return -1;
    }
    return AsI16(i);
  }

  lemma EmptyStuff(m: seq<byte>)
    ensures |Stuff(m[..0])| == 0
  {
  }

  /** A torn frame holds no END. */
  lemma TornHasNoEnd(m: seq<byte>, k: nat)
    requires k < |Frame(m)|
    ensures END !in Frame(m)[..k]
  {
    StuffHasNoFrameMarks(m);
    assert Frame(m)[..k] == ([BEGIN] + Stuff(m))[..k];
  }
}
