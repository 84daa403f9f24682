/**
 * The bitwise Dallas CRC-8 of ds1820.c and one_wire.c: what it computes on whole messages
 * and which corruptions it is sure to see.
 */
module Crc8 {

  // ----- bits as they are sent -----

  /** A byte by its bits, b0 the least significant. */
  datatype Octet = Octet(b0: bool, b1: bool, b2: bool, b3: bool, b4: bool, b5: bool, b6: bool, b7: bool)

  const ZERO := Octet(false, false, false, false, false, false, false, false)

  function Unpack(v: bv8): Octet {
    Octet(v & 1 != 0, v & 2 != 0, v & 4 != 0, v & 8 != 0, v & 16 != 0, v & 32 != 0, v & 64 != 0, v & 128 != 0)
  }

  function UnpackAll(bytes: seq<bv8>): (octets: seq<Octet>)
    ensures |octets| == |bytes|
  {
    seq(|bytes|, i requires 0 <= i < |bytes| => Unpack(bytes[i]))
  }

  function Shr(x: Octet): Octet {
    Octet(x.b1, x.b2, x.b3, x.b4, x.b5, x.b6, x.b7, false)
  }

  function XorOctet(x: Octet, y: Octet): Octet {
    Octet(x.b0 != y.b0, x.b1 != y.b1, x.b2 != y.b2, x.b3 != y.b3, x.b4 != y.b4, x.b5 != y.b5, x.b6 != y.b6, x.b7 != y.b7)
  }

  /** The n low bits, least significant first. */
  function LowBits(x: Octet, n: nat): (bits: seq<bool>)
    ensures |bits| == n
    decreases n
  {
    if n == 0 then [] else [x.b0] + LowBits(Shr(x), n - 1)
  }

  function SentBits(bytes: seq<Octet>): (bits: seq<bool>)
    ensures |bits| == 8 * |bytes|
  {
    if bytes == [] then [] else LowBits(bytes[0], 8) + SentBits(bytes[1..])
  }

  function Zip<B>(f: (B, B) -> B, x: seq<B>, y: seq<B>): (z: seq<B>)
    requires |x| == |y|
    ensures |z| == |x|
  {
    if x == [] then [] else [f(x[0], y[0])] + Zip(f, x[1..], y[1..])
  }

  function XorBits(x: seq<bool>, y: seq<bool>): (z: seq<bool>)
    requires |x| == |y|
    ensures |z| == |x|
  {
    Zip(Differ, x, y)
  }

  function Differ(a: bool, b: bool): bool {
    a != b
  }

  function Xor(x: seq<Octet>, y: seq<Octet>): (z: seq<Octet>)
    requires |x| == |y|
    ensures |z| == |x|
  {
    Zip(XorOctet, x, y)
  }

  lemma {:induction false} ZipAt<B>(f: (B, B) -> B, x: seq<B>, y: seq<B>, i: nat)
    requires |x| == |y| && i < |x|
    ensures Zip(f, x, y)[i] == f(x[i], y[i])
  {
    if i > 0 {
      ZipAt(f, x[1..], y[1..], i - 1);
    }
  }

  lemma {:induction false} ZipConcat<B>(f: (B, B) -> B, x: seq<B>, x': seq<B>, y: seq<B>, y': seq<B>)
    requires |x| == |y| && |x'| == |y'|
    ensures Zip(f, x + x', y + y') == Zip(f, x, y) + Zip(f, x', y')
  {
    if x == [] {
      assert x + x' == x' && y + y' == y';
    } else {
      assert (x + x')[1..] == x[1..] + x' && (y + y')[1..] == y[1..] + y';
      ZipConcat(f, x[1..], x', y[1..], y');
    }
  }

  lemma {:induction false} SentConcat(x: seq<Octet>, y: seq<Octet>)
    ensures SentBits(x + y) == SentBits(x) + SentBits(y)
  {
    if x == [] {
      assert x + y == y;
    } else {
      assert (x + y)[1..] == x[1..] + y;
      SentConcat(x[1..], y);
    }
  }

  lemma SentOne(x: Octet)
    ensures SentBits([x]) == LowBits(x, 8)
  {
    assert [x][1..] == [];
  }

  /** n symbols read off a register, as LowBits does. */
  function Emit<R, B>(head: R -> B, tail: R -> R, r: R, n: nat): (bits: seq<B>)
    ensures |bits| == n
    decreases n
  {
    if n == 0 then [] else [head(r)] + Emit(head, tail, tail(r), n - 1)
  }

  lemma {:induction false} EmitZip<R(!new), B>(head: R -> B, tail: R -> R, g: (R, R) -> R, f: (B, B) -> B, r: R, s: R, n: nat)
    requires forall a, b :: head(g(a, b)) == f(head(a), head(b))
    requires forall a, b :: tail(g(a, b)) == g(tail(a), tail(b))
    ensures Emit(head, tail, g(r, s), n) == Zip(f, Emit(head, tail, r, n), Emit(head, tail, s, n))
    decreases n
  {
    if n > 0 {
      EmitZip(head, tail, g, f, tail(r), tail(s), n - 1);
    }
  }

  function Head(x: Octet): bool {
    x.b0
  }

  lemma {:induction false} LowBitsEmit(x: Octet, n: nat)
    ensures LowBits(x, n) == Emit(Head, Shr, x, n)
    decreases n
  {
    if n > 0 {
      LowBitsEmit(Shr(x), n - 1);
    }
  }

  lemma LowBitsXor(x: Octet, y: Octet, n: nat)
    ensures LowBits(XorOctet(x, y), n) == XorBits(LowBits(x, n), LowBits(y, n))
  {
    LowBitsEmit(x, n);
    LowBitsEmit(y, n);
    LowBitsEmit(XorOctet(x, y), n);
    EmitZip(Head, Shr, XorOctet, Differ, x, y, n);
  }

  lemma {:induction false} SentXor(x: seq<Octet>, y: seq<Octet>)
    requires |x| == |y|
    ensures SentBits(Xor(x, y)) == XorBits(SentBits(x), SentBits(y))
  {
    if x != [] {
      LowBitsXor(x[0], y[0], 8);
      SentXor(x[1..], y[1..]);
      ZipConcat(Differ, LowBits(x[0], 8), SentBits(x[1..]), LowBits(y[0], 8), SentBits(y[1..]));
    }
  }

  // ----- CRC-8 -----

  /** One bit into the register, polynomial 0x8C: bits 7, 3 and 2 take the feedback. */
  function Step8(c: Octet, bit: bool): Octet {
    var mix := c.b0 != bit;
    Octet(c.b1, c.b2, c.b3 != mix, c.b4 != mix, c.b5, c.b6, c.b7, mix)
  }

  /** The register after the given bits have been shifted in. */
  function Shift8(c: Octet, bits: seq<bool>): Octet
    decreases |bits|
  {
    if bits == [] then c else Shift8(Step8(c, bits[0]), bits[1..])
  }

  function Checksum(bytes: seq<Octet>): Octet {
    Shift8(ZERO, SentBits(bytes))
  }

  lemma {:induction false} Shift8Concat(c: Octet, x: seq<bool>, y: seq<bool>)
    ensures Shift8(c, x + y) == Shift8(Shift8(c, x), y)
    decreases |x|
  {
    if x == [] {
      assert x + y == y;
    } else {
      assert (x + y)[1..] == x[1..] + y;
      Shift8Concat(Step8(c, x[0]), x[1..], y);
    }
  }

  /** The inner loop of the driver on one byte. */
  method ShiftByte8(start: bv8, byte: bv8) returns (crc: bv8)
    ensures Unpack(crc) == Shift8(Unpack(start), LowBits(Unpack(byte), 8))
  {
    crc := start;
    var inbyte := byte;
    var i := 8;
    while i > 0
      invariant 0 <= i <= 8
      invariant Shift8(Unpack(crc), LowBits(Unpack(inbyte), i)) == Shift8(Unpack(start), LowBits(Unpack(byte), 8))
    {
      crc, inbyte := ShiftBit8(crc, inbyte);
      i := i - 1;
    }
  }

  method ShiftBit8(crc: bv8, inbyte: bv8) returns (crc': bv8, inbyte': bv8)
    ensures Unpack(crc') == Step8(Unpack(crc), Unpack(inbyte).b0)
    ensures Unpack(inbyte') == Shr(Unpack(inbyte))
  {
    var mix := (crc ^ inbyte) & 0x01;
    crc' := crc >> 1;
    if mix != 0 {
      crc' := crc' ^ 0x8C;
    }
    inbyte' := inbyte >> 1;
  }

  method ComputeCrc8(addr: array<bv8>, len: nat) returns (crc: bv8)
    requires len <= addr.Length
    ensures Unpack(crc) == Checksum(UnpackAll(addr[..len]))
  {
    crc := 0;
    for n := 0 to len
      invariant Unpack(crc) == Checksum(UnpackAll(addr[..n]))
    {
      ghost var done, next := UnpackAll(addr[..n]), Unpack(addr[n]);
      crc := ShiftByte8(crc, addr[n]);
      assert UnpackAll(addr[..n + 1]) == done + [next];
      SentConcat(done, [next]);
      SentOne(next);
      Shift8Concat(ZERO, SentBits(done), LowBits(next, 8));
    }
  }

  function Fold<R, B>(step: (R, B) -> R, r: R, bits: seq<B>): R
    decreases |bits|
  {
    if bits == [] then r else Fold(step, step(r, bits[0]), bits[1..])
  }

  /** A machine whose step commutes with two XORs commutes with them on whole inputs. */
  lemma {:induction false} FoldZip<R(!new), B(!new)>(step: (R, B) -> R, g: (R, R) -> R, f: (B, B) -> B,
                                                     r: R, s: R, x: seq<B>, y: seq<B>)
    requires |x| == |y|
    requires forall a, b, i, j :: step(g(a, b), f(i, j)) == g(step(a, i), step(b, j))
    ensures Fold(step, g(r, s), Zip(f, x, y)) == g(Fold(step, r, x), Fold(step, s, y))
    decreases |x|
  {
    if x != [] {
      FoldZip(step, g, f, step(r, x[0]), step(s, y[0]), x[1..], y[1..]);
    }
  }

  lemma {:induction false} ShiftFold(c: Octet, bits: seq<bool>)
    ensures Shift8(c, bits) == Fold(Step8, c, bits)
    decreases |bits|
  {
    if bits != [] {
      ShiftFold(Step8(c, bits[0]), bits[1..]);
    }
  }

  lemma ShiftLinear(x: seq<bool>, y: seq<bool>)
    requires |x| == |y|
    ensures Shift8(ZERO, XorBits(x, y)) == XorOctet(Shift8(ZERO, x), Shift8(ZERO, y))
  {
    ShiftFold(ZERO, x);
    ShiftFold(ZERO, y);
    ShiftFold(ZERO, XorBits(x, y));
    assert XorOctet(ZERO, ZERO) == ZERO;
    FoldZip(Step8, XorOctet, Differ, ZERO, ZERO, x, y);
  }

  /** CRC-8 is linear over XOR on messages of equal length. */
  lemma Crc8Linear(x: seq<Octet>, y: seq<Octet>)
    requires |x| == |y|
    ensures Checksum(Xor(x, y)) == XorOctet(Checksum(x), Checksum(y))
  {
    SentXor(x, y);
    ShiftLinear(SentBits(x), SentBits(y));
  }

  /** Equal CRCs: the bits where the messages differ leave the register at zero. */
  lemma SameCrcIffZero(x: seq<Octet>, y: seq<Octet>)
    requires |x| == |y|
    ensures Checksum(x) == Checksum(y) <==> Shift8(ZERO, XorBits(SentBits(x), SentBits(y))) == ZERO
  {
    ShiftLinear(SentBits(x), SentBits(y));
    XorZero(Checksum(x), Checksum(y));
  }

  lemma XorZero(c: Octet, d: Octet)
    ensures XorOctet(c, d) == ZERO <==> c == d
  {
  }

  /** c holds the n low bits of x and nothing else. */
  ghost predicate HoldsLow(c: Octet, x: Octet, n: nat) {
    && c.b0 == (n > 0 && x.b0) && c.b1 == (n > 1 && x.b1) && c.b2 == (n > 2 && x.b2) && c.b3 == (n > 3 && x.b3)
    && c.b4 == (n > 4 && x.b4) && c.b5 == (n > 5 && x.b5) && c.b6 == (n > 6 && x.b6) && c.b7 == (n > 7 && x.b7)
  }

  lemma HoldsLowStep(c: Octet, x: Octet, n: nat)
    requires 0 < n <= 8
    ensures HoldsLow(Step8(c, x.b0), Shr(x), n - 1) <==> HoldsLow(c, x, n)
  {
  }

  /** Up to eight bits clear the register exactly when the register holds them. */
  lemma {:induction false} BitsClear(c: Octet, x: Octet, n: nat)
    requires n <= 8
    ensures Shift8(c, LowBits(x, n)) == ZERO <==> HoldsLow(c, x, n)
    decreases n
  {
    if n > 0 {
      BitsClear(Step8(c, x.b0), Shr(x), n - 1);
      HoldsLowStep(c, x, n);
      assert LowBits(x, n)[1..] == LowBits(Shr(x), n - 1);
    }
  }

  /** A message followed by a byte has CRC 0 exactly when that byte is the message's CRC. */
  lemma ResidueIffCrc(msg: seq<Octet>, b: Octet)
    ensures Checksum(msg + [b]) == ZERO <==> b == Checksum(msg)
  {
    SentConcat(msg, [b]);
    SentOne(b);
    Shift8Concat(ZERO, SentBits(msg), LowBits(b, 8));
    BitsClear(Checksum(msg), b, 8);
  }

  // ----- CRC-8 as a remainder -----

  /** The polynomial x^8 + x^5 + x^4 + 1, highest power first, as bits are sent. */
  const POLY: seq<bool> := [true, false, false, true, true, false, false, false, true]

  function ZeroBits(n: nat): (z: seq<bool>)
    ensures |z| == n && Zeros(z)
  {
    seq(n, _ => false)
  }

  /** The polynomial q times POLY over GF(2), by the method taught in school: one shifted copy for each 1. */
  function Times(q: seq<bool>): (p: seq<bool>)
    ensures |p| == |q| + 8
  {
    if q == [] then ZeroBits(8)
    else XorBits(if q[0] then POLY + ZeroBits(|q| - 1) else ZeroBits(|q| + 8), [false] + Times(q[1..]))
  }

  ghost predicate Divisible(bits: seq<bool>) {
    exists q :: Times(q) == bits
  }

  /** The nine bits of the polynomial, and zeros behind them, clear the register. */
  lemma PolyClears(n: nat)
    ensures Shift8(ZERO, POLY + ZeroBits(n)) == ZERO
  {
    var c := Step8(ZERO, true);
    var x := Octet(false, false, true, true, false, false, false, true);
    BitsClear(c, x, 8);
    LowBitsAre(x);
    assert POLY[1..] == LowBits(x, 8);
    Shift8Concat(ZERO, POLY, ZeroBits(n));
    ZerosKeep(ZERO, ZeroBits(n));
  }

  function BitAt(x: Octet, k: nat): bool {
    match k
    case 0 => x.b0
    case 1 => x.b1
    case 2 => x.b2
    case 3 => x.b3
    case 4 => x.b4
    case 5 => x.b5
    case 6 => x.b6
    case _ => x.b7
  }

  lemma {:induction false} LowBitsAt(x: Octet, n: nat, k: nat)
    requires k < n <= 8
    ensures LowBits(x, n)[k] == BitAt(x, k)
    decreases n
  {
    if k > 0 {
      LowBitsAt(Shr(x), n - 1, k - 1);
    }
  }

  /** A byte as it is sent, least significant bit first. */
  function InOrder(x: Octet): (bits: seq<bool>)
    ensures |bits| == 8 && forall k :: 0 <= k < 8 ==> bits[k] == BitAt(x, k)
  {
    [x.b0, x.b1, x.b2, x.b3, x.b4, x.b5, x.b6, x.b7]
  }

  lemma LowBitsAre(x: Octet)
    ensures LowBits(x, 8) == InOrder(x)
  {
    hide LowBits, BitAt, InOrder;
    forall k | 0 <= k < 8
      ensures LowBits(x, 8)[k] == InOrder(x)[k]
    {
      LowBitsAt(x, 8, k);
    }
  }

  lemma ShiftedClears(p: seq<bool>)
    ensures Shift8(ZERO, [false] + p) == Shift8(ZERO, p)
  {
    assert ([false] + p)[1..] == p;
    assert Step8(ZERO, false) == ZERO;
  }

  /** Every multiple of the polynomial clears the register. */
  lemma {:induction false} MultiplesClear(q: seq<bool>)
    ensures Shift8(ZERO, Times(q)) == ZERO
    decreases |q|
  {
    if q == [] {
      ZerosKeep(ZERO, ZeroBits(8));
    } else {
      hide Shift8, XorBits;
      var first := if q[0] then POLY + ZeroBits(|q| - 1) else ZeroBits(|q| + 8);
      MultiplesClear(q[1..]);
      ShiftedClears(Times(q[1..]));
      PolyClears(|q| - 1);
      ZerosKeep(ZERO, ZeroBits(|q| + 8));
      ShiftLinear(first, [false] + Times(q[1..]));
      XorZero(Shift8(ZERO, first), Shift8(ZERO, [false] + Times(q[1..])));
    }
  }

  lemma {:induction false} XorTwice(x: seq<bool>, y: seq<bool>)
    requires |x| == |y|
    ensures XorBits(x, XorBits(x, y)) == y
    decreases |x|
  {
    if x != [] {
      XorTwice(x[1..], y[1..]);
    }
  }

  lemma TimesNothing()
    ensures Times([]) == ZeroBits(8)
  {
  }

  /** Long division: bits that clear the register are a multiple. */
  lemma {:induction false} ClearedIsMultiple(d: seq<bool>) returns (q: seq<bool>)
    requires |d| >= 8 && Shift8(ZERO, d) == ZERO
    ensures Times(q) == d
    decreases |d|
  {
    hide Shift8, Times, Remaining;
    if |d| == 8 {
      q := [];
      TimesNothing();
      var x := Octet(d[0], d[1], d[2], d[3], d[4], d[5], d[6], d[7]);
      LowBitsAre(x);
      assert d == LowBits(x, 8);
      BitsClear(ZERO, x, 8);
      assert d == ZeroBits(8);
    } else {
      RemainingClears(d);
      var q' := ClearedIsMultiple(Remaining(d)[1..]);
      q := [d[0]] + q';
      DivisionStep(d, q');
    }
  }

  /** The first polynomial or zero to be taken off d, and what is left then. */
  function Taken(d: seq<bool>): (t: seq<bool>)
    requires |d| > 8
    ensures |t| == |d|
  {
    if d[0] then POLY + ZeroBits(|d| - 9) else ZeroBits(|d|)
  }

  function Remaining(d: seq<bool>): (r: seq<bool>)
    requires |d| > 8
    ensures |r| == |d|
  {
    XorBits(Taken(d), d)
  }

  lemma RemainingClears(d: seq<bool>)
    requires |d| > 8
    ensures Remaining(d) == [false] + Remaining(d)[1..]
    ensures Shift8(ZERO, d) == ZERO ==> Shift8(ZERO, Remaining(d)[1..]) == ZERO
  {
    hide Shift8, XorBits;
    FirstDiffers(Taken(d), d);
    PolyClears(|d| - 9);
    ZerosKeep(ZERO, ZeroBits(|d|));
    ShiftLinear(Taken(d), d);
    XorZero(Shift8(ZERO, Taken(d)), Shift8(ZERO, d));
    ShiftedClears(Remaining(d)[1..]);
  }

  lemma DivisionStep(d: seq<bool>, q': seq<bool>)
    requires |d| > 8 && Times(q') == Remaining(d)[1..]
    ensures Times([d[0]] + q') == d
  {
    var q := [d[0]] + q';
    assert q[1..] == q';
    hide XorBits;
    RemainingClears(d);
    XorTwice(Taken(d), d);
  }

  lemma FirstDiffers(x: seq<bool>, y: seq<bool>)
    requires |x| == |y| > 0
    ensures XorBits(x, y)[0] == (x[0] != y[0])
  {
  }

  /**
   * What the checksum is: a message and one byte, bit by bit as they are sent, are a multiple of
   * x^8 + x^5 + x^4 + 1 if and only if the byte is the checksum of the message.
   */
  lemma ChecksumIsRemainder(msg: seq<Octet>, b: Octet)
    ensures Divisible(SentBits(msg) + InOrder(b)) <==> b == Checksum(msg)
  {
    hide Times, Shift8;
    LowBitsAre(b);
    SentConcat(msg, [b]);
    SentOne(b);
    var bits := SentBits(msg) + LowBits(b, 8);
    assert bits == SentBits(msg + [b]);
    ResidueIffCrc(msg, b);
    if q :| Times(q) == bits {
      MultiplesClear(q);
    }
    if Shift8(ZERO, bits) == ZERO {
      var q := ClearedIsMultiple(bits);
    }
  }

  /** A check value on real bytes: the checksum of the byte 1 is 0x5E. */
  lemma ChecksumOfOne()
    ensures Checksum([Unpack(0x01)]) == Unpack(0x5E)
  {
    var x, c := Unpack(0x01), Unpack(0x5E);
    assert x == Octet(true, false, false, false, false, false, false, false);
    assert c == Octet(false, true, true, true, true, false, true, false);
    SentOne(x);
    LowBitsAre(x);
    var y := Step8(ZERO, true);
    var bits := [false, false, false, false, false, false, false];
    assert SentBits([x]) == [true] + bits;
    assert Shift8(ZERO, [true] + bits) == Shift8(y, bits);
    SevenZeros(y);
  }

  lemma SevenZeros(y: Octet)
    requires y == Step8(ZERO, true)
    ensures Shift8(y, [false, false, false, false, false, false, false]) == Unpack(0x5E)
  {
    var y1 := Step8(y, false);
    var y2 := Step8(y1, false);
    var y3 := Step8(y2, false);
    assert Shift8(y3, [false, false, false, false]) == Unpack(0x5E);
    assert Shift8(y, [false, false, false, false, false, false, false]) == Shift8(y3, [false, false, false, false]);
  }

  // ----- CRC-8 and bursts -----

  ghost predicate Zeros(bits: seq<bool>) {
    forall i :: 0 <= i < |bits| ==> !bits[i]
  }

  lemma {:induction false} ZerosKeep(c: Octet, bits: seq<bool>)
    requires Zeros(bits)
    ensures Shift8(c, bits) == ZERO <==> c == ZERO
    decreases |bits|
  {
    if bits != [] {
      ZerosKeep(Step8(c, false), bits[1..]);
    }
  }

  /** The k low bits are all there is. */
  ghost predicate Below(c: Octet, k: nat) {
    && (k <= 0 ==> !c.b0) && (k <= 1 ==> !c.b1) && (k <= 2 ==> !c.b2) && (k <= 3 ==> !c.b3)
    && (k <= 4 ==> !c.b4) && (k <= 5 ==> !c.b5) && (k <= 6 ==> !c.b6) && (k <= 7 ==> !c.b7)
  }

  /** Seven or fewer bits can only clear a register that needs no more bits than that. */
  lemma {:induction false} FewBitsClear(c: Octet, bits: seq<bool>)
    requires |bits| <= 7 && Shift8(c, bits) == ZERO
    ensures Below(c, |bits|)
    decreases |bits|
  {
    if bits != [] {
      FewBitsClear(Step8(c, bits[0]), bits[1..]);
    }
  }

  /** Two messages differ, and only within eight consecutive sent bits from `start` on. */
  ghost predicate DifferInBurst(x: seq<Octet>, y: seq<Octet>, start: nat)
    requires |x| == |y|
  {
    && SentBits(x) != SentBits(y)
    && forall i :: 0 <= i < 8 * |x| && SentBits(x)[i] != SentBits(y)[i] ==> start <= i < start + 8
  }

  /** No burst of up to eight bits goes unseen. */
  lemma BurstChangesCrc(x: seq<Octet>, y: seq<Octet>, start: nat)
    requires |x| == |y| && DifferInBurst(x, y, start)
    ensures Checksum(x) != Checksum(y)
  {
    var sx, sy := SentBits(x), SentBits(y);
    var d := XorBits(sx, sy);
    forall i | 0 <= i < |d|
      ensures d[i] == (sx[i] != sy[i])
    {
      ZipAt(Differ, sx, sy, i);
    }
    var i :| 0 <= i < |d| && sx[i] != sy[i];
    var f := FirstOne(d, i);
    BurstNonZero(d, f);
    SameCrcIffZero(x, y);
  }

  lemma {:induction false} FirstOne(d: seq<bool>, i: nat) returns (f: nat)
    requires i < |d| && d[i]
    ensures f <= i && d[f] && Zeros(d[..f])
    decreases i
  {
    if j :| 0 <= j < i && d[j] {
      f := FirstOne(d, j);
    } else {
      f := i;
    }
  }

  /** A first 1 at f, and nothing but zeros from f + 8 on, leaves the register non-zero. */
  lemma BurstNonZero(d: seq<bool>, f: nat)
    requires f < |d| && d[f] && Zeros(d[..f])
    requires forall i :: f + 8 <= i < |d| ==> !d[i]
    ensures Shift8(ZERO, d) != ZERO
  {
    var e := if f + 8 <= |d| then f + 8 else |d|;
    assert d == d[..f] + d[f..];
    Shift8Concat(ZERO, d[..f], d[f..]);
    ZerosKeep(ZERO, d[..f]);
    assert d[f..][1..] == d[f + 1..e] + d[e..];
    WindowNonZero(d[f..], d[f + 1..e], d[e..]);
  }

  lemma WindowNonZero(d: seq<bool>, window: seq<bool>, tail: seq<bool>)
    requires d != [] && d[0] && d[1..] == window + tail && |window| <= 7 && Zeros(tail)
    ensures Shift8(ZERO, d) != ZERO
  {
    var c := Step8(ZERO, true);
    Shift8Concat(c, window, tail);
    if Shift8(c, window) == ZERO {
      FewBitsClear(c, window);
    }
    ZerosKeep(Shift8(c, window), tail);
  }

  /** The test of ds_read_temp on nine bytes: the ninth is the CRC of the first eight. */
  predicate ScratchpadOk(data: seq<Octet>)
    requires |data| == 9
  {
    data[8] == Checksum(data[..8])
  }

  lemma OkIffZero(data: seq<Octet>)
    requires |data| == 9
    ensures ScratchpadOk(data) <==> Checksum(data) == ZERO
  {
    assert data == data[..8] + [data[8]];
    ResidueIffCrc(data[..8], data[8]);
  }

  /** A good scratchpad hit by a burst of up to eight bits never passes the test. */
  lemma ScratchpadBurstSeen(data: seq<Octet>, read: seq<Octet>, start: nat)
    requires |data| == |read| == 9 && ScratchpadOk(data) && DifferInBurst(data, read, start)
    ensures !ScratchpadOk(read)
  {
    OkIffZero(data);
    OkIffZero(read);
    BurstChangesCrc(data, read, start);
  }
}
