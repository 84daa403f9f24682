/**
 * The CRC-16 of one_wire.c: a parity table and two shifts per byte do what eight
 * conditional one-bit steps do.
 */
module Crc16 {

  // ----- the plain CRC -----

  /** One step of the reflected CRC with polynomial 0xA001. */
  function BitStep(a: bv16): bv16 {
    if a & 1 != 0 then (a >> 1) ^ 0xA001 else a >> 1
  }

  function EightSteps(a: bv16): bv16 {
    BitStep(BitStep(BitStep(BitStep(BitStep(BitStep(BitStep(BitStep(a))))))))
  }

  function Mixed(crc: bv16, b: bv8): bv16 {
    crc ^ (b as bv16)
  }

  /** Each byte is mixed into the low half, then eight steps. */
  function Checksum(crc: bv16, input: seq<bv8>): bv16
    decreases |input|
  {
    if input == [] then crc else Checksum(EightSteps(Mixed(crc, input[0])), input[1..])
  }

  // ----- the parity form -----

  /** The table of the parities of the sixteen nibbles. */
  function OddParity(nibble: bv16): bv16 {
    if nibble in {0, 3, 5, 6, 9, 10, 12, 15} then 0 else 1
  }

  function Xor(a: bv16, b: bv16): bv16 { a ^ b }

  function Up6(a: bv16): bv16 { a << 6 }

  function Up1(a: bv16): bv16 { a << 1 }

  function High(a: bv16): bv16 { a >> 8 }

  function Low(a: bv16): bv16 { a & 0xFF }

  function Nibble0(m: bv16): bv16 { m & 0x0F }

  function Nibble1(m: bv16): bv16 { m >> 4 }

  /** The high byte takes the polynomial's top bits if the byte below it is odd. */
  function Feedback(high: bv16, p: bv16, q: bv16): bv16 {
    if p != q then Xor(high, 0xC001) else high
  }

  /** One byte of oneWire_crc16, on the register with the byte mixed in. */
  function ParityByte(a: bv16): bv16 {
    var m := Low(a);
    Xor(Xor(Feedback(High(a), OddParity(Nibble0(m)), OddParity(Nibble1(m))), Up6(m)), Up1(Up6(m)))
  }

  // ----- they agree: both with the tests written as masks -----

  function MaskedStep(a: bv16): bv16 {
    (a >> 1) ^ (0xA001 & (0 - (a & 1)))
  }

  function Odd(nibble: bv16): bv16 {
    (nibble ^ (nibble >> 1) ^ (nibble >> 2) ^ (nibble >> 3)) & 1
  }

  function MaskedTop(p: bv16, q: bv16): bv16 {
    0xC001 & (0 - (p ^ q))
  }

  function MaskedByte(a: bv16): bv16 {
    var m := Low(a);
    Xor(Xor(Xor(High(a), MaskedTop(Odd(Nibble0(m)), Odd(Nibble1(m)))), Up6(m)), Up1(Up6(m)))
  }

  lemma SetStep(a: bv16)
    requires a & 1 == 1
    ensures BitStep(a) == MaskedStep(a)
  {
  }

  lemma ClearStep(a: bv16)
    requires a & 1 == 0
    ensures BitStep(a) == MaskedStep(a)
  {
  }

  lemma LowBit(a: bv16)
    ensures a & 1 == 0 || a & 1 == 1
  {
  }

  lemma StepMasked(a: bv16)
    ensures BitStep(a) == MaskedStep(a)
  {
    hide *;
    LowBit(a);
    if a & 1 == 0 {
      ClearStep(a);
    } else {
      SetStep(a);
    }
  }

  lemma EightMasked(a: bv16)
    ensures EightSteps(a) ==
      MaskedStep(MaskedStep(MaskedStep(MaskedStep(MaskedStep(MaskedStep(MaskedStep(MaskedStep(a))))))))
  {
    hide BitStep, MaskedStep;
    var a1 := MaskedStep(a);
    var a2 := MaskedStep(a1);
    var a3 := MaskedStep(a2);
    var a4 := MaskedStep(a3);
    var a5 := MaskedStep(a4);
    var a6 := MaskedStep(a5);
    StepMasked(a);
    StepMasked(a1);
    StepMasked(a2);
    StepMasked(a3);
    StepMasked(a4);
    StepMasked(a5);
    StepMasked(a6);
    StepMasked(MaskedStep(a6));
  }

  lemma MaskedAgree(a: bv16)
    ensures MaskedStep(MaskedStep(MaskedStep(MaskedStep(MaskedStep(MaskedStep(MaskedStep(MaskedStep(a)))))))) == MaskedByte(a)
  {
  }

  lemma OddMasked(n: bv16)
    requires n < 16
    ensures OddParity(n) == Odd(n)
    ensures Odd(n) == 0 || Odd(n) == 1
  {
  }

  lemma TopMasked(p: bv16, q: bv16)
    requires (p == 0 || p == 1) && (q == 0 || q == 1)
    ensures MaskedTop(p, q) == if p != q then 0xC001 else 0
  {
  }

  lemma XorZero(a: bv16)
    ensures Xor(a, 0) == a
  {
  }

  lemma Nibbles(a: bv16)
    ensures Nibble0(Low(a)) < 16 && Nibble1(Low(a)) < 16
  {
  }

  lemma ByteMasked(a: bv16)
    ensures ParityByte(a) == MaskedByte(a)
  {
    hide MaskedTop, OddParity, Odd, Xor, Up6, Up1, High, Low, Nibble0, Nibble1;
    var m := Low(a);
    Nibbles(a);
    OddMasked(Nibble0(m));
    OddMasked(Nibble1(m));
    TopMasked(Odd(Nibble0(m)), Odd(Nibble1(m)));
    XorZero(High(a));
  }

  /** The parity shortcut is eight steps of the plain CRC, for every register. */
  lemma ParityByteIsEightSteps(a: bv16)
    ensures ParityByte(a) == EightSteps(a)
  {
    hide *;
    EightMasked(a);
    MaskedAgree(a);
    ByteMasked(a);
  }

  // ----- the driver's loop -----

  method MixByte(start: bv16, inbyte: bv8) returns (crc: bv16)
    ensures crc == ParityByte(Mixed(start, inbyte))
  {
    hide Xor, Up6, Up1, High, Low, Nibble0, Nibble1, OddParity, Mixed;
    MixedParts(start, inbyte);
    crc := start;
    var cdata := inbyte as bv16;
    cdata := Low(Xor(cdata, crc));
    crc := High(crc);
    if OddParity(Nibble0(cdata)) != OddParity(Nibble1(cdata)) {
      crc := Xor(crc, 0xC001);
    }
    cdata := Up6(cdata);
    crc := Xor(crc, cdata);
    cdata := Up1(cdata);
    crc := Xor(crc, cdata);
  }

  /** Only the low byte of the register takes part in the mixing. */
  lemma MixedParts(crc: bv16, b: bv8)
    ensures Low(Mixed(crc, b)) == Low(Xor(b as bv16, crc))
    ensures High(Mixed(crc, b)) == High(crc)
  {
  }

  /** oneWire_crc16 is the plain CRC for every input and every starting value. */
  method ComputeCrc16(input: array<bv8>, len: nat, start: bv16) returns (crc: bv16)
    requires len <= input.Length
    ensures crc == Checksum(start, input[..len])
  {
    hide ParityByte, EightSteps, Mixed;
    crc := start;
    for i := 0 to len
      invariant Checksum(crc, input[i..len]) == Checksum(start, input[..len])
    {
      ParityByteIsEightSteps(Mixed(crc, input[i]));
      crc := MixByte(crc, input[i]);
      assert input[i..len][1..] == input[i + 1..len];
    }
  }
}
