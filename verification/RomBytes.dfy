/** The 8-byte ROM_NO buffer read as 64 transmitted bits. */
module RomBytes {
  import opened RomOrder

  function Mask(k: nat): bv8
    requires k < 8
  {
    match k
    case 0 => 0x01
    case 1 => 0x02
    case 2 => 0x04
    case 3 => 0x08
    case 4 => 0x10
    case 5 => 0x20
    case 6 => 0x40
    case 7 => 0x80
  }

  predicate BitOf(b: bv8, k: nat)
    requires k < 8
  {
    b & Mask(k) != 0
  }

  /** The transmitted bits of eight bytes. */
  function Bits(bytes: seq<bv8>): (r: Rom)
    requires |bytes| == 8
    ensures forall i :: 0 <= i < 64 ==> r[i] == BitOf(bytes[i / 8], i % 8)
  {
    seq(64, i requires 0 <= i < 64 => BitOf(bytes[i / 8], i % 8))
  }

  /** Transmitted bit n is bit n % 8 of byte n / 8, the least significant bit of a byte first. */
  lemma TransmittedBit(bytes: seq<bv8>, n: nat)
    requires |bytes| == 8 && n < 64
    ensures Bits(bytes)[n] <==> bytes[n / 8] & (1 << n % 8) != 0
  {
    MaskIsShift(n % 8);
  }

  lemma MaskIsShift(k: nat)
    requires k < 8
    ensures Mask(k) == 1 << k
  {
  }

  /** A byte with the bit of a mask set or cleared. */
  function WithBit(b: bv8, mask: bv8, v: bool): bv8 {
    if v then b | mask else b & !mask
  }

  /** Setting or clearing one masked bit of a byte leaves the other seven alone. */
  lemma WriteInByte(b: bv8, k: nat, v: bool, j: nat)
    requires k < 8 && j < 8
    ensures BitOf(WithBit(b, Mask(k), v), j) == if j == k then v else BitOf(b, j)
  {
    hide BitOf, Mask;
    if v {
      SetBit(b, k, j);
    } else {
      ClearBit(b, k, j);
    }
  }

  lemma SetBit(b: bv8, k: nat, j: nat)
    requires k < 8 && j < 8
    ensures BitOf(b | Mask(k), j) == (j == k || BitOf(b, j))
  {
  }

  lemma ClearBit(b: bv8, k: nat, j: nat)
    requires k < 8 && j < 8
    ensures BitOf(b & !Mask(k), j) == (j != k && BitOf(b, j))
  {
  }

  lemma ShiftMask(k: nat)
    requires k < 8
    ensures Mask(k) << 1 == if k < 7 then Mask(k + 1) else 0
  {
  }

  lemma ZeroByte(b: bv8)
    ensures b == 0 <==> forall k :: 0 <= k < 8 ==> !BitOf(b, k)
  {
    if forall k :: 0 <= k < 8 ==> !BitOf(b, k) {
      assert !BitOf(b, 0) && !BitOf(b, 1) && !BitOf(b, 2) && !BitOf(b, 3);
      assert !BitOf(b, 4) && !BitOf(b, 5) && !BitOf(b, 6) && !BitOf(b, 7);
    }
  }

  /** Writing bit n of the buffer through its byte and mask. */
  lemma WriteInRom(before: seq<bv8>, n: nat, v: bool)
    requires |before| == 8 && n < 64
    ensures Bits(before[n / 8 := WithBit(before[n / 8], Mask(n % 8), v)]) == Bits(before)[n := v]
  {
    hide BitOf, Mask, WithBit;
    var after := before[n / 8 := WithBit(before[n / 8], Mask(n % 8), v)];
    forall i | 0 <= i < 64
      ensures Bits(after)[i] == Bits(before)[n := v][i]
    {
      WriteInByte(before[n / 8], n % 8, v, i % 8);
      assert i == 8 * (i / 8) + i % 8;
    }
  }
}
