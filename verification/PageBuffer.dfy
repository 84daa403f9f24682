/**
 * The 16-row monochrome page buffer (u8g_pb16v1.c, u8g_pb.c) and the draw loop: replaying a
 * draw list page by page gives the picture of one full frame.
 */
module PageBuffer {
  import opened Options
  import opened Screen
  import opened Pages

  // ----- the draw list and the full frame it stands for -----

  /** A U8G_DEV_MSG_SET_PIXEL or U8G_DEV_MSG_SET_8PIXEL message with its argument. */
  datatype Op =
    | SetPixel(x: u8, y: u8, color: u8)
    | Set8Pixel(x: u8, y: u8, dir: u8, bits: bv8, color: u8)

  /** Bit i of a pixel byte, the most significant first. */
  predicate Lit(bits: bv8, i: nat) {
    i < 8 && bits & (128 >> i) != 0
  }

  function StepX(dir: u8): int {
    if dir == 0 then 1 else if dir == 2 then -1 else 0
  }

  function StepY(dir: u8): int {
    if dir == 1 then 1 else if dir == 3 then -1 else 0
  }

  /** Where bit i of an eight-pixel message lies; coordinates count modulo 256. */
  function Spot(op: Op, i: nat): Pixel
    requires op.Set8Pixel?
  {
    Pixel(ToU8(op.x + i * StepX(op.dir)), ToU8(op.y + i * StepY(op.dir)))
  }

  ghost predicate TouchesWithin(op: Op, n: nat, x: int, y: int)
    requires op.Set8Pixel?
  {
    exists i: nat :: i < n && Lit(op.bits, i) && Spot(op, i).x == x && Spot(op, i).y == y
  }

  ghost predicate Touches(op: Op, x: int, y: int) {
    match op
    case SetPixel(px, py, _) => px == x && py == y
    case Set8Pixel(_, _, _, _, _) => TouchesWithin(op, 8, x, y)
  }

  /** The pixels of a byte from the most significant bit on. */
  predicate MsbFirst(bits: bv8, i: nat) {
    match i
    case 0 => bits & 0x80 != 0
    case 1 => bits & 0x40 != 0
    case 2 => bits & 0x20 != 0
    case 3 => bits & 0x10 != 0
    case 4 => bits & 0x08 != 0
    case 5 => bits & 0x04 != 0
    case 6 => bits & 0x02 != 0
    case 7 => bits & 0x01 != 0
    case _ => false
  }

  lemma LitIsMsbFirst(bits: bv8, i: nat)
    ensures Lit(bits, i) <==> MsbFirst(bits, i)
  {
  }

  lemma SpotInDirection(op: Op, i: nat)
    requires op.Set8Pixel?
    ensures op.dir == 0 ==> Spot(op, i) == Pixel((op.x + i) % 256, op.y)
    ensures op.dir == 1 ==> Spot(op, i) == Pixel(op.x, (op.y + i) % 256)
    ensures op.dir == 2 ==> Spot(op, i) == Pixel((op.x - i) % 256, op.y)
    ensures op.dir == 3 ==> Spot(op, i) == Pixel(op.x, (op.y - i) % 256)
    ensures op.dir > 3 ==> Spot(op, i) == Pixel(op.x, op.y)
  {
  }

  /**
   * Which pixels an eight-pixel message touches: the lit bits, most significant first, to the
   * right, down, to the left or up from (x, y), past 255 or below 0 on the other side.
   */
  lemma Directions(op: Op, px: int, py: int)
    requires op.Set8Pixel?
    ensures op.dir == 0 ==> (Touches(op, px, py) <==> py == op.y && exists i: nat :: MsbFirst(op.bits, i) && px == (op.x + i) % 256)
    ensures op.dir == 1 ==> (Touches(op, px, py) <==> px == op.x && exists i: nat :: MsbFirst(op.bits, i) && py == (op.y + i) % 256)
    ensures op.dir == 2 ==> (Touches(op, px, py) <==> py == op.y && exists i: nat :: MsbFirst(op.bits, i) && px == (op.x - i) % 256)
    ensures op.dir == 3 ==> (Touches(op, px, py) <==> px == op.x && exists i: nat :: MsbFirst(op.bits, i) && py == (op.y - i) % 256)
    ensures op.dir > 3 ==> (Touches(op, px, py) <==> px == op.x && py == op.y && op.bits != 0)
  {
    hide Spot, Lit, MsbFirst;
    AnyBit(op.bits);
    forall i: nat
      ensures Lit(op.bits, i) <==> MsbFirst(op.bits, i)
      ensures MsbFirst(op.bits, i) ==> i < 8
    {
      LitIsMsbFirst(op.bits, i);
      InByte(op.bits, i);
    }
    forall i: nat {
      SpotInDirection(op, i);
    }
  }

  lemma InByte(bits: bv8, i: nat)
    ensures MsbFirst(bits, i) ==> i < 8
  {
  }

  lemma AnyBit(bits: bv8)
    ensures bits != 0 <==> exists i: nat :: MsbFirst(bits, i)
  {
    if bits != 0 {
      assert MsbFirst(bits, 0) || MsbFirst(bits, 1) || MsbFirst(bits, 2) || MsbFirst(bits, 3)
          || MsbFirst(bits, 4) || MsbFirst(bits, 5) || MsbFirst(bits, 6) || MsbFirst(bits, 7);
    }
  }

  /** The full frame: each pixel has the colour of the last operation that touches it, or is dark. */
  ghost function Colour(ops: seq<Op>, x: int, y: int): bool {
    if ops == [] then
      false
    else if Touches(ops[|ops| - 1], x, y) then
      ops[|ops| - 1].color != 0
    else
      Colour(ops[..|ops| - 1], x, y)
  }

  /** A later operation wins where it touches, and leaves everything else alone; colour 0 is dark. */
  lemma LastOperationDecides(ops: seq<Op>, op: Op, x: int, y: int)
    ensures Colour([], x, y) == false
    ensures Colour(ops + [op], x, y) == if Touches(op, x, y) then op.color != 0 else Colour(ops, x, y)
  {
    assert (ops + [op])[..|ops|] == ops;
  }

  // ----- bits of the buffer -----

  predicate HasBit(b: bv8, row: nat)
    requires row < 8
  {
    b & (1 << row) != 0
  }

  function WithBit(b: bv8, row: nat, on: bool): bv8
    requires row < 8
  {
    if on then b | (1 << row) else b & ((1 << row) ^ 0xFF)
  }

  lemma SetOneBit(b: bv8, r: nat, q: nat)
    requires r < 8 && q < 8
    ensures (b | (1 << r)) & (1 << q) != 0 <==> r == q || b & (1 << q) != 0
  {
  }

  lemma ClearOneBit(b: bv8, r: nat, q: nat)
    requires r < 8 && q < 8
    ensures b & ((1 << r) ^ 0xFF) & (1 << q) != 0 <==> r != q && b & (1 << q) != 0
  {
  }

  lemma OneBit(b: bv8, r: nat, q: nat, on: bool)
    requires r < 8 && q < 8
    ensures HasBit(WithBit(b, r, on), q) == if r == q then on else HasBit(b, q)
  {
    if on {
      SetOneBit(b, r, q);
    } else {
      ClearOneBit(b, r, q);
    }
  }

  /** The byte of row r of column c: a column has two bytes, a whole width apart. */
  function At(width: nat, c: nat, r: nat): (k: nat)
    requires c < width && r < 16
    ensures k < 2 * width
  {
    if r >= 8 then width + c else c
  }

  /** Row r of column c. */
  predicate Bit(buf: seq<bv8>, width: nat, c: nat, r: nat)
    requires |buf| == 2 * width && c < width && r < 16
  {
    HasBit(buf[At(width, c, r)], r % 8)
  }

  /** `after` is `before` with the pixel (x, y) set to `on`, if it lies on the page. */
  ghost predicate PaintedAt(before: seq<bv8>, after: seq<bv8>, width: nat, p: Page, x: int, y: int, on: bool)
    requires |before| == |after| == 2 * width
  {
    forall c: nat, r: nat :: c < width && r < 16 ==>
      Bit(after, width, c, r) == if c == x && p.y0 + r == y <= p.y1 then on else Bit(before, width, c, r)
  }

  /** `after` is `before` with the first n bits of an eight-pixel message painted where they lie on the page. */
  ghost predicate PaintedWithin(before: seq<bv8>, after: seq<bv8>, width: nat, p: Page, op: Op, n: nat)
    requires |before| == |after| == 2 * width
    requires op.Set8Pixel?
  {
    forall c: nat, r: nat :: c < width && r < 16 ==>
      Bit(after, width, c, r) == if p.y0 + r <= p.y1 && TouchesWithin(op, n, c, p.y0 + r) then op.color != 0 else Bit(before, width, c, r)
  }

  ghost predicate Painted(before: seq<bv8>, after: seq<bv8>, width: nat, p: Page, op: Op)
    requires |before| == |after| == 2 * width
  {
    forall c: nat, r: nat :: c < width && r < 16 ==>
      Bit(after, width, c, r) == if p.y0 + r <= p.y1 && Touches(op, c, p.y0 + r) then op.color != 0 else Bit(before, width, c, r)
  }

  /** The buffer shows the page's rows of the full frame; rows past the page are dark. */
  ghost predicate Shows(buf: seq<bv8>, width: nat, p: Page, ops: seq<Op>)
    requires |buf| == 2 * width
  {
    forall c: nat, r: nat :: c < width && r < 16 ==>
      Bit(buf, width, c, r) == (p.y0 + r <= p.y1 && Colour(ops, c, p.y0 + r))
  }

  lemma ShowsNext(before: seq<bv8>, after: seq<bv8>, width: nat, p: Page, ops: seq<Op>, op: Op)
    requires |before| == |after| == 2 * width
    requires Shows(before, width, p, ops)
    requires Painted(before, after, width, p, op)
    ensures Shows(after, width, p, ops + [op])
  {
    hide Bit, Touches;
    assert (ops + [op])[..|ops|] == ops;
  }

  lemma PaintedNext(before: seq<bv8>, middle: seq<bv8>, after: seq<bv8>, width: nat, p: Page, op: Op, i: nat)
    requires |before| == |middle| == |after| == 2 * width
    requires op.Set8Pixel?
    requires PaintedWithin(before, middle, width, p, op, i)
    requires if Lit(op.bits, i) then PaintedAt(middle, after, width, p, Spot(op, i).x, Spot(op, i).y, op.color != 0) else after == middle
    ensures PaintedWithin(before, after, width, p, op, i + 1)
  {
    hide Bit, Lit, Spot;
    forall c: nat, r: nat | c < width && r < 16
      ensures Bit(after, width, c, r) == if p.y0 + r <= p.y1 && TouchesWithin(op, i + 1, c, p.y0 + r) then op.color != 0 else Bit(before, width, c, r)
    {
      TouchesNext(op, i, c, p.y0 + r);
    }
  }

  lemma TouchesNext(op: Op, i: nat, x: int, y: int)
    requires op.Set8Pixel?
    ensures TouchesWithin(op, i + 1, x, y) <==> TouchesWithin(op, i, x, y) || (Lit(op.bits, i) && Spot(op, i).x == x && Spot(op, i).y == y)
  {
    hide Lit, Spot;
  }

  function Shifted(bits: bv8, i: nat): bv8
    requires i <= 8
  {
    bits << i
  }

  /** The pixel byte after i shifts has bit i in front. */
  lemma FrontBit(bits: bv8, i: nat)
    requires i < 8
    ensures Shifted(bits, i) & 128 != 0 <==> Lit(bits, i)
  {
  }

  lemma ShiftOnce(bits: bv8, i: nat)
    requires i < 8
    ensures Shifted(bits, 0) == bits
    ensures Shifted(bits, i) << 1 == Shifted(bits, i + 1)
    ensures i == 7 ==> Shifted(bits, i + 1) == 0
  {
  }

  /** Once the byte is 0 no bit is left. */
  lemma NoBitLeft(bits: bv8, i: nat, j: nat)
    requires i <= 8 && Shifted(bits, i) == 0
    requires i <= j
    ensures !Lit(bits, j)
  {
  }

  lemma SpotNext(op: Op, i: nat)
    requires op.Set8Pixel?
    ensures Spot(op, 0) == Pixel(op.x, op.y)
    ensures Spot(op, i + 1) == Pixel(ToU8(Spot(op, i).x + ToU8(StepX(op.dir))), ToU8(Spot(op, i).y + ToU8(StepY(op.dir))))
  {
    hide ToU8;
    CutU8(0);
    CutU8(op.x);
    CutU8(op.y);
    NextU8(op.x + i * StepX(op.dir));
    NextU8(op.y + i * StepY(op.dir));
    SameU8(op.x + i * StepX(op.dir));
    SameU8(op.y + i * StepY(op.dir));
  }

  lemma SameU8(v: int)
    ensures ToU8(ToU8(v) + 0) == ToU8(v)
  {
  }

  lemma NothingYet(buf: seq<bv8>, width: nat, p: Page, op: Op)
    requires |buf| == 2 * width
    requires op.Set8Pixel?
    ensures PaintedWithin(buf, buf, width, p, op, 0)
  {
    hide Bit, Lit, Spot;
  }

  lemma NoMoreBits(before: seq<bv8>, after: seq<bv8>, width: nat, p: Page, op: Op, n: nat)
    requires |before| == |after| == 2 * width
    requires op.Set8Pixel? && n <= 8
    requires PaintedWithin(before, after, width, p, op, n)
    requires forall j: nat :: n <= j ==> !Lit(op.bits, j)
    ensures Painted(before, after, width, p, op)
  {
    hide Bit, Lit, Spot;
  }

  /** The loop of Set8PixelOpt2 after i rounds, on a buffer that was `before`. */
  ghost predicate Underway(op: Op, before: seq<bv8>, now: seq<bv8>, width: nat, p: Page, pixel: bv8, at: Pixel, i: nat)
    requires |before| == |now| == 2 * width
    requires op.Set8Pixel?
  {
    i < 8 && at == Spot(op, i) && pixel == Shifted(op.bits, i) && PaintedWithin(before, now, width, p, op, i)
  }

  lemma Start8(op: Op, buf: seq<bv8>, width: nat, p: Page)
    requires |buf| == 2 * width
    requires op.Set8Pixel?
    ensures Underway(op, buf, buf, width, p, op.bits, Pixel(op.x, op.y), 0)
  {
    SpotNext(op, 0);
    ShiftOnce(op.bits, 0);
    NothingYet(buf, width, p, op);
    hide Spot, Shifted, PaintedWithin;
  }

  /** A round paints the front bit; when the shifted byte is 0 the whole message is painted. */
  lemma Round8(op: Op, before: seq<bv8>, middle: seq<bv8>, now: seq<bv8>, width: nat, p: Page, pixel: bv8, at: Pixel, i: nat)
    requires |before| == |middle| == |now| == 2 * width
    requires op.Set8Pixel?
    requires Underway(op, before, middle, width, p, pixel, at, i)
    requires if pixel & 128 != 0 then PaintedAt(middle, now, width, p, at.x, at.y, op.color != 0) else now == middle
    ensures pixel << 1 == 0 ==> Painted(before, now, width, p, op)
    ensures pixel << 1 != 0 ==>
              i < 7 && Underway(op, before, now, width, p, pixel << 1, Pixel(ToU8(at.x + ToU8(StepX(op.dir))), ToU8(at.y + ToU8(StepY(op.dir)))), i + 1)
  {
    FrontBit(op.bits, i);
    ShiftOnce(op.bits, i);
    SpotNext(op, i);
    hide Spot, Shifted, Lit, ToU8, PaintedWithin, PaintedAt, Painted;
    PaintedNext(before, middle, now, width, p, op, i);
    if pixel << 1 == 0 {
      forall j: nat | i < j ensures !Lit(op.bits, j) {
        NoBitLeft(op.bits, i + 1, j);
      }
      NoMoreBits(before, now, width, p, op, i + 1);
    }
  }

  /** Setting or clearing one bit of one byte changes one pixel. */
  lemma PlotBits(before: seq<bv8>, after: seq<bv8>, width: nat, p: Page, x: nat, y: int, on: bool)
    requires |before| == |after| == 2 * width
    requires x < width && p.Holds(y) && y - p.y0 < 16
    requires var row := y - p.y0;
             var at := At(width, x, row);
             after == before[at := WithBit(before[at], row % 8, on)]
    ensures PaintedAt(before, after, width, p, x, y, on)
  {
    hide HasBit, WithBit, At;
    var row := y - p.y0;
    forall c: nat, r: nat | c < width && r < 16
      ensures Bit(after, width, c, r) == if c == x && p.y0 + r == y <= p.y1 then on else Bit(before, width, c, r)
    {
      OneBit(before[At(width, x, row)], row % 8, r % 8, on);
      SameByte(width, c, r, x, row);
    }
  }

  lemma SameByte(width: nat, c: nat, r: nat, x: nat, row: nat)
    requires c < width && x < width && r < 16 && row < 16
    ensures At(width, c, r) == At(width, x, row) && r % 8 == row % 8 <==> c == x && r == row
  {
  }

  // ----- the visibility filter -----

  /** The rows from v0 to v1, past 255 if v0 is greater. */
  predicate InArc(v0: u8, v1: u8, row: int) {
    0 <= row < 256 && if v0 <= v1 then v0 <= row <= v1 else row >= v0 || row <= v1
  }

  /** u8g_pb_IsYIntersection */
  predicate YIntersects(p: Page, v0: u8, v1: u8) {
    var c1 := v0 <= p.y1;
    var c2 := v1 >= p.y0;
    var c3 := v0 > v1;
    (c1 && c2) || (c2 && c3) || (c3 && c1)
  }

  /** u8g_pb_Is8PixelVisible */
  predicate Visible(p: Page, op: Op)
    requires op.Set8Pixel?
  {
    YIntersects(p, if op.dir == 3 then ToU8(op.y - 8) else op.y, if op.dir == 1 then ToU8(op.y + 8) else op.y)
  }

  ghost predicate SharesRow(p: Page, v0: u8, v1: u8) {
    exists row: int :: p.Holds(row) && InArc(v0, v1, row)
  }

  /** The minimised test is exact: it holds if and only if the page and the arc of rows meet. */
  lemma YIntersectsExactly(p: Page, v0: u8, v1: u8)
    requires p.y0 <= p.y1
    ensures YIntersects(p, v0, v1) <==> SharesRow(p, v0, v1)
  {
    if YIntersects(p, v0, v1) {
      var row := if p.Holds(v0) then v0 else if p.Holds(v1) then v1 else p.y0;
      assert p.Holds(row) && InArc(v0, v1, row);
    }
  }

  /** No pixel on the page is lost: a message that touches a row of it is seen as visible. */
  lemma NothingIsLost(p: Page, op: Op, x: int, y: int)
    requires op.Set8Pixel?
    requires Touches(op, x, y) && p.Holds(y)
    ensures Visible(p, op)
  {
    hide Lit;
    var i: nat :| i < 8 && Lit(op.bits, i) && Spot(op, i).x == x && Spot(op, i).y == y;
    SpotRow(op, i);
    hide Spot, ToU8;
    CutU8(op.y - 8);
    CutU8(op.y + 8);
  }

  lemma SpotRow(op: Op, i: nat)
    requires op.Set8Pixel? && i < 8
    ensures op.dir == 1 ==> Spot(op, i).y == if op.y + i < 256 then op.y + i else op.y + i - 256
    ensures op.dir == 3 ==> Spot(op, i).y == if op.y - i >= 0 then op.y - i else op.y - i + 256
    ensures op.dir != 1 && op.dir != 3 ==> Spot(op, i).y == op.y
  {
    hide ToU8;
    CutU8(op.y + i);
    CutU8(op.y - i);
    CutU8(op.y);
  }

  // ----- the page buffer -----

  class Buffer {
    const width: u8
    const height: u8
    const total: u8
    const buf: array<bv8>
    var page: Page

    ghost predicate Valid()
      reads this
    {
      0 < width && buf.Length == 2 * width && 0 < height <= 16 && height <= total
    }

    constructor (width: u8, height: u8, total: u8)
      requires 0 < width && 0 < height <= 16 && height <= total
      ensures Valid() && fresh(buf)
      ensures this.width == width && this.height == height && this.total == total
      ensures page == FirstPage(height)
      ensures forall k :: 0 <= k < buf.Length ==> buf[k] == 0
    {
      this.width := width;
      this.height := height;
      this.total := total;
      buf := new bv8[2 * width](_ => 0);
      page := FirstPage(height);
    }

    method Clear()
      requires Valid()
      modifies buf
      ensures forall k :: 0 <= k < buf.Length ==> buf[k] == 0
    {
      var ptr := 0;
      while ptr != buf.Length
        invariant 0 <= ptr <= buf.Length
        invariant forall k :: 0 <= k < ptr ==> buf[k] == 0
      {
        buf[ptr] := 0;
        ptr := ptr + 1;
      }
    }

    /** u8g_pb16v1_set_pixel: the caller has checked that the pixel lies on the page. */
    method Plot(x: u8, y: u8, color: u8)
      requires Valid() && x < width && page.Holds(y) && y - page.y0 < 16
      modifies buf
      ensures PaintedAt(old(buf[..]), buf[..], width, page, x, y, color != 0)
    {
      var row := y - page.y0;
      var ptr := 0;
      if row >= 8 {
        ptr := ptr + width;
        row := row % 8;
      }
      var mask: bv8 := 1 << row;
      ptr := ptr + x;
      ghost var before := buf[..];
      assert ptr == At(width, x, y - page.y0);
      if color != 0 {
        buf[ptr] := buf[ptr] | mask;
      } else {
        mask := mask ^ 0xFF;
        buf[ptr] := buf[ptr] & mask;
      }
      assert buf[ptr] == WithBit(before[ptr], row, color != 0);
      hide *;
      assert buf[..] == before[ptr := buf[ptr]];
      PlotBits(before, buf[..], width, page, x, y, color != 0);
    }

    /** u8g_pb16v1_SetPixel */
    method SetPixel(x: u8, y: u8, color: u8)
      requires Valid() && page.y1 - page.y0 < 16
      modifies buf
      ensures PaintedAt(old(buf[..]), buf[..], width, page, x, y, color != 0)
    {
      if y < page.y0 {
        return;
      }
      if y > page.y1 {
        return;
      }
      if x >= width {
        return;
      }
      Plot(x, y, color);
    }

    /** u8g_pb16v1_Set8PixelOpt2 */
    method Set8Pixel(op: Op)
      requires Valid() && page.y1 - page.y0 < 16 && op.Set8Pixel?
      modifies buf
      ensures Painted(old(buf[..]), buf[..], width, page, op)
    {
      var pixel := op.bits;
      var x: u8, y: u8 := op.x, op.y;
      var dx: u8, dy: u8 := ToU8(StepX(op.dir)), ToU8(StepY(op.dir));
      ghost var i: nat := 0;
      Start8(op, buf[..], width, page);
      hide ToU8, Underway, PaintedAt, Painted;
      var more := true;
      while more
        invariant if more then Underway(op, old(buf[..]), buf[..], width, page, pixel, Pixel(x, y), i) else Painted(old(buf[..]), buf[..], width, page, op)
        invariant i <= 8 && (more ==> i < 8)
        decreases 8 - i, more
      {
        ghost var middle := buf[..];
        if pixel & 128 != 0 {
          SetPixel(x, y, op.color);
        }
        Round8(op, old(buf[..]), middle, buf[..], width, page, pixel, Pixel(x, y), i);
        x := ToU8(x + dx);
        y := ToU8(y + dy);
        pixel := pixel << 1;
        i := i + 1;
        more := pixel != 0;
      }
    }

    /** The U8G_DEV_MSG_SET_8PIXEL and U8G_DEV_MSG_SET_PIXEL messages of u8g_dev_pb16v1_base_fn. */
    method Draw(op: Op)
      requires Valid() && page.y1 - page.y0 < 16
      modifies buf
      ensures Painted(old(buf[..]), buf[..], width, page, op)
    {
      match op
      case SetPixel(x, y, color) =>
        SetPixel(x, y, color);
      case Set8Pixel(_, _, _, _, _) =>
        if Visible(page, op) {
          Set8Pixel(op);
        } else {
          UnseenIsUnchanged(buf[..], width, page, op);
        }
    }

    /** The U8G_DEV_MSG_PAGE_FIRST message. */
    method PageFirst()
      requires Valid()
      modifies this`page, buf
      ensures page == FirstPage(height)
      ensures forall k :: 0 <= k < buf.Length ==> buf[k] == 0
    {
      Clear();
      page := FirstPage(height);
    }

    /** The U8G_DEV_MSG_PAGE_NEXT message. */
    method PageNext() returns (more: bool)
      requires Valid()
      modifies this`page, buf
      ensures (more, page) == NextPage(old(page), height, total)
      ensures if more then forall k :: 0 <= k < buf.Length ==> buf[k] == 0 else buf[..] == old(buf[..])
    {
      page := page.(y0 := ToU8(page.y0 + height));
      if page.y0 >= total {
        return false;
      }
      page := page.(page := ToU8(page.page + 1));
      var y1 := ToU8(page.y1 + height);
      if y1 >= total {
        y1 := total;
        y1 := ToU8(y1 - 1);
      }
      page := page.(y1 := y1);
      Clear();
      return true;
    }
  }

  lemma UnseenIsUnchanged(buf: seq<bv8>, width: nat, p: Page, op: Op)
    requires |buf| == 2 * width
    requires op.Set8Pixel? && !Visible(p, op)
    ensures Painted(buf, buf, width, p, op)
  {
    hide Bit, Visible, Touches;
    forall c: nat, r: nat | c < width && r < 16
      ensures Bit(buf, width, c, r) == if p.y0 + r <= p.y1 && Touches(op, c, p.y0 + r) then op.color != 0 else Bit(buf, width, c, r)
    {
      if p.y0 + r <= p.y1 && Touches(op, c, p.y0 + r) {
        NothingIsLost(p, op, c, p.y0 + r);
      }
    }
  }

  // ----- the draw loop -----

  lemma DarkShowsNothing(buf: seq<bv8>, width: nat, p: Page)
    requires |buf| == 2 * width
    requires forall k :: 0 <= k < |buf| ==> buf[k] == 0
    ensures Shows(buf, width, p, [])
  {
    forall c: nat, r: nat | c < width && r < 16 ensures !Bit(buf, width, c, r) {
      DarkByte(r % 8);
    }
  }

  lemma DarkByte(row: nat)
    requires row < 8
    ensures !HasBit(0, row)
  {
  }

  /** Replaying a draw list on the current page. */
  method Replay(b: Buffer, ops: seq<Op>)
    requires b.Valid() && b.page.y1 - b.page.y0 < 16
    requires Shows(b.buf[..], b.width, b.page, [])
    modifies b.buf
    ensures Shows(b.buf[..], b.width, b.page, ops)
  {
    hide Shows, Painted;
    assert ops[..0] == [];
    for i := 0 to |ops|
      invariant Shows(b.buf[..], b.width, b.page, ops[..i])
    {
      ghost var before := b.buf[..];
      b.Draw(ops[i]);
      ShowsNext(before, b.buf[..], b.width, b.page, ops[..i], ops[i]);
      assert ops[..i + 1] == ops[..i] + [ops[i]];
    }
    assert ops[..|ops|] == ops;
  }

  /** Buffer i shows page i of the full frame. */
  ghost predicate AllShown(shots: seq<seq<bv8>>, width: u8, height: u8, total: u8, ops: seq<Op>) {
    forall i: nat :: i < |shots| ==> ShotShows(shots[i], width, PageAt(height, total, i), ops)
  }

  ghost predicate ShotShows(shot: seq<bv8>, width: u8, p: Option<Page>, ops: seq<Op>) {
    |shot| == 2 * width && p.Some? && Shows(shot, width, p.value, ops)
  }

  /** u8g_FirstPage and u8g_NextPage around the draw list; the device sends the buffer out before each next page. */
  method DrawScreen(b: Buffer, ops: seq<Op>) returns (shots: seq<seq<bv8>>)
    requires b.Valid() && Fits(b.height, b.total)
    modifies b`page, b.buf
    ensures |shots| == PageCount(b.height, b.total)
    ensures AllShown(shots, b.width, b.height, b.total, ops)
  {
    hide PageAt, PageCount, NextPage, Shows, Fits, FirstPage;
    b.PageFirst();
    DarkShowsNothing(b.buf[..], b.width, b.page);
    FirstOfFit(b.height, b.total);
    shots := [];
    var more := true;
    while more
      invariant AllShown(shots, b.width, b.height, b.total, ops)
      invariant if more then |shots| < PageCount(b.height, b.total) else |shots| == PageCount(b.height, b.total)
      invariant more ==> PageAt(b.height, b.total, |shots|) == Some(b.page)
      invariant more ==> Shows(b.buf[..], b.width, b.page, [])
      decreases PageCount(b.height, b.total) - |shots|, more
    {
      PageOfFit(b.height, b.total, |shots|);
      Replay(b, ops);
      shots := shots + [b.buf[..]];
      more := b.PageNext();
      if more {
        DarkShowsNothing(b.buf[..], b.width, b.page);
      }
    }
  }

  lemma FirstOfFit(height: u8, total: u8)
    requires 0 < height <= total
    ensures PageAt(height, total, 0) == Some(FirstPage(height))
  {
  }

  /** A page of a display that fits is at most its height, and the next one is what u8g_page_Next leaves. */
  lemma PageOfFit(height: u8, total: u8, i: nat)
    requires 0 < height <= total && Fits(height, total)
    requires i < PageCount(height, total)
    requires PageAt(height, total, i).Some?
    ensures var p := PageAt(height, total, i).value;
            && p.y1 - p.y0 < height
            && (if NextPage(p, height, total).0 then
                  i + 1 < PageCount(height, total) && PageAt(height, total, i + 1) == Some(NextPage(p, height, total).1)
                else
                  i + 1 == PageCount(height, total))
  {
    hide PageCount, NextPage;
    PagesOfFit(height, total, i);
    PagesOfFit(height, total, i + 1);
    MulNext(height, i);
  }

  lemma ShotPixel(shot: seq<bv8>, width: u8, p: Page, ops: seq<Op>, x: nat, y: int)
    requires ShotShows(shot, width, Some(p), ops)
    requires x < width && p.Holds(y) && y - p.y0 < 16
    ensures |shot| == 2 * width && Bit(shot, width, x, y - p.y0) == Colour(ops, x, y)
  {
    hide Colour, Bit;
  }

  /** The page of a row, and where the row lies on it. */
  lemma RowOfFit(height: u8, total: u8, y: nat)
    requires 0 < height <= total && Fits(height, total)
    requires y < total
    ensures y / height < PageCount(height, total)
    ensures var p := PageAt(height, total, y / height); p.Some? && p.value.Holds(y) && y - p.value.y0 == y % height
  {
    hide PageCount, PageAt;
    RowPage(height, total, y / height, y);
    PagesOfFit(height, total, y / height);
    hide Fits;
    Division(y, height);
  }

  lemma Division(y: nat, height: nat)
    requires height > 0
    ensures y / height * height + y % height == y
  {
  }

  /** The buffers of the page loop, put together, are the full frame: every pixel of the display, each once. */
  lemma PagesMakeTheFrame(shots: seq<seq<bv8>>, width: u8, height: u8, total: u8, ops: seq<Op>, x: nat, y: nat)
    requires 0 < height <= 16 && height <= total && Fits(height, total)
    requires |shots| == PageCount(height, total) && AllShown(shots, width, height, total, ops)
    requires x < width && y < total
    ensures y / height < |shots| && |shots[y / height]| == 2 * width
    ensures var row := y % height;
            shots[y / height][if row < 8 then x else x + width] & (1 << row % 8) != 0 <==> Colour(ops, x, y)
  {
    hide Colour, PageCount, PageAt, Bit, Fits, ShotShows;
    RowOfFit(height, total, y);
    var i := y / height;
    var p := PageAt(height, total, i).value;
    assert ShotShows(shots[i], width, Some(p), ops);
    ShotPixel(shots[i], width, p, ops, x, y);
    BitInByte(shots[i], width, x, y % height);
  }

  /** The layout of the buffer: eight rows in a byte, the least significant bit on top, the lower half behind the upper. */
  lemma BitInByte(buf: seq<bv8>, width: nat, c: nat, r: nat)
    requires |buf| == 2 * width && c < width && r < 16
    ensures Bit(buf, width, c, r) <==> buf[if r < 8 then c else c + width] & (1 << r % 8) != 0
  {
  }
}
