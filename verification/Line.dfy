/**
 * u8g_DrawLine: Bresenham's line with a signed 8-bit error term. The drawn line is compared
 * with the same algorithm on unbounded integers and with the ideal line.
 */
module Line {
  import opened Divisors
  import opened Screen

  // ----- the error term -----

  /** Steps taken along the minor axis, and the error term. */
  datatype Pen = Pen(steps: nat, err: int)

  /** The algorithm on unbounded integers: the pen after k pixels. */
  function Ideal(dx: nat, dy: nat, k: nat): Pen {
    if k == 0 then
      Pen(0, dx / 2)
    else
      var p := Ideal(dx, dy, k - 1);
      if p.err - dy < 0 then Pen(p.steps + 1, p.err - dy + dx) else Pen(p.steps, p.err - dy)
  }

  /** The pen the source has: both updates of the error are cut to 8 bits. */
  function Move(p: Pen, dx: u8, dy: u8): Pen {
    var e := ToS8(p.err - dy);
    if e < 0 then Pen(p.steps + 1, ToS8(e + dx)) else Pen(p.steps, e)
  }

  function Drawn(dx: u8, dy: u8, k: nat): Pen {
    if k == 0 then Pen(0, ToS8(dx / 2)) else Move(Drawn(dx, dy, k - 1), dx, dy)
  }

  /** After k pixels, `steps` minor steps are at most half a pixel off the ideal line. */
  predicate HalfPixel(dx: nat, dy: nat, k: nat, steps: nat) {
    Apart(dx * steps, k * dy) * 2 <= dx
  }

  ghost predicate Precise(dx: u8, dy: u8) {
    forall k: nat :: k <= dx ==> HalfPixel(dx, dy, k, Drawn(dx, dy, k).steps)
  }

  /** The error the source tests after pixel k fits 8 bits. */
  predicate TestFits(dx: nat, dy: nat, k: nat) {
    -128 <= Ideal(dx, dy, k).err - dy < 128
  }

  ghost predicate AllTestsFit(dx: nat, dy: nat) {
    forall k: nat :: k < dx ==> TestFits(dx, dy, k)
  }

  lemma {:induction false} IdealError(dx: nat, dy: nat, k: nat)
    requires dy <= dx
    requires dx > 0
    ensures 0 <= Ideal(dx, dy, k).err < dx
    ensures Ideal(dx, dy, k).err == dx / 2 - k * dy + dx * Ideal(dx, dy, k).steps
  {
    if k > 0 {
      IdealError(dx, dy, k - 1);
      ErrorStep(dx, dy, k - 1, Ideal(dx, dy, k - 1).steps);
    }
  }

  lemma ErrorStep(dx: int, dy: int, k: int, steps: int)
    ensures dx * (steps + 1) == dx * steps + dx
    ensures (k + 1) * dy == k * dy + dy
  {
  }

  lemma IdealIsNear(dx: nat, dy: nat, k: nat)
    requires dy <= dx
    requires dx > 0
    ensures HalfPixel(dx, dy, k, Ideal(dx, dy, k).steps)
  {
    IdealError(dx, dy, k);
  }

  /** One step of the source's pen, seen on the unbounded error e: right if the test fits, wrong if not. */
  lemma MoveStep(p: Pen, e: int, dx: u8, dy: u8)
    requires p.err == ToS8(e)
    requires 0 <= e <= dx
    requires dy <= dx
    ensures -128 <= e - dy < 128 ==> Move(p, dx, dy) == if e < dy then Pen(p.steps + 1, ToS8(e - dy + dx)) else Pen(p.steps, ToS8(e - dy))
    ensures e - dy >= 128 ==> Move(p, dx, dy).steps == p.steps + 1
    ensures e - dy < -128 ==> Move(p, dx, dy).steps == p.steps
  {
    CutTwice(e, 0 - dy);
    CutTwice(e - dy, dx);
    CutS8(e - dy);
    hide ToS8;
  }

  /** As long as the tests fit, the drawn line is the ideal one; the error may wrap in between. */
  lemma {:induction false} DrawnIsIdeal(dx: u8, dy: u8, k: nat)
    requires dy <= dx
    requires forall j: nat :: j < k ==> TestFits(dx, dy, j)
    ensures Drawn(dx, dy, k).steps == Ideal(dx, dy, k).steps
    ensures Drawn(dx, dy, k).err == ToS8(Ideal(dx, dy, k).err)
  {
    hide ToS8, Move;
    if k > 0 {
      DrawnIsIdeal(dx, dy, k - 1);
      assert TestFits(dx, dy, k - 1);
      IdealRange(dx, dy, k - 1);
      MoveStep(Drawn(dx, dy, k - 1), Ideal(dx, dy, k - 1).err, dx, dy);
    }
  }

  lemma {:induction false} IdealRange(dx: nat, dy: nat, k: nat)
    requires dy <= dx
    ensures 0 <= Ideal(dx, dy, k).err
    ensures Ideal(dx, dy, k).err < dx || dx == Ideal(dx, dy, k).err == 0
  {
    if k > 0 {
      IdealRange(dx, dy, k - 1);
    }
  }

  /** The first test that does not fit puts the next pixel more than half a pixel off. */
  lemma WrongTurn(dx: u8, dy: u8, k: nat)
    requires dy <= dx
    requires k < dx
    requires forall j: nat :: j < k ==> TestFits(dx, dy, j)
    requires !TestFits(dx, dy, k)
    ensures !HalfPixel(dx, dy, k + 1, Drawn(dx, dy, k + 1).steps)
  {
    hide ToS8, Move;
    DrawnIsIdeal(dx, dy, k);
    IdealError(dx, dy, k);
    var p := Ideal(dx, dy, k);
    MoveStep(Drawn(dx, dy, k), p.err, dx, dy);
    assert Drawn(dx, dy, k + 1) == Move(Drawn(dx, dy, k), dx, dy);
    hide Drawn, Ideal;
    ErrorStep(dx, dy, k, p.steps);
  }

  lemma FirstMisfit(dx: nat, dy: nat, k: nat) returns (first: nat)
    requires !TestFits(dx, dy, k)
    ensures first <= k && !TestFits(dx, dy, first)
    ensures forall j: nat :: j < first ==> TestFits(dx, dy, j)
  {
    first := 0;
    while TestFits(dx, dy, first)
      invariant first <= k
      invariant forall j: nat :: j < first ==> TestFits(dx, dy, j)
      decreases k - first
    {
      first := first + 1;
    }
  }

  /** Exactly when the drawn line is good: the error the source tests must fit 8 bits. */
  lemma PreciseIff(dx: u8, dy: u8)
    requires dy <= dx
    ensures Precise(dx, dy) <==> AllTestsFit(dx, dy)
  {
    if AllTestsFit(dx, dy) {
      forall k: nat | k <= dx ensures HalfPixel(dx, dy, k, Drawn(dx, dy, k).steps) {
        DrawnIsIdeal(dx, dy, k);
        if dx > 0 {
          IdealIsNear(dx, dy, k);
        }
      }
    } else {
      var k: nat :| k < dx && !TestFits(dx, dy, k);
      var first := FirstMisfit(dx, dy, k);
      WrongTurn(dx, dy, first);
      assert !HalfPixel(dx, dy, first + 1, Drawn(dx, dy, first + 1).steps);
    }
  }

  lemma Quotient(a: int, b: int, q: int)
    requires b > 0 && b * q <= a < b * q + b
    ensures a / b == q
  {
    var d := a / b - q;
    Far(d, b);
    assert b * (a / b) == b * q + d * b;
  }

  lemma Rounded(dx: nat, along: int, s: int)
    requires dx > 0 && 2 * (dx * s) <= 2 * along + dx - 1 < 2 * (dx * s) + 2 * dx
    ensures s == (2 * along + dx - 1) / (2 * dx)
  {
    assert 2 * dx * s == 2 * (dx * s);
    Quotient(2 * along + dx - 1, 2 * dx, s);
  }

  lemma Halves(dx: nat, along: int, up: int, e: int)
    requires e == dx / 2 - along + up && 0 <= e < dx
    ensures 2 * up <= 2 * along + dx - 1 < 2 * up + 2 * dx
  {
  }

  /** The steps of the ideal pen in closed form: the nearest row, a half rounded towards the start. */
  lemma IdealSteps(dx: nat, dy: nat, k: nat)
    requires dy <= dx && dx > 0
    ensures Ideal(dx, dy, k).steps == (2 * (k * dy) + dx - 1) / (2 * dx)
  {
    IdealError(dx, dy, k);
    var s := Ideal(dx, dy, k).steps;
    Halves(dx, k * dy, dx * s, Ideal(dx, dy, k).err);
    Rounded(dx, k * dy, s);
  }

  // ----- which errors occur -----

  /** The error of the ideal pen moves in steps of dy modulo dx, from dx / 2. */
  lemma ErrorSame(dx: nat, dy: nat, k: nat)
    requires dy <= dx && dx > 0
    ensures 0 <= Ideal(dx, dy, k).err < dx
    ensures Same(Ideal(dx, dy, k).err, dx / 2 - k * dy, dx)
  {
    IdealError(dx, dy, k);
    var s := Ideal(dx, dy, k).steps;
    assert dx * s == s * dx;
    SameIs(Ideal(dx, dy, k).err, dx / 2 - k * dy, dx, s);
  }

  /** Every error that differs from dx / 2 by a multiple of the divisor occurs. */
  lemma ErrorOccurs(dx: nat, dy: nat, e: int) returns (k: nat)
    requires dy <= dx && 0 <= e < dx
    requires Same(dx / 2 - e, 0, Gcd(dy, dx))
    ensures k < dx && Ideal(dx, dy, k).err == e
  {
    hide Same, Ideal, Gcd;
    k := StepsReach(dy, dx, dx / 2 - e);
    ErrorSame(dx, dy, k);
    SameMirror(k * dy, dx / 2 - e, dx / 2, dx);
    SameTrans(Ideal(dx, dy, k).err, dx / 2 - k * dy, e, dx);
    SameUnique(Ideal(dx, dy, k).err, e, dx);
  }

  /** The least and the greatest error, g being the divisor: dx / 2 % g, and dx - g more. */
  lemma ErrorBounds(dx: nat, dy: nat, k: nat)
    requires dy <= dx && dx > 0
    ensures var g := Gcd(dy, dx); g > 0 && dx / 2 % g <= Ideal(dx, dy, k).err <= dx - g + dx / 2 % g
  {
    var g := Gcd(dy, dx);
    GcdDivides(dy, dx);
    var e, r := Ideal(dx, dy, k).err, dx / 2 % g;
    ErrorSame(dx, dy, k);
    ErrorMultiple(dx, dy, k, g);
    if e < r {
      SameSum(0, e - r, g) by {
        SameIs(0, 0, g, 0);
      }
      PositiveMultiple(0 - (e - r), g);
    }
    SameSum(dx, e - r, g);
    PositiveMultiple(dx - (e - r), g);
  }

  lemma ErrorMultiple(dx: nat, dy: nat, k: nat, g: nat)
    requires dy <= dx && dx > 0 && g > 0
    requires Same(dx, 0, g) && Same(dy, 0, g)
    ensures Same(Ideal(dx, dy, k).err - dx / 2 % g, 0, g)
  {
    ErrorSame(dx, dy, k);
    var e := Ideal(dx, dy, k).err;
    var a: int :| e - (dx / 2 - k * dy) == a * dx;
    var b: int :| dx - 0 == b * g;
    var c: int :| dy - 0 == c * g;
    SameMod(dx / 2, g);
    var d: int :| dx / 2 - dx / 2 % g == d * g;
    SumOfMultiples(a, b, c, d, g, k, dx, dy);
    SameIs(e - dx / 2 % g, 0, g, a * b - k * c + d);
  }

  lemma SumOfMultiples(a: int, b: int, c: int, d: int, g: int, k: int, dx: int, dy: int)
    requires dx == b * g && dy == c * g
    ensures a * dx - k * dy + d * g == (a * b - k * c + d) * g
  {
    assert a * (b * g) == (a * b) * g && k * (c * g) == (k * c) * g;
  }

  /** The condition without the algorithm: the least error tested and the greatest one must fit 8 bits. */
  predicate DeltasFit(dx: nat, dy: nat) {
    dx > 0 ==>
      var g := Gcd(dy, dx);
      g > 0 && -128 <= dx / 2 % g - dy && dx - g + dx / 2 % g - dy < 128
  }

  lemma AllTestsFitIff(dx: nat, dy: nat)
    requires dy <= dx
    ensures AllTestsFit(dx, dy) <==> DeltasFit(dx, dy)
  {
    if dx > 0 {
      var g := Gcd(dy, dx);
      GcdDivides(dy, dx);
      PositiveMultiple(dx, g);
      if AllTestsFit(dx, dy) {
        var r := dx / 2 % g;
        SameMod(dx / 2, g);
        LeastAndGreatest(dx, g, r);
        var k := ErrorOccurs(dx, dy, r);
        var l := ErrorOccurs(dx, dy, dx - g + r);
        assert TestFits(dx, dy, k) && TestFits(dx, dy, l);
      }
      if DeltasFit(dx, dy) {
        forall k: nat | k < dx ensures TestFits(dx, dy, k) {
          ErrorBounds(dx, dy, k);
        }
      }
    }
  }

  lemma LeastAndGreatest(dx: nat, g: nat, r: nat)
    requires g > 0 && Same(dx, 0, g) && Same(dx / 2, r, g) && r < g
    ensures Same(dx / 2 - r, 0, g) && Same(dx / 2 - (dx - g + r), 0, g)
  {
    var q: int :| dx / 2 - r == q * g;
    var b: int :| dx - 0 == b * g;
    SameIs(dx / 2 - r, 0, g, q);
    SameIs(dx / 2 - (dx - g + r), 0, g, q - b + 1);
  }

  /** Exactly which lines are good, by their two deltas. */
  lemma PreciseExactly(dx: u8, dy: u8)
    requires dy <= dx
    ensures Precise(dx, dy) <==> DeltasFit(dx, dy)
  {
    PreciseIff(dx, dy);
    AllTestsFitIff(dx, dy);
  }

  /** So is the line drawn, wherever it is precise. */
  lemma ExactSteps(dx: u8, dy: u8, k: nat)
    requires 0 < dx && dy <= dx && k <= dx && DeltasFit(dx, dy)
    ensures Drawn(dx, dy, k).steps == (2 * (k * dy) + dx - 1) / (2 * dx)
  {
    AllTestsFitIff(dx, dy);
    DrawnIsIdeal(dx, dy, k);
    IdealSteps(dx, dy, k);
  }

  /** A simple condition that is enough, and holds whenever both deltas are at most 128. */
  lemma SmallDeltasFit(dx: u8, dy: u8)
    requires dy <= dx
    requires dy <= 128 && dx - dy <= 128
    ensures AllTestsFit(dx, dy)
  {
    forall k: nat | k < dx ensures TestFits(dx, dy, k) {
      IdealError(dx, dy, k);
    }
  }

  /** With both deltas at most 128 the stored error itself never leaves 8 bits. */
  lemma {:induction false} NoOverflow(dx: u8, dy: u8, k: nat)
    requires dy <= dx <= 128
    ensures Drawn(dx, dy, k) == Ideal(dx, dy, k)
    ensures -128 <= Ideal(dx, dy, k).err - dy && Ideal(dx, dy, k).err < 128
  {
    hide ToS8, Move;
    IdealRange(dx, dy, k);
    CutS8(Ideal(dx, dy, k).err);
    if k > 0 {
      NoOverflow(dx, dy, k - 1);
      IdealRange(dx, dy, k - 1);
      CutS8(Ideal(dx, dy, k - 1).err);
      MoveStep(Drawn(dx, dy, k - 1), Ideal(dx, dy, k - 1).err, dx, dy);
    } else {
      CutS8(dx / 2);
    }
  }

  lemma {:induction false} ShallowStart(k: nat)
    requires k <= 65
    ensures Ideal(130, 1, k) == Pen(0, 65 - k)
  {
    if k > 0 {
      ShallowStart(k - 1);
    }
  }

  /** From (0,0) to (130,1) the line leaves its own bounding box: the condition is needed. */
  lemma ShallowLineFails()
    ensures !Precise(130, 1)
    ensures Drawn(130, 1, 67).steps == 2
  {
    hide ToS8, Move;
    ShallowStart(65);
    var p := Ideal(130, 1, 66);
    assert p == Pen(1, 129) by {
      assert p == Pen(0 + 1, 0 - 1 + 130);
    }
    assert !TestFits(130, 1, 66);
    PreciseIff(130, 1);
    forall j: nat | j < 66 ensures TestFits(130, 1, j) {
      ShallowStart(j);
    }
    DrawnIsIdeal(130, 1, 66);
    MoveStep(Drawn(130, 1, 66), 129, 130, 1);
    assert Drawn(130, 1, 67) == Move(Drawn(130, 1, 66), 130, 1);
  }

  // ----- the pixels -----

  /** The line the source walks: along x, from left to right, after its two swaps. */
  datatype Walk = Walk(swapped: bool, x1: u8, y1: u8, x2: u8, y2: u8) {

    function Dx(): u8 {
      Apart(x1, x2)
    }

    function Dy(): u8 {
      Apart(y1, y2)
    }

    /** The last column drawn: column 255 is left out so that the 8-bit counter can pass the end. */
    function Last(): u8 {
      if x2 == 255 then 254 else x2
    }

    /** The row after so many steps, counted in 8 bits. */
    function Across(steps: nat): u8 {
      ToU8(if y2 > y1 then y1 + steps else y1 - steps)
    }

    /** The steps across taken in the first k columns. */
    function Steps(k: nat): nat {
      Drawn(Dx(), Dy(), k).steps
    }

    /** Pixel k. */
    function At(k: nat): Pixel
      requires x1 + k < 256
    {
      var y := Across(Steps(k));
      if swapped then Pixel(y, x1 + k) else Pixel(x1 + k, y)
    }
  }

  function WalkOf(a: Pixel, b: Pixel): Walk {
    var swapped := Apart(a.y, b.y) > Apart(a.x, b.x);
    var w := if swapped then Walk(true, a.y, a.x, b.y, b.x) else Walk(false, a.x, a.y, b.x, b.y);
    if w.x1 > w.x2 then Walk(swapped, w.x2, w.y2, w.x1, w.y1) else w
  }

  function Pixels(w: Walk): (pixels: seq<Pixel>) {
    seq(if w.Last() < w.x1 then 0 else w.Last() - w.x1 + 1, k requires 0 <= k && w.x1 + k <= w.Last() => w.At(k))
  }

  function Raster(a: Pixel, b: Pixel): (pixels: seq<Pixel>) {
    Pixels(WalkOf(a, b))
  }

  /** The loop of DrawLine after |pixels| rounds. */
  ghost predicate Going(w: Walk, pixels: seq<Pixel>, y: u8, err: s8) {
    && |pixels| <= Max(0, w.Last() - w.x1 + 1)
    && (forall k :: 0 <= k < |pixels| ==> pixels[k] == w.At(k))
    && y == w.Across(w.Steps(|pixels|))
    && err == Drawn(w.Dx(), w.Dy(), |pixels|).err
  }

  lemma WalkStart(w: Walk)
    ensures Going(w, [], w.y1, ToS8(w.Dx() / 2))
    ensures w.Last() == if w.x2 == 255 then 254 else w.x2
  {
    CutU8(w.y1);
    hide ToU8;
  }

  lemma WalkEnd(w: Walk, pixels: seq<Pixel>, y: u8, err: s8)
    requires Going(w, pixels, y, err)
    requires |pixels| == w.Last() - w.x1 + 1
    ensures pixels == Pixels(w)
  {
    hide Drawn;
  }

  /** One round of the loop: the row moves when the pen steps. */
  lemma Round(w: Walk, pixels: seq<Pixel>, y: u8, err: s8, x: u8)
    requires Going(w, pixels, y, err)
    requires x == w.x1 + |pixels| <= w.Last()
    ensures var e := ToS8(err - w.Dy());
            Going(w, pixels + [if w.swapped then Pixel(y, x) else Pixel(x, y)],
                  if e < 0 then ToU8(y + ToU8(if w.y2 > w.y1 then 1 else -1)) else y,
                  if e < 0 then ToS8(e + w.Dx()) else e)
  {
    hide ToS8, ToU8;
    var steps := w.Steps(|pixels|);
    NextU8(if w.y2 > w.y1 then w.y1 + steps else w.y1 - steps);
  }

  /** The loop of u8g_DrawLine, on the line its swaps have left. */
  method DrawWalk(swapxy: bool, x1: u8, y1: u8, x2: u8, y2: u8, dx: u8, dy: u8) returns (pixels: seq<Pixel>)
    requires dx == Apart(x1, x2) && dy == Apart(y1, y2) && x1 <= x2
    ensures pixels == Pixels(Walk(swapxy, x1, y1, x2, y2))
  {
    hide ToS8, ToU8, Going;
    ghost var w := Walk(swapxy, x1, y1, x2, y2);
    WalkStart(w);
    var err: s8 := ToS8(dx / 2);
    var ystep: s8 := if y2 > y1 then 1 else -1;
    var y: u8 := y1;
    var end: u8 := if x2 == 255 then x2 - 1 else x2;
    var x: u8 := x1;
    pixels := [];
    while x <= end
      invariant x1 <= x <= end + 1
      invariant |pixels| == x - x1
      invariant Going(w, pixels, y, err)
    {
      Round(w, pixels, y, err, x);
      pixels := pixels + [if swapxy then Pixel(y, x) else Pixel(x, y)];
      err := ToS8(err - dy);
      if err < 0 {
        y := ToU8(y + ToU8(ystep));
        err := ToS8(err + dx);
      }
      x := x + 1;
    }
    WalkEnd(w, pixels, y, err);
  }

  method DrawLine(x1: u8, y1: u8, x2: u8, y2: u8) returns (pixels: seq<Pixel>)
    ensures pixels == Raster(Pixel(x1, y1), Pixel(x2, y2))
  {
    var swapxy := false;
    var fromX: u8, fromY: u8, toX: u8, toY: u8 := x1, y1, x2, y2;
    var dx: u8 := if x1 > x2 then x1 - x2 else x2 - x1;
    var dy: u8 := if y1 > y2 then y1 - y2 else y2 - y1;
    if dy > dx {
      swapxy := true;
      dx, dy := dy, dx;
      fromX, fromY := fromY, fromX;
      toX, toY := toY, toX;
    }
    if fromX > toX {
      fromX, toX := toX, fromX;
      fromY, toY := toY, fromY;
    }
    ghost var w := WalkOf(Pixel(x1, y1), Pixel(x2, y2));
    assert w == Walk(swapxy, fromX, fromY, toX, toY) && dx == w.Dx() && dy == w.Dy();
    pixels := DrawWalk(swapxy, fromX, fromY, toX, toY, dx, dy);
  }

  // ----- the drawn line and the ideal line -----

  /** Twice the distance of p to the line through a and b, measured along the minor axis, in units of the longer side. */
  function TwiceOff(a: Pixel, b: Pixel, p: Pixel): nat {
    2 * Apart((p.x - a.x) * (b.y - a.y), (p.y - a.y) * (b.x - a.x))
  }

  function Turned(p: Pixel): Pixel {
    Pixel(p.y, p.x)
  }

  function Major(a: Pixel, b: Pixel, p: Pixel): u8 {
    if Apart(a.y, b.y) > Apart(a.x, b.x) then p.y else p.x
  }

  predicate NearEnough(a: Pixel, b: Pixel) {
    Apart(a.x, b.x) <= 128 && Apart(a.y, b.y) <= 128
  }

  /** With the tests fitting, pixel k of the walk stands k columns from the start and inside the box. */
  lemma StepsInBox(dx: u8, dy: u8, k: nat)
    requires dy <= dx && k <= dx
    requires AllTestsFit(dx, dy)
    ensures Drawn(dx, dy, k).steps <= dy
    ensures k == dx ==> Drawn(dx, dy, k).steps == dy
  {
    DrawnIsIdeal(dx, dy, k);
    if dx > 0 {
      IdealError(dx, dy, k);
      var s := Ideal(dx, dy, k).steps;
      StepsBound(dx, dy, k, s);
    }
  }

  lemma StepsBound(dx: nat, dy: nat, k: nat, s: nat)
    requires 0 < dx && k <= dx
    requires 0 <= dx / 2 - k * dy + dx * s < dx
    ensures s <= dy
    ensures k == dx ==> s == dy
  {
    if s > dy {
      Products(dx, dy, s);
      Products(dy, k, dx + 1);
    } else if k == dx && s < dy {
      Products(dx, s, dy);
    }
  }

  lemma Products(c: nat, a: nat, b: nat)
    requires a < b
    ensures c * a + c <= c * b
    ensures a * c + c <= b * c
  {
    assert c * b == c * a + c + c * (b - a - 1);
  }

  /** TwiceOff for a point so many columns and steps from the start of the walk. */
  lemma OffAlongWalk(w: Walk, k: nat)
    requires w.x1 <= w.x2
    requires HalfPixel(w.Dx(), w.Dy(), k, w.Steps(k))
    requires w.x1 + k < 256
    requires w.Across(w.Steps(k)) == if w.y2 > w.y1 then w.y1 + w.Steps(k) else w.y1 - w.Steps(k)
    ensures TwiceOff(Pixel(w.x1, w.y1), Pixel(w.x2, w.y2), Pixel(w.x1 + k, w.Across(w.Steps(k)))) <= w.Dx()
  {
    hide Drawn, ToU8;
    SignedCross(w.Dx(), w.Dy(), k, w.Steps(k));
  }

  lemma SignedCross(dx: int, dy: int, k: int, s: int)
    requires Apart(dx * s, k * dy) * 2 <= dx
    ensures 2 * Apart(k * dy, s * dx) <= dx
    ensures 2 * Apart(k * (0 - dy), (0 - s) * dx) <= dx
  {
    assert s * dx == dx * s;
    assert k * (0 - dy) == 0 - k * dy;
    assert (0 - s) * dx == 0 - s * dx;
  }

  /** TwiceOff does not depend on which end comes first, or on which coordinate. */
  lemma OffTurned(a: Pixel, b: Pixel, p: Pixel)
    ensures TwiceOff(b, a, p) == TwiceOff(a, b, p)
    ensures TwiceOff(Turned(a), Turned(b), Turned(p)) == TwiceOff(a, b, p)
    ensures TwiceOff(Turned(b), Turned(a), Turned(p)) == TwiceOff(a, b, p)
  {
    assert (p.x - b.x) * (a.y - b.y) - (p.y - b.y) * (a.x - b.x)
        == (p.y - a.y) * (b.x - a.x) - (p.x - a.x) * (b.y - a.y);
  }

  lemma PixelInWalk(w: Walk, k: nat)
    requires w.Dy() <= w.Dx() <= 128
    requires k <= w.Dx()
    ensures HalfPixel(w.Dx(), w.Dy(), k, w.Steps(k))
    ensures w.Across(w.Steps(k)) == if w.y2 > w.y1 then w.y1 + w.Steps(k) else w.y1 - w.Steps(k)
    ensures w.Steps(k) <= w.Dy()
    ensures k == w.Dx() ==> w.Steps(k) == w.Dy()
  {
    SmallDeltasFit(w.Dx(), w.Dy());
    StepsInBox(w.Dx(), w.Dy(), k);
    PreciseIff(w.Dx(), w.Dy());
    hide Drawn, ToU8;
    CutU8(if w.y2 > w.y1 then w.y1 + w.Steps(k) else w.y1 - w.Steps(k));
  }

  /** Every pixel lies in the box of the two ends and within half a pixel of the line through them. */
  lemma PixelIsOnLine(a: Pixel, b: Pixel, k: nat)
    requires NearEnough(a, b)
    requires k < |Raster(a, b)|
    ensures TwiceOff(a, b, Raster(a, b)[k]) <= Max(Apart(a.x, b.x), Apart(a.y, b.y))
    ensures Min(a.x, b.x) <= Raster(a, b)[k].x <= Max(a.x, b.x)
    ensures Min(a.y, b.y) <= Raster(a, b)[k].y <= Max(a.y, b.y)
  {
    hide Drawn, ToU8, HalfPixel, TwiceOff;
    var w := WalkOf(a, b);
    PixelInWalk(w, k);
    OffAlongWalk(w, k);
    OffTurned(a, b, Raster(a, b)[k]);
  }

  /**
   * Every line, near or not, has one pixel for each column of its longer side, in order; only
   * column 255 is left out.
   */
  lemma OnePixelPerColumn(a: Pixel, b: Pixel)
    ensures |Raster(a, b)| == Max(Apart(a.x, b.x), Apart(a.y, b.y)) + (if Max(Major(a, b, a), Major(a, b, b)) == 255 then 0 else 1)
    ensures forall k :: 0 <= k < |Raster(a, b)| ==> Major(a, b, Raster(a, b)[k]) == Min(Major(a, b, a), Major(a, b, b)) + k
  {
    hide Drawn, ToU8;
  }

  /** A near line that keeps off column 255 starts at one end and stops at the other. */
  lemma ReachesBothEnds(a: Pixel, b: Pixel)
    requires NearEnough(a, b)
    requires Max(Major(a, b, a), Major(a, b, b)) < 255
    ensures |Raster(a, b)| > 0
    ensures Raster(a, b)[0] in {a, b} && Raster(a, b)[|Raster(a, b)| - 1] in {a, b}
    ensures a != b ==> Raster(a, b)[0] != Raster(a, b)[|Raster(a, b)| - 1]
  {
    var w := WalkOf(a, b);
    FirstStep(w);
    hide Drawn, ToU8, HalfPixel;
    PixelInWalk(w, 0);
    PixelInWalk(w, w.Dx());
  }

  lemma FirstStep(w: Walk)
    ensures w.Steps(0) == 0
  {
  }
}
