/**
 * u8g_page.c: how the display is cut into pages with 8-bit row numbers, and exactly when the
 * pages tile it.
 */
module Pages {
  import opened Divisors
  import opened Options
  import opened Screen

  /** u8g_page_t without its two constant heights. */
  datatype Page = Page(y0: u8, y1: u8, page: u8) {

    predicate Holds(row: int) {
      y0 <= row <= y1
    }
  }

  function FirstPage(height: u8): Page {
    Page(0, ToU8(height - 1), 0)
  }

  /** u8g_page_Next: the state it leaves, and whether there is a next page. */
  function NextPage(p: Page, height: u8, total: u8): (bool, Page) {
    var y0 := ToU8(p.y0 + height);
    if y0 >= total then
      (false, p.(y0 := y0))
    else
      var y1 := ToU8(p.y1 + height);
      (true, Page(y0, if y1 >= total then ToU8(total - 1) else y1, ToU8(p.page + 1)))
  }

  /** The page shown after i successful calls of u8g_page_Next, if there is one. */
  function PageAt(height: u8, total: u8, i: nat): Option<Page> {
    if i == 0 then
      Some(FirstPage(height))
    else
      match PageAt(height, total, i - 1)
      case None => None
      case Some(p) => if NextPage(p, height, total).0 then Some(NextPage(p, height, total).1) else None
  }

  ghost predicate HasRow(height: u8, total: u8, i: nat, row: int) {
    PageAt(height, total, i).Some? && PageAt(height, total, i).value.Holds(row)
  }

  ghost predicate OnSomePage(height: u8, total: u8, row: int) {
    exists i: nat :: HasRow(height, total, i, row)
  }

  /** There are n pages, none empty, and they hold every row of the display once and no other row. */
  ghost predicate Tiles(height: u8, total: u8, n: nat) {
    && PageAt(height, total, n).None?
    && (forall i: nat :: i < n ==> PageAt(height, total, i).Some? && PageAt(height, total, i).value.y0 <= PageAt(height, total, i).value.y1)
    && (forall i: nat, row: int :: HasRow(height, total, i, row) ==> 0 <= row < total)
    && (forall row: int :: 0 <= row < total ==> OnSomePage(height, total, row))
    && (forall i: nat, j: nat, row: int :: HasRow(height, total, i, row) && HasRow(height, total, j, row) ==> i == j)
  }

  /** The pages needed for a display of total rows. */
  function PageCount(height: u8, total: u8): (n: nat)
    requires 0 < height <= total
    ensures n > 0
    ensures (n - 1) * height < total <= n * height
  {
    var n := (total + height - 1) / height;
    Ceiling(height, total, n);
    n
  }

  lemma Ceiling(height: nat, total: nat, n: nat)
    requires 0 < height <= total
    requires n == (total + height - 1) / height
    ensures n > 0
    ensures (n - 1) * height < total <= n * height
  {
    var r := (total + height - 1) % height;
    assert total + height - 1 == n * height + r;
    assert (n - 1) * height == n * height - height;
    if n <= 0 {
      MulMono(height, n, 0);
    }
  }

  /** The first row past the last page still is an 8-bit number. */
  predicate Fits(height: u8, total: u8)
    requires 0 < height <= total
  {
    PageCount(height, total) * height < 256
  }

  lemma MulNext(height: int, i: int)
    ensures (i + 1) * height == i * height + height
  {
  }

  lemma MulMono(height: int, i: int, j: int)
    requires height >= 0 && i <= j
    ensures i * height <= j * height
  {
    assert (j - i) * height >= 0;
  }

  /** Before 8 bits run out, page i starts at row i * height. */
  lemma {:induction false} PageStart(height: u8, total: u8, i: nat)
    requires 0 < height <= total
    requires i * height < total
    requires (i + 1) * height <= 256
    ensures PageAt(height, total, i) == Some(Page(i * height, Min((i + 1) * height, total) - 1, ToU8(i)))
  {
    hide ToU8;
    CutU8(height - 1);
    CutU8(0);
    if i > 0 {
      MulNext(height, i - 1);
      MulNext(height, i);
      PageStart(height, total, i - 1);
      NextStep(Page((i - 1) * height, i * height - 1, ToU8(i - 1)), height, total);
      NextU8(i - 1);
      CutU8(1);
    } else {
      MulNext(height, 0);
    }
  }

  /** u8g_page_Next on numbers: each sum wraps at most once. */
  lemma NextStep(p: Page, height: u8, total: u8)
    requires total > 0
    ensures var y0 := if p.y0 + height < 256 then p.y0 + height else p.y0 + height - 256;
            var y1 := if p.y1 + height < 256 then p.y1 + height else p.y1 + height - 256;
            NextPage(p, height, total) ==
              if y0 >= total then (false, p.(y0 := y0))
              else (true, Page(y0, if y1 >= total then total - 1 else y1, ToU8(p.page + 1)))
  {
    hide ToU8;
    CutU8(p.y0 + height);
    CutU8(p.y1 + height);
    CutU8(total - 1);
  }

  lemma {:induction false} NoPageAfter(height: u8, total: u8, n: nat, i: nat)
    requires PageAt(height, total, n).None?
    requires n <= i
    ensures PageAt(height, total, i).None?
  {
    if n < i {
      NoPageAfter(height, total, n, i - 1);
    }
  }

  /** If the rows fit 8 bits, page i holds exactly the rows i * height to (i + 1) * height - 1 of the display. */
  lemma PagesOfFit(height: u8, total: u8, i: nat)
    requires 0 < height <= total
    requires Fits(height, total)
    ensures i < PageCount(height, total) ==> PageAt(height, total, i) == Some(Page(i * height, Min((i + 1) * height, total) - 1, ToU8(i)))
    ensures i < PageCount(height, total) ==> PageAt(height, total, i).value.y0 <= PageAt(height, total, i).value.y1
    ensures i >= PageCount(height, total) ==> PageAt(height, total, i).None?
  {
    var n := PageCount(height, total);
    hide PageAt, NextPage, PageCount, ToU8;
    if i < n {
      MulMono(height, i, n - 1);
      MulMono(height, i + 1, n);
      MulNext(height, i);
      PageStart(height, total, i);
    } else {
      PageStart(height, total, n - 1);
      EndsAt(height, total, n);
      NoPageAfter(height, total, n, i);
    }
  }

  lemma EndsAt(height: u8, total: u8, n: nat)
    requires n > 0 && PageAt(height, total, n - 1).Some?
    requires PageAt(height, total, n - 1).value.y0 == (n - 1) * height
    requires 0 < total <= n * height < 256
    ensures PageAt(height, total, n).None?
  {
    hide NextPage, ToU8;
    MulNext(height, n - 1);
    NextStep(PageAt(height, total, n - 1).value, height, total);
  }

  lemma RowPage(height: u8, total: u8, i: nat, row: int)
    requires 0 < height <= total
    requires Fits(height, total)
    ensures HasRow(height, total, i, row) <==> 0 <= row < total && i == row / height
  {
    var n := PageCount(height, total);
    hide PageAt, PageCount;
    PagesOfFit(height, total, i);
    MulNext(height, i);
    Quotient(height, row, i);
    if i >= n && 0 <= row < total {
      MulMono(height, n, i);
    }
  }

  lemma Quotient(height: nat, row: int, i: nat)
    requires 0 < height
    ensures i * height <= row < (i + 1) * height <==> row >= 0 && i == row / height
  {
    if row >= 0 {
      var q := row / height;
      MulNext(height, q);
      assert q * height <= row < (q + 1) * height;
      if i < q {
        MulMono(height, i + 1, q);
      } else if i > q {
        MulMono(height, q + 1, i);
      }
    } else {
      MulMono(height, 0, i);
    }
  }

  lemma FitTiles(height: u8, total: u8)
    requires 0 < height <= total
    requires Fits(height, total)
    ensures Tiles(height, total, PageCount(height, total))
  {
    hide PageAt, PageCount, HasRow;
    forall i: nat, row: int ensures HasRow(height, total, i, row) <==> 0 <= row < total && i == row / height {
      RowPage(height, total, i, row);
    }
    forall row: int | 0 <= row < total ensures OnSomePage(height, total, row) {
      assert HasRow(height, total, row / height, row);
    }
    forall i: nat ensures i < PageCount(height, total) <==> PageAt(height, total, i).Some?
      ensures i < PageCount(height, total) ==> PageAt(height, total, i).value.y0 <= PageAt(height, total, i).value.y1
    {
      PagesOfFit(height, total, i);
    }
  }

  /** The last page that should be, starting at row y, when y + height is past 8 bits: it is empty or not the last. */
  lemma WrappedStep(p: Page, height: u8, total: u8, y: int)
    requires 0 < height <= y < total <= y + height
    requires y + height >= 256
    requires p.y0 == y - height && p.y1 == y - 1
    ensures NextPage(p, height, total).0
    ensures var last := NextPage(p, height, total).1;
            last.y0 > last.y1 || (NextPage(last, height, total).0 && NextPage(last, height, total).1.Holds(0))
  {
    hide ToU8;
    hide NextPage;
    NextStep(p, height, total);
    var last := NextPage(p, height, total).1;
    NextStep(last, height, total);
  }

  /** Once the rows run past 8 bits, the last page is empty, or a page too many shows row 0 again. */
  lemma WrapSpoils(height: u8, total: u8)
    requires 0 < height <= total
    requires !Fits(height, total)
    ensures var n := PageCount(height, total);
            || (PageAt(height, total, n - 1).Some? && PageAt(height, total, n - 1).value.y0 > PageAt(height, total, n - 1).value.y1)
            || (HasRow(height, total, 0, 0) && HasRow(height, total, n, 0))
  {
    hide ToU8, NextPage, PageAt, PageCount;
    var n := PageCount(height, total);
    MulNext(height, n - 1);
    MulNext(height, n - 2);
    MulNext(height, 0);
    PageStart(height, total, 0);
    if n > 1 {
      PageStart(height, total, n - 2);
      var p := PageAt(height, total, n - 2).value;
      WrappedStep(p, height, total, (n - 1) * height);
      OnePageOn(height, total, n - 2, p);
      OnePageOn(height, total, n - 1, NextPage(p, height, total).1);
    }
  }

  lemma OnePageOn(height: u8, total: u8, i: nat, p: Page)
    requires PageAt(height, total, i) == Some(p)
    ensures NextPage(p, height, total).0 ==> PageAt(height, total, i + 1) == Some(NextPage(p, height, total).1)
  {
    hide NextPage;
  }

  lemma SpoiltIsNotTiled(height: u8, total: u8, n: nat)
    requires 0 < height <= total
    requires !Fits(height, total)
    ensures !Tiles(height, total, n)
  {
    hide PageAt, PageCount;
    var last := PageCount(height, total);
    WrapSpoils(height, total);
    if n <= last - 1 && PageAt(height, total, n).None? {
      NoPageAfter(height, total, n, last - 1);
    }
  }

  /** A page higher than the display holds rows past it; one of no height holds row 255. */
  lemma MisfitIsNotTiled(height: u8, total: u8, n: nat)
    requires !(0 < height <= total)
    ensures !Tiles(height, total, n)
  {
    var last := ToU8(height - 1);
    assert HasRow(height, total, 0, last);
  }

  /** Exactly when the page loop tiles the display: the rows of all its pages must fit 8 bits. */
  lemma TilesIff(height: u8, total: u8)
    ensures (exists n: nat :: Tiles(height, total, n)) <==> 0 < height <= total && Fits(height, total)
  {
    if !(0 < height <= total) {
      forall n: nat ensures !Tiles(height, total, n) {
        MisfitIsNotTiled(height, total, n);
      }
    } else if Fits(height, total) {
      FitTiles(height, total);
    } else {
      forall n: nat ensures !Tiles(height, total, n) {
        SpoiltIsNotTiled(height, total, n);
      }
    }
  }

  /** The bound the library's users rely on. */
  lemma ShortDisplayFits(height: u8, total: u8)
    requires 0 < height <= total
    requires total + height <= 256
    ensures Fits(height, total)
  {
    MulNext(height, PageCount(height, total) - 1);
  }

  // ----- whether the loop ends -----

  /** Page i starts at row i * height, modulo 256; and a page after the first starts on the display. */
  lemma {:induction false} StartRow(height: u8, total: u8, i: nat)
    requires PageAt(height, total, i).Some?
    ensures Same(i * height, PageAt(height, total, i).value.y0, 256)
    ensures i > 0 ==> PageAt(height, total, i).value.y0 < total
  {
    if i == 0 {
      SameIs(0, 0, 256, 0);
    } else {
      StartRow(height, total, i - 1);
      var y := PageAt(height, total, i - 1).value.y0;
      MulNext(height, i - 1);
      var q: int :| (i - 1) * height - y == q * 256;
      SameIs(i * height, y + height, 256, q);
      SameMod(y + height, 256);
      SameTrans(i * height, y + height, ToU8(y + height), 256);
    }
  }

  /** If the last multiple of the divisor is on the display, every start is, and the loop never ends. */
  lemma {:induction false} NeverEnds(height: u8, total: u8, i: nat)
    requires total > 256 - Gcd(height, 256)
    ensures PageAt(height, total, i).Some?
    ensures Same(PageAt(height, total, i).value.y0, 0, Gcd(height, 256))
  {
    var g := Gcd(height, 256);
    GcdDivides(height, 256);
    SameIs(0, 0, g, 0);
    if i > 0 {
      NeverEnds(height, total, i - 1);
      var p := PageAt(height, total, i - 1).value;
      NextStep(p, height, total);
      SameSum(p.y0, height, g);
      SameSum(p.y0 + height, 256, g);
      var y := if p.y0 + height < 256 then p.y0 + height else p.y0 + height - 256;
      SameSum(256, y, g);
      PositiveMultiple(256 - y, g);
    }
  }

  /** If it is past the display, some page would have to start there, and the loop ends before. */
  lemma LoopEnds(height: u8, total: u8) returns (n: nat)
    requires total <= 256 - Gcd(height, 256)
    ensures PageAt(height, total, n).None?
  {
    hide Gcd, Same, PageAt;
    var g := Gcd(height, 256);
    GcdDivides(height, 256);
    PositiveMultiple(256, g);
    SameIs(g, 0, g, 1);
    SameSum(256, g, g);
    var k := StepsReach(height, 256, 256 - g);
    n := k + 256;
    SameIs(n * height, k * height, 256, height);
    SameTrans(n * height, k * height, 256 - g, 256);
    if PageAt(height, total, n).Some? {
      StartRow(height, total, n);
      var y := PageAt(height, total, n).value.y0;
      SameIs(y, y, 256, 0);
      SameTrans(n * height, y, y, 256);
      SameTrans(y, n * height, 256 - g, 256);
      SameUnique(y, 256 - g, 256);
    }
  }

  /** Exactly when the page loop ends: some row that is a multiple of gcd(height, 256) lies past the display. */
  lemma EndsIff(height: u8, total: u8)
    ensures (exists n: nat :: PageAt(height, total, n).None?) <==> total <= 256 - Gcd(height, 256)
  {
    hide Gcd, Same, PageAt;
    if total <= 256 - Gcd(height, 256) {
      var n := LoopEnds(height, total);
    } else {
      forall n: nat ensures PageAt(height, total, n).Some? {
        NeverEnds(height, total, n);
      }
    }
  }
}
