/**
 * u8g_font.c: finding a glyph in a packed font. The jump offsets of 'A' and 'a' must not change
 * what is found, and the size walk must end behind the last record.
 */
module Font {
  import opened Options
  import opened Screen

  // ----- fonts and their bytes -----

  /** What u8g keeps of a glyph. */
  datatype Metrics = Metrics(dx: s8, x: s8, y: s8, width: u8, height: u8)

  const NO_METRICS := Metrics(0, 0, 0, 0, 0)

  datatype Glyph = Missing | Glyph(metrics: Metrics, data: seq<u8>)

  const HEADER := 17

  // ----- the header -----

  function GetByte(font: seq<u8>, offset: nat): (b: int)
    requires offset < |font|
    ensures 0 <= b < 256
  {
    font[offset]
  }

  function GetWord(font: seq<u8>, offset: nat): (w: int)
    requires offset + 1 < |font|
    ensures 0 <= w < 0x1_0000
  {
    GetByte(font, offset) * 256 + GetByte(font, offset + 1)
  }

  function Format(font: seq<u8>): u8
    requires |font| >= HEADER
  {
    GetByte(font, 0)
  }

  function Start(font: seq<u8>): (b: int)
    requires |font| >= HEADER
    ensures 0 <= b < 256
  {
    GetByte(font, 10)
  }

  function End(font: seq<u8>): (b: int)
    requires |font| >= HEADER
    ensures 0 <= b < 256
  {
    GetByte(font, 11)
  }

  /** The length of the fixed part of a record. */
  function StructSize(format: u8): nat {
    if format == 0 then 6 else if format == 1 then 3 else if format == 2 then 6 else 3
  }

  predicate Packed(format: u8) {
    format != 0 && format != 2
  }

  /** The data length in byte 2 of a record: four bits in format 1, else the whole byte. */
  function DataSize(format: u8, b: u8): nat {
    if format == 1 then b % 16 else b
  }

  /** The fixed part of a record as the font tools write it. */
  function Head(format: u8, m: Metrics, size: u8): seq<u8>
    requires InRange(format, m, size)
  {
    if Packed(format) then
      [m.x * 16 + m.y + 2, m.width * 16 + m.height, m.dx * 16 + size]
    else
      [m.width, m.height, size, ToU8(m.dx), ToU8(m.x), ToU8(m.y)]
  }

  /** A format holds a glyph if each number has the bits for it, and byte 0 is not the mark of a missing glyph. */
  predicate InRange(format: u8, m: Metrics, size: int) {
    if Packed(format) then
      && 0 <= m.x < 16 && 0 <= m.y + 2 < 16 && m.width < 16 && m.height < 16 && 0 <= m.dx < 16
      && 0 <= size < 16 && !(m.x == 15 && m.y == 13)
      && (format != 1 ==> m.dx == 0)
    else
      m.width < 255 && 0 <= size < 256
  }

  predicate Proper(format: u8, g: Glyph) {
    g.Glyph? ==> InRange(format, g.metrics, |g.data|)
  }

  function Record(format: u8, g: Glyph): (r: seq<u8>)
    ensures |r| > 0
  {
    if g.Glyph? && Proper(format, g) then Head(format, g.metrics, |g.data|) + g.data else [255]
  }

  predicate AllProper(format: u8, glyphs: seq<Glyph>) {
    forall k :: 0 <= k < |glyphs| ==> Proper(format, glyphs[k])
  }

  function Records(format: u8, glyphs: seq<Glyph>): seq<u8> {
    if glyphs == [] then [] else Records(format, glyphs[..|glyphs| - 1]) + Record(format, glyphs[|glyphs| - 1])
  }

  /** Where the record of an encoding begins. */
  function Position(format: u8, glyphs: seq<Glyph>, k: int): nat
    requires 0 <= k <= |glyphs|
  {
    HEADER + |Records(format, glyphs[..k])|
  }

  /** A jump offset is 0, or leads to the record of its letter, which the font then has. */
  predicate GoodJump(font: seq<u8>, glyphs: seq<Glyph>, offset: nat, letter: u8)
    requires |font| >= HEADER && offset < 16
    requires |glyphs| == End(font) - Start(font) + 1
  {
    GetWord(font, offset) > 0 ==>
      Start(font) <= letter <= End(font) && GetWord(font, offset) == Position(Format(font), glyphs, letter - Start(font))
  }

  /** A font file: a header, then one record for each encoding from start to end. */
  predicate IsFont(font: seq<u8>, glyphs: seq<Glyph>) {
    && |font| >= HEADER
    && Start(font) <= End(font) && |glyphs| == End(font) - Start(font) + 1
    && AllProper(Format(font), glyphs)
    && font == font[..HEADER] + Records(Format(font), glyphs)
    && GoodJump(font, glyphs, 6, 65)
    && GoodJump(font, glyphs, 8, 97)
  }

  // ----- records -----

  lemma FontShape(font: seq<u8>, glyphs: seq<Glyph>)
    requires IsFont(font, glyphs)
    ensures |font| >= HEADER
    ensures Start(font) <= End(font) && |glyphs| == End(font) - Start(font) + 1
    ensures font == font[..HEADER] + Records(Format(font), glyphs)
  {
  }

  lemma ProperGlyph(font: seq<u8>, glyphs: seq<Glyph>, k: nat)
    requires IsFont(font, glyphs)
    requires k < |glyphs|
    ensures Proper(Format(font), glyphs[k])
    ensures glyphs[k].Glyph? ==> |glyphs[k].data| < 256
  {
  }

  lemma {:induction false} RecordsSplit(format: u8, glyphs: seq<Glyph>, k: nat)
    requires k <= |glyphs|
    ensures Records(format, glyphs[..k]) <= Records(format, glyphs)
    decreases |glyphs|
  {
    if k == |glyphs| {
      assert glyphs[..k] == glyphs;
    } else {
      var most := glyphs[..|glyphs| - 1];
      RecordsSplit(format, most, k);
      assert most[..k] == glyphs[..k];
    }
  }

  /** Record k stands between the positions of k and k + 1. */
  lemma RecordAt(font: seq<u8>, glyphs: seq<Glyph>, k: nat)
    requires IsFont(font, glyphs)
    requires k < |glyphs|
    ensures Position(Format(font), glyphs, k + 1) == Position(Format(font), glyphs, k) + |Record(Format(font), glyphs[k])| <= |font|
    ensures font[Position(Format(font), glyphs, k)..Position(Format(font), glyphs, k + 1)] == Record(Format(font), glyphs[k])
  {
    hide IsFont, AllProper, GoodJump, Records, Record, Position, Format, Start, End;
    FontShape(font, glyphs);
    var format := Format(font);
    var all := Records(format, glyphs);
    var before := Records(format, glyphs[..k]);
    var record := Record(format, glyphs[k]);
    OneMore(format, glyphs, k);
    RecordsSplit(format, glyphs, k + 1);
    PositionIs(format, glyphs, k);
    PositionIs(format, glyphs, k + 1);
    Middle(font, font[..HEADER], before, record, all[|before| + |record|..]);
  }

  lemma PositionIs(format: u8, glyphs: seq<Glyph>, k: nat)
    requires k <= |glyphs|
    ensures Position(format, glyphs, k) == HEADER + |Records(format, glyphs[..k])|
  {
  }

  lemma OneMore(format: u8, glyphs: seq<Glyph>, k: nat)
    requires k < |glyphs|
    ensures Records(format, glyphs[..k + 1]) == Records(format, glyphs[..k]) + Record(format, glyphs[k])
  {
    assert glyphs[..k + 1][..k] == glyphs[..k];
  }

  lemma Middle<T>(whole: seq<T>, head: seq<T>, before: seq<T>, middle: seq<T>, rest: seq<T>)
    requires whole == head + (before + middle + rest)
    ensures var p := |head| + |before|; p + |middle| <= |whole| && whole[p..p + |middle|] == middle
  {
    var p := |head| + |before|;
    assert forall j :: 0 <= j < |middle| ==> whole[p + j] == middle[j];
  }

  /** What the walk reads at a record: the mark of a missing glyph, or the record's length. */
  lemma StepOver(font: seq<u8>, glyphs: seq<Glyph>, k: nat)
    requires IsFont(font, glyphs)
    requires k < |glyphs|
    ensures var p := Position(Format(font), glyphs, k);
            && p < |font|
            && (font[p] == 255 <==> glyphs[k].Missing?)
            && (if glyphs[k].Missing? then
                  Position(Format(font), glyphs, k + 1) == p + 1
                else
                  && p + StructSize(Format(font)) + |glyphs[k].data| == Position(Format(font), glyphs, k + 1) <= |font|
                  && DataSize(Format(font), font[p + 2]) == |glyphs[k].data|
                  && font[p..p + StructSize(Format(font))] == Head(Format(font), glyphs[k].metrics, |glyphs[k].data|)
                  && font[p + StructSize(Format(font))..Position(Format(font), glyphs, k + 1)] == glyphs[k].data)
  {
    hide *;
    FontShape(font, glyphs);
    ProperGlyph(font, glyphs, k);
    RecordAt(font, glyphs, k);
    var p := Position(Format(font), glyphs, k);
    var next := Position(Format(font), glyphs, k + 1);
    RecordParts(font, p, next, Format(font), glyphs[k]);
  }

  lemma RecordParts(font: seq<u8>, p: nat, next: nat, format: u8, g: Glyph)
    requires Proper(format, g)
    requires p <= next <= |font| && font[p..next] == Record(format, g)
    ensures p < next
    ensures font[p] == 255 <==> g.Missing?
    ensures g.Missing? ==> next == p + 1
    ensures g.Glyph? ==>
              && p + StructSize(format) + |g.data| == next
              && DataSize(format, font[p + 2]) == |g.data|
              && font[p..p + StructSize(format)] == Head(format, g.metrics, |g.data|)
              && font[p + StructSize(format)..next] == g.data
  {
    var record := font[p..next];
    assert record[0] == font[p];
    if g.Glyph? {
      UnpackHead(format, g.metrics, |g.data|);
      hide Head, InRange, Unpack;
      assert record[2] == font[p + 2];
      assert record[..StructSize(format)] == font[p..p + StructSize(format)];
      assert record[StructSize(format)..] == font[p + StructSize(format)..next];
    }
  }

  // ----- the glyph cache -----

  /** u8g_CopyGlyphDataToCache: unpacking the fixed part of a record. */
  function Unpack(format: u8, h: seq<u8>): Metrics
    requires |h| == StructSize(format)
  {
    if Packed(format) then
      Metrics(h[2] / 16, h[0] / 16, GetByte(h, 0) % 16 - 2, h[1] / 16, h[1] % 16)
    else
      Metrics(ToS8(h[3]), ToS8(h[4]), ToS8(h[5]), h[0], h[1])
  }

  lemma SignRoundTrip(i: s8)
    ensures ToS8(ToU8(i)) == i
  {
    CutU8(i);
    hide ToU8;
    CutS8(if i < 0 then i + 256 else i);
  }

  /** Unpacking gives back what was packed, in every format. */
  lemma UnpackHead(format: u8, m: Metrics, size: u8)
    requires InRange(format, m, size)
    ensures |Head(format, m, size)| == StructSize(format)
    ensures Unpack(format, Head(format, m, size)) == m
    ensures DataSize(format, Head(format, m, size)[2]) == size
    ensures Head(format, m, size)[0] != 255
  {
    SignRoundTrip(m.dx);
    SignRoundTrip(m.x);
    SignRoundTrip(m.y);
    hide ToU8, ToS8;
  }

  /** A signed byte. */
  function Signed(b: int): int {
    if b < 128 then b else b - 256
  }

  lemma SignedBytes(i: s8)
    ensures Signed(ToU8(i)) == i
  {
  }

  /** The header byte by byte: format, first and last encoding, and where 'A' and 'a' are, high byte first. */
  lemma HeaderInBytes(font: seq<u8>, glyphs: seq<Glyph>)
    requires IsFont(font, glyphs)
    ensures |font| >= 17 && Format(font) == font[0] && |glyphs| == (font[11] as int) - font[10] + 1 > 0
    ensures (font[6] != 0 || font[7] != 0) ==>
              font[10] <= 65 <= font[11] && Position(font[0], glyphs, 65 - font[10]) == (font[6] as int) * 256 + font[7]
    ensures (font[8] != 0 || font[9] != 0) ==>
              font[10] <= 97 <= font[11] && Position(font[0], glyphs, 97 - font[10]) == (font[8] as int) * 256 + font[9]
    ensures Position(font[0], glyphs, 0) == 17
  {
    hide Records;
    assert glyphs[..0] == [];
    EmptyRecords(font[0]);
  }

  lemma EmptyRecords(format: u8)
    ensures Records(format, []) == []
  {
  }

  /** A record byte by byte: six bytes in formats 0 and 2, in the others two numbers a byte; then the data. */
  lemma RecordInBytes(font: seq<u8>, glyphs: seq<Glyph>, k: nat)
    requires IsFont(font, glyphs) && k < |glyphs| && glyphs[k].Glyph?
    ensures var p, g := Position(Format(font), glyphs, k), glyphs[k];
            if Format(font) == 0 || Format(font) == 2 then
              && p + 6 + |g.data| <= |font| && font[p + 6..p + 6 + |g.data|] == g.data
              && font[p] == g.metrics.width && font[p + 1] == g.metrics.height && font[p + 2] == |g.data|
              && Signed(font[p + 3]) == g.metrics.dx && Signed(font[p + 4]) == g.metrics.x && Signed(font[p + 5]) == g.metrics.y
            else
              && p + 3 + |g.data| <= |font| && font[p + 3..p + 3 + |g.data|] == g.data
              && font[p] / 16 == g.metrics.x && font[p] % 16 == g.metrics.y + 2
              && font[p + 1] / 16 == g.metrics.width && font[p + 1] % 16 == g.metrics.height
              && font[p + 2] / 16 == g.metrics.dx && font[p + 2] % 16 == |g.data|
  {
    hide IsFont, Position, Head, InRange, Records, Format, Unpack, DataSize;
    FontShape(font, glyphs);
    ProperGlyph(font, glyphs, k);
    StepOver(font, glyphs, k);
    var p, g, format := Position(Format(font), glyphs, k), glyphs[k], Format(font);
    var h := font[p..p + StructSize(format)];
    assert forall i :: 0 <= i < StructSize(format) ==> h[i] == font[p + i];
    HeadInBytes(format, g.metrics, |g.data|);
  }

  lemma HeadInBytes(format: u8, m: Metrics, size: u8)
    requires InRange(format, m, size)
    ensures var h := Head(format, m, size);
            if format == 0 || format == 2 then
              && |h| == 6 && h[0] == m.width && h[1] == m.height && h[2] == size
              && Signed(h[3]) == m.dx && Signed(h[4]) == m.x && Signed(h[5]) == m.y
            else
              && |h| == 3 && h[0] / 16 == m.x && h[0] % 16 == m.y + 2
              && h[1] / 16 == m.width && h[1] % 16 == m.height && h[2] / 16 == m.dx && h[2] % 16 == size
  {
    SignedBytes(m.dx);
    SignedBytes(m.x);
    SignedBytes(m.y);
    hide ToU8, Signed;
  }

  // ----- a font has one reading -----

  lemma GlyphBytes(font: seq<u8>, glyphs: seq<Glyph>, k: nat)
    requires IsFont(font, glyphs)
    requires k < |glyphs|
    ensures var p := Position(Format(font), glyphs, k);
            p < |font| && glyphs[k] ==
              if font[p] == 255 || p + 2 >= |font| || p + StructSize(Format(font)) + DataSize(Format(font), font[p + 2]) > |font| then
                Missing
              else
                var data := p + StructSize(Format(font));
                Glyph(Unpack(Format(font), font[p..data]), font[data..data + DataSize(Format(font), font[p + 2])])
  {
    hide IsFont, Position, Unpack, Head, InRange, Records, Format, DataSize;
    FontShape(font, glyphs);
    ProperGlyph(font, glyphs, k);
    StepOver(font, glyphs, k);
    if glyphs[k].Glyph? {
      UnpackHead(Format(font), glyphs[k].metrics, |glyphs[k].data|);
    }
  }

  /** The bytes decide the glyphs: no two lists of glyphs are the same font. */
  lemma {:induction false} OneReading(font: seq<u8>, g: seq<Glyph>, h: seq<Glyph>, k: nat)
    requires IsFont(font, g) && IsFont(font, h)
    requires k <= |g|
    ensures |g| == |h|
    ensures Position(Format(font), g, k) == Position(Format(font), h, k)
    ensures g[..k] == h[..k]
  {
    hide IsFont, Position, Unpack, Head, InRange, Records, Format, DataSize;
    FontShape(font, g);
    FontShape(font, h);
    if k == 0 {
      PositionEnds(font, g);
      PositionEnds(font, h);
    } else {
      OneReading(font, g, h, k - 1);
      GlyphBytes(font, g, k - 1);
      GlyphBytes(font, h, k - 1);
      StepOver(font, g, k - 1);
      StepOver(font, h, k - 1);
      assert g[..k] == g[..k - 1] + [g[k - 1]] && h[..k] == h[..k - 1] + [h[k - 1]];
    }
  }

  // ----- searching -----

  /** Searching every record from the first: the position of the glyph, if the font has it. */
  function Lookup(font: seq<u8>, glyphs: seq<Glyph>, encoding: u8): Option<int>
    requires |font| >= HEADER && |glyphs| == End(font) - Start(font) + 1
  {
    if Start(font) <= encoding <= End(font) && glyphs[encoding - Start(font)].Glyph? then
      Some(Position(Format(font), glyphs, encoding - Start(font)))
    else
      None
  }

  class U8g {
    const font: seq<u8>
    var cache: Metrics

    constructor (font: seq<u8>)
      ensures this.font == font && cache == NO_METRICS
    {
      this.font := font;
      cache := NO_METRICS;
    }

    method GetGlyph(requested: u8, ghost glyphs: seq<Glyph>) returns (glyph: Option<int>)
      requires IsFont(font, glyphs)
      modifies this`cache
      ensures glyph == Lookup(font, glyphs, requested)
      ensures cache == if glyph.Some? then glyphs[requested - Start(font)].metrics else NO_METRICS
    {
      hide IsFont, Walking, Onward, Lookup, AllProper, GoodJump, Records, Record, Position, Head, Proper, InRange, Unpack, Format, Start, End, GetWord, GetByte, DataSize, StructSize;
      FontShape(font, glyphs);
      var p: nat := 0;
      var format, size := Format(font), StructSize(Format(font));
      var start, end := Start(font), End(font);
      var pos := GetWord(font, 8);
      if requested >= 97 && pos > 0 {
        p := p + pos;
        start := 97;
      } else {
        pos := GetWord(font, 6);
        if requested >= 65 && pos > 0 {
          p := p + pos;
          start := 65;
        } else {
          p := p + HEADER;
        }
      }
      WhereToBegin(font, glyphs, requested, start, p);
      if requested > end {
        cache := NO_METRICS;
        return None;
      }
      var i := start;
      if i <= end {
        var more := true;
        while more
          invariant if more then Walking(font, glyphs, requested, i, p) else Lookup(font, glyphs, requested).None?
          decreases end - i, more
        {
          Visit(font, glyphs, requested, i, p);
          if font[p] == 255 {
            p := p + 1;
          } else {
            if i == requested {
              cache := Unpack(format, font[p..p + size]);
              return Some(p);
            }
            p := p + DataSize(format, font[p + 2]);
            p := p + size;
          }
          FromOnward(font, glyphs, requested, i, p);
          if i == end {
            more := false;
          } else {
            i := i + 1;
          }
        }
      }
      cache := NO_METRICS;
      return None;
    }
  }

  /**
   * The walk stands at the record of encoding i, and nothing was overlooked: the glyph asked for
   * is not before it, or the font does not have it.
   */
  predicate Walking(font: seq<u8>, glyphs: seq<Glyph>, requested: u8, i: int, p: int)
    requires |font| >= HEADER && |glyphs| == End(font) - Start(font) + 1
  {
    && Start(font) <= i <= End(font)
    && p == Position(Format(font), glyphs, i - Start(font))
    && (i <= requested || Lookup(font, glyphs, requested).None?)
  }

  /** Each of the three starting points is the record of its encoding, and skips nothing that is asked for. */
  lemma WhereToBegin(font: seq<u8>, glyphs: seq<Glyph>, requested: u8, start: int, p: nat)
    requires IsFont(font, glyphs)
    requires
      || (start == 97 <= requested && p == GetWord(font, 8) > 0)
      || (start == 65 <= requested && p == GetWord(font, 6) > 0)
      || (start == Start(font) && p == HEADER)
    ensures Start(font) <= start <= End(font)
    ensures Walking(font, glyphs, requested, start, p)
    ensures requested > End(font) ==> Lookup(font, glyphs, requested).None?
  {
    assert glyphs[..0] == [];
  }

  /** One round of the walk: a missing glyph, the glyph asked for, or another one. */
  lemma Visit(font: seq<u8>, glyphs: seq<Glyph>, requested: u8, i: int, p: int)
    requires IsFont(font, glyphs)
    requires requested <= End(font)
    requires Walking(font, glyphs, requested, i, p)
    ensures Start(font) <= i <= End(font) && 0 <= p < |font|
    ensures font[p] == 255 ==> Onward(font, glyphs, requested, i, p + 1)
    ensures font[p] != 255 ==> p + StructSize(Format(font)) <= |font| && StructSize(Format(font)) > 2
    ensures font[p] != 255 && i == requested ==>
              && Lookup(font, glyphs, requested) == Some(p)
              && Unpack(Format(font), font[p..p + StructSize(Format(font))]) == glyphs[i - Start(font)].metrics
    ensures font[p] != 255 && i != requested ==>
              Onward(font, glyphs, requested, i, p + DataSize(Format(font), font[p + 2]) + StructSize(Format(font)))
  {
    hide IsFont, Walking, Onward, Lookup, Position, Unpack, Head, InRange, Records, Format, Start, End;
    FontShape(font, glyphs);
    Pass(font, glyphs, requested, i, p);
    StepOver(font, glyphs, i - Start(font));
  }

  lemma Pass(font: seq<u8>, glyphs: seq<Glyph>, requested: u8, i: int, p: int)
    requires IsFont(font, glyphs)
    requires requested <= End(font)
    requires Walking(font, glyphs, requested, i, p)
    ensures Start(font) <= i <= End(font) && p == Position(Format(font), glyphs, i - Start(font))
    ensures var g := glyphs[i - Start(font)];
            if g.Glyph? && i == requested then
              && Lookup(font, glyphs, requested) == Some(p)
              && InRange(Format(font), g.metrics, |g.data|)
              && Unpack(Format(font), Head(Format(font), g.metrics, |g.data|)) == g.metrics
            else
              Onward(font, glyphs, requested, i, Position(Format(font), glyphs, i + 1 - Start(font)))
  {
    hide Unpack, Head, Position, Records, IsFont, InRange, Format, Start, End;
    FontShape(font, glyphs);
    var g := glyphs[i - Start(font)];
    ProperGlyph(font, glyphs, i - Start(font));
    if g.Glyph? {
      UnpackHead(Format(font), g.metrics, |g.data|);
    }
  }

  predicate Onward(font: seq<u8>, glyphs: seq<Glyph>, requested: u8, i: int, next: int)
    requires |font| >= HEADER && |glyphs| == End(font) - Start(font) + 1
  {
    if i == End(font) then Lookup(font, glyphs, requested).None? else Walking(font, glyphs, requested, i + 1, next)
  }

  lemma FromOnward(font: seq<u8>, glyphs: seq<Glyph>, requested: u8, i: int, p: int)
    requires |font| >= HEADER && |glyphs| == End(font) - Start(font) + 1
    requires Onward(font, glyphs, requested, i, p)
    ensures i == End(font) ==> Lookup(font, glyphs, requested).None?
    ensures i != End(font) ==> Walking(font, glyphs, requested, i + 1, p) && i < End(font)
  {
    hide Lookup, Position;
  }

  lemma PositionEnds(font: seq<u8>, glyphs: seq<Glyph>)
    requires IsFont(font, glyphs)
    ensures Position(Format(font), glyphs, 0) == HEADER
    ensures Position(Format(font), glyphs, |glyphs|) == |font|
  {
    assert glyphs[..0] == [] && glyphs[..|glyphs|] == glyphs;
  }

  /** u8g_font_GetSize: the walk over all records ends at the end of the font. */
  method GetSize(font: seq<u8>, ghost glyphs: seq<Glyph>) returns (size: nat)
    requires IsFont(font, glyphs)
    ensures size == |font|
  {
    hide IsFont, Position, Records, Format, Start, End;
    FontShape(font, glyphs);
    PositionEnds(font, glyphs);
    var start, end := Start(font), End(font);
    var p := HEADER;
    var i := start;
    var more := true;
    while more
      invariant start <= i <= end
      invariant p == if more then Position(Format(font), glyphs, i - start) else Position(Format(font), glyphs, |glyphs|)
      decreases end - i, more
    {
      StepOver(font, glyphs, i - start);
      if font[p] == 255 {
        p := p + 1;
      } else {
        p := p + DataSize(Format(font), font[p + 2]);
        p := p + StructSize(Format(font));
      }
      if i == end {
        more := false;
      } else {
        i := i + 1;
      }
    }
    return p;
  }
}
