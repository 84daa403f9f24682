/**
 * What a receiver on an I2C bus makes of the levels of SDA and SCL (UM10204, section 3.1):
 * conditions, data bits, and the bytes with their acknowledge bits.
 */
module I2cBus {
  import opened Options

  datatype Level = Level(sda: bool, scl: bool)

  datatype Event = Start | Stop | Bit(value: bool)

  /** The events so far, and whether SCL is high with the data stable since it rose. */
  datatype Heard = Heard(events: seq<Event>, sampling: bool)

  /** A change of SDA with SCL high is a condition; a high period of SCL without one is a data bit. */
  function Hear(h: Heard, was: Level, now: Level): Heard {
    if was.scl && now.scl then
      if was.sda == now.sda then h else Heard(h.events + [if now.sda then Stop else Start], false)
    else if now.scl then
      Heard(h.events, true)
    else if was.scl then
      Heard(if h.sampling then h.events + [Bit(was.sda)] else h.events, false)
    else
      h
  }

  function Listen(trace: seq<Level>): Heard {
    if |trace| <= 1 then Heard([], false) else Hear(Listen(trace[..|trace| - 1]), trace[|trace| - 2], trace[|trace| - 1])
  }

  lemma ListenNext(trace: seq<Level>, now: Level)
    requires trace != []
    ensures Listen(trace + [now]) == Hear(Listen(trace), trace[|trace| - 1], now)
  {
    assert (trace + [now])[..|trace|] == trace;
  }

  /** What single moves of the lines are heard as: SDA falling or rising under a high SCL, or one clock. */
  lemma ShortWaveforms(bit: bool)
    ensures Listen([Level(true, true), Level(false, true)]).events == [Start]
    ensures Listen([Level(false, true), Level(true, true)]).events == [Stop]
    ensures Listen([Level(bit, false), Level(bit, true), Level(bit, false)]).events == [Bit(bit)]
  {
    ListenNext([Level(true, true)], Level(false, true));
    ListenNext([Level(false, true)], Level(true, true));
    ListenNext([Level(bit, false)], Level(bit, true));
    ListenNext([Level(bit, false), Level(bit, true)], Level(bit, false));
    assert [Level(true, true)] + [Level(false, true)] == [Level(true, true), Level(false, true)];
    assert [Level(false, true)] + [Level(true, true)] == [Level(false, true), Level(true, true)];
    assert [Level(bit, false)] + [Level(bit, true)] == [Level(bit, false), Level(bit, true)];
    assert [Level(bit, false), Level(bit, true)] + [Level(bit, false)] == [Level(bit, false), Level(bit, true), Level(bit, false)];
  }

  /** No step changes both lines. */
  predicate OneAtATime(trace: seq<Level>) {
    forall i :: 0 < i < |trace| ==> trace[i - 1].sda == trace[i].sda || trace[i - 1].scl == trace[i].scl
  }

  // ----- SDA and SCL -----

  /** The steps in which SDA changes while SCL is high. */
  function HighChanges(trace: seq<Level>): nat {
    if |trace| <= 1 then
      0
    else
      var was, now := trace[|trace| - 2], trace[|trace| - 1];
      HighChanges(trace[..|trace| - 1]) + if was.scl && now.scl && was.sda != now.sda then 1 else 0
  }

  function Conditions(events: seq<Event>): nat {
    if events == [] then 0 else Conditions(events[..|events| - 1]) + if events[|events| - 1].Bit? then 0 else 1
  }

  lemma ConditionsNext(events: seq<Event>, e: Event)
    ensures Conditions(events + [e]) == Conditions(events) + if e.Bit? then 0 else 1
  {
    assert (events + [e])[..|events|] == events;
  }

  /** SDA moves under a high SCL once for each condition heard, and never else. */
  lemma {:induction false} ChangesAreConditions(trace: seq<Level>)
    ensures HighChanges(trace) == Conditions(Listen(trace).events)
    decreases |trace|
  {
    if |trace| > 1 {
      var before := trace[..|trace| - 1];
      ChangesAreConditions(before);
      var h := Listen(before);
      ConditionsNext(h.events, Start);
      ConditionsNext(h.events, Stop);
      ConditionsNext(h.events, Bit(trace[|trace| - 2].sda));
    }
  }

  lemma {:induction false} ConditionsOfBits(head: seq<Event>, bits: seq<Event>)
    requires forall i :: 0 <= i < |bits| ==> bits[i].Bit?
    ensures Conditions(head + bits) == Conditions(head)
    decreases |bits|
  {
    if bits == [] {
      assert head + bits == head;
    } else {
      var most := bits[..|bits| - 1];
      ConditionsOfBits(head, most);
      ConditionsNext(head + most, bits[|bits| - 1]);
      assert head + bits == head + most + [bits[|bits| - 1]];
    }
  }

  // ----- bytes -----

  /** Bit i of a byte, the least significant being 0. */
  predicate BitOf(b: bv8, i: nat)
    requires i < 8
  {
    (b >> i) & 1 != 0
  }

  /** Bits 7 to i of a byte, in this order. */
  function HighBits(b: bv8, i: nat): (bits: seq<Event>)
    requires i <= 8
    ensures |bits| == 8 - i
    ensures forall k :: 0 <= k < |bits| ==> bits[k].Bit?
    decreases 8 - i
  {
    if i == 8 then [] else HighBits(b, i + 1) + [Bit(BitOf(b, i))]
  }

  /** A byte and the level of SDA in its acknowledge clock: low is an acknowledgement. */
  datatype Word = Word(value: bv8, nack: bool)

  function WordBits(w: Word): (bits: seq<Event>)
    ensures |bits| == 9
    ensures forall k :: 0 <= k < |bits| ==> bits[k].Bit?
  {
    HighBits(w.value, 0) + [Bit(w.nack)]
  }

  function AllBits(words: seq<Word>): (bits: seq<Event>)
    ensures |bits| == 9 * |words|
    ensures forall k :: 0 <= k < |bits| ==> bits[k].Bit?
  {
    if words == [] then [] else AllBits(words[..|words| - 1]) + WordBits(words[|words| - 1])
  }

  lemma AllBitsNext(words: seq<Word>, w: Word)
    ensures AllBits(words + [w]) == AllBits(words) + WordBits(w)
  {
    assert (words + [w])[..|words|] == words;
  }

  lemma {:induction false} AllBitsConcat(a: seq<Word>, b: seq<Word>)
    ensures AllBits(a + b) == AllBits(a) + AllBits(b)
    decreases |b|
  {
    hide WordBits;
    if b == [] {
      assert a + b == a;
    } else {
      var most, w := b[..|b| - 1], b[|b| - 1];
      AllBitsConcat(a, most);
      AllBitsNext(a + most, w);
      assert a + b == a + most + [w];
    }
  }

  function One(on: bool): bv8 {
    if on then 1 else 0
  }

  function Digit(e: Event): bv8 {
    One(e == Bit(true))
  }

  /** The byte of eight bits, the most significant first. */
  function Value(bits: seq<Event>): bv8
    requires |bits| == 8
  {
    (Digit(bits[0]) << 7) | (Digit(bits[1]) << 6) | (Digit(bits[2]) << 5) | (Digit(bits[3]) << 4)
    | (Digit(bits[4]) << 3) | (Digit(bits[5]) << 2) | (Digit(bits[6]) << 1) | Digit(bits[7])
  }

  /** Reading the words back, nine bits each. */
  function Words(bits: seq<Event>): seq<Word> {
    if |bits| < 9 then
      []
    else
      var n := |bits| - 9;
      Words(bits[..n]) + [Word(Value(bits[n..n + 8]), bits[n + 8] == Bit(true))]
  }

  /** One whole message: a START, words of nine bits, a STOP. */
  function Message(events: seq<Event>): Option<seq<Word>> {
    var n := |events|;
    if n >= 2 && events[0] == Start && events[n - 1] == Stop && (n - 2) % 9 == 0 && forall k :: 0 < k < n - 1 ==> events[k].Bit? then
      Some(Words(events[1..n - 1]))
    else
      None
  }

  lemma EightBits(b: bv8)
    ensures HighBits(b, 0) == [Bit(BitOf(b, 7)), Bit(BitOf(b, 6)), Bit(BitOf(b, 5)), Bit(BitOf(b, 4)),
                               Bit(BitOf(b, 3)), Bit(BitOf(b, 2)), Bit(BitOf(b, 1)), Bit(BitOf(b, 0))]
  {
    hide BitOf, HighBits;
    NoHighBits(b);
    HighBitsNext(b, 7);
    HighBitsNext(b, 6);
    HighBitsNext(b, 5);
    HighBitsNext(b, 4);
    HighBitsNext(b, 3);
    HighBitsNext(b, 2);
    HighBitsNext(b, 1);
    HighBitsNext(b, 0);
  }

  /** The most significant bit goes first. */
  lemma MostSignificantFirst(b: bv8)
    ensures HighBits(b, 0) == [Bit(b & 0x80 != 0), Bit(b & 0x40 != 0), Bit(b & 0x20 != 0), Bit(b & 0x10 != 0),
                               Bit(b & 0x08 != 0), Bit(b & 0x04 != 0), Bit(b & 0x02 != 0), Bit(b & 0x01 != 0)]
  {
    hide BitOf, HighBits;
    EightBits(b);
    BitsByMask(b);
  }

  lemma BitsByMask(b: bv8)
    ensures (BitOf(b, 7) <==> b & 0x80 != 0) && (BitOf(b, 6) <==> b & 0x40 != 0)
    ensures (BitOf(b, 5) <==> b & 0x20 != 0) && (BitOf(b, 4) <==> b & 0x10 != 0)
    ensures (BitOf(b, 3) <==> b & 0x08 != 0) && (BitOf(b, 2) <==> b & 0x04 != 0)
    ensures (BitOf(b, 1) <==> b & 0x02 != 0) && (BitOf(b, 0) <==> b & 0x01 != 0)
  {
  }

  lemma NoHighBits(b: bv8)
    ensures HighBits(b, 8) == []
  {
  }

  lemma HighBitsNext(b: bv8, i: nat)
    requires i < 8
    ensures HighBits(b, i) == HighBits(b, i + 1) + [Bit(BitOf(b, i))]
  {
    hide BitOf;
  }

  lemma BitsMakeByte(b: bv8)
    ensures (One(BitOf(b, 7)) << 7) | (One(BitOf(b, 6)) << 6) | (One(BitOf(b, 5)) << 5) | (One(BitOf(b, 4)) << 4)
         | (One(BitOf(b, 3)) << 3) | (One(BitOf(b, 2)) << 2) | (One(BitOf(b, 1)) << 1) | One(BitOf(b, 0)) == b
  {
  }

  lemma ValueOfBits(b: bv8)
    ensures Value(HighBits(b, 0)) == b
  {
    hide BitOf, HighBits;
    EightBits(b);
    BitsMakeByte(b);
  }

  lemma {:induction false} WordsOfBits(words: seq<Word>)
    ensures Words(AllBits(words)) == words
    decreases |words|
  {
    hide Value, HighBits, BitOf;
    if words != [] {
      var most, w := words[..|words| - 1], words[|words| - 1];
      WordsOfBits(most);
      LastWord(AllBits(most), w);
      assert words == most + [w];
    }
  }

  lemma LastWord(bits: seq<Event>, w: Word)
    ensures Words(bits + WordBits(w)) == Words(bits) + [w]
  {
    hide Value, HighBits, BitOf;
    ValueOfBits(w.value);
    var all := bits + WordBits(w);
    assert all[..|bits|] == bits;
    assert all[|bits|..|bits| + 8] == HighBits(w.value, 0);
  }

  /** A message says what was put into it. */
  lemma MessageOfWords(words: seq<Word>)
    ensures Message([Start] + AllBits(words) + [Stop]) == Some(words)
  {
    hide AllBits, Words;
    var bits := AllBits(words);
    var events := [Start] + bits + [Stop];
    assert events[1..|events| - 1] == bits;
    assert forall k :: 0 < k < |events| - 1 ==> events[k] == bits[k - 1];
    WordsOfBits(words);
  }
}
