/**
 * The bit-banged I2C master (i2c_master.c) and the display's way to use it (u8g_com_null.c),
 * with every level it puts on the two lines.
 */
module I2cMaster {
  import opened I2cBus
  import opened Options

  class Master {
    var lastSda: bool
    var lastScl: bool

    /** The two lines, as they were after each call of setDC. */
    var trace: seq<Level>
    /** The other end: the level it leaves SDA at in the k-th acknowledge clock, low to acknowledge. */
    const slave: nat -> bool
    /** The acknowledge clocks so far, and whether SDA is being held low in one. */
    var clocks: nat
    var held: bool

    ghost predicate Valid()
      reads this
    {
      && trace != []
      && OneAtATime(trace)
      && lastScl == Wire().scl
      && (!held ==> lastSda == Wire().sda)
      && (held ==> lastSda && !Wire().sda && !lastScl)
    }

    function Wire(): Level
      requires trace != []
      reads this
    {
      trace[|trace| - 1]
    }

    ghost function Heard(): Heard
      reads this
    {
      Listen(trace)
    }

    /** Both lines released and no condition pending. */
    ghost predicate Idle()
      requires trace != []
      reads this
    {
      Wire() == Level(true, true) && !held
    }

    /** Between a START and a STOP, where the next thing is a byte, an acknowledge clock or a STOP. */
    ghost predicate Busy()
      requires trace != []
      reads this
    {
      Wire().scl ==> !Heard().sampling
    }

    /** A bus found idle. */
    constructor (slave: nat -> bool)
      ensures Valid() && Idle() && trace == [Level(true, true)] && clocks == 0
      ensures this.slave == slave
    {
      lastSda, lastScl := true, true;
      trace := [Level(true, true)];
      this.slave := slave;
      clocks := 0;
      held := false;
    }

    /** The lines after a call: SDA stays low while the other end holds it. */
    method SetDC(sda: bool, scl: bool)
      requires trace != []
      modifies this
      ensures lastSda == sda && lastScl == scl
      ensures trace == old(trace) + [Level(sda && !old(held), scl)]
      ensures Heard() == Hear(old(Heard()), old(Wire()), Wire())
      ensures clocks == old(clocks) && held == old(held)
    {
      ListenNext(trace, Level(sda && !held, scl));
      lastSda := sda;
      lastScl := scl;
      trace := trace + [Level(sda && !held, scl)];
    }

    method Start()
      requires Valid() && Idle()
      modifies this
      ensures Valid() && Busy() && !held && clocks == old(clocks)
      ensures Heard().events == old(Heard()).events + [I2cBus.Start]
    {
      SetDC(true, lastScl);
      SetDC(true, true);
      SetDC(false, true);
    }

    method Stop()
      requires Valid() && !lastScl
      modifies this
      ensures Valid() && Idle() && clocks == old(clocks)
      ensures Heard().events == old(Heard()).events + [I2cBus.Stop]
    {
      held := false;
      SetDC(false, lastScl);
      SetDC(false, true);
      SetDC(true, true);
    }

    method WriteByte(data: bv8)
      requires Valid() && Busy()
      modifies this
      ensures Valid() && !lastScl && !held && clocks == old(clocks)
      ensures Heard().events == old(Heard()).events + HighBits(data, 0)
    {
      hide BitOf, HighBits, Listen;
      NoHighBits(data);
      held := false;
      SetDC(lastSda, false);
      var i := 7;
      while i >= 0
        invariant -1 <= i <= 7
        invariant Valid() && !lastScl && !held && clocks == old(clocks)
        invariant Heard().events == old(Heard()).events + HighBits(data, i + 1)
        decreases i
      {
        var dat := BitOf(data, i);
        HighBitsNext(data, i);
        SetDC(dat, false);
        SetDC(dat, true);
        SetDC(dat, false);
        i := i - 1;
      }
    }

    method GetAck() returns (level: bool)
      requires Valid() && !lastScl && !held
      modifies this
      ensures Valid() && Busy() && !lastScl
      ensures level == slave(old(clocks)) && clocks == old(clocks) + 1
      ensures Heard().events == old(Heard()).events + [Bit(level)]
    {
      hide Listen;
      SetDC(lastSda, false);
      held := !slave(clocks);
      SetDC(true, false);
      SetDC(true, true);
      level := Wire().sda;
      SetDC(true, false);
      clocks := clocks + 1;
    }
  }

  // ----- the display's transfers -----

  /** The words of a byte sequence that is given up after the first byte not acknowledged. */
  function Sent(data: seq<bv8>, slave: nat -> bool, k: nat): (words: seq<Word>)
    ensures |words| <= |data|
    ensures forall i :: 0 <= i < |words| ==> words[i] == Word(data[i], slave(k + i))
  {
    if data == [] then
      []
    else if slave(k) then
      [Word(data[0], true)]
    else
      [Word(data[0], false)] + Sent(data[1..], slave, k + 1)
  }

  ghost predicate AllAcknowledged(slave: nat -> bool, k: nat, n: nat) {
    forall c: nat :: k <= c < k + n ==> !slave(c)
  }

  /** Everything is sent if and only if no byte before the last was refused. */
  lemma {:induction false} SentAllIff(data: seq<bv8>, slave: nat -> bool, k: nat)
    requires data != []
    ensures |Sent(data, slave, k)| == |data| <==> AllAcknowledged(slave, k, |data| - 1)
    decreases |data|
  {
    if |data| > 1 {
      SentAllIff(data[1..], slave, k + 1);
    }
  }

  /** One more byte after bytes that were all acknowledged. */
  lemma SentSnoc(p: seq<bv8>, x: bv8, slave: nat -> bool, k: nat)
    requires AllAcknowledged(slave, k, |p|)
    ensures Sent(p + [x], slave, k) == Sent(p, slave, k) + [Word(x, slave(k + |p|))]
  {
    hide Sent;
    SentAllIff(p + [x], slave, k);
    if p == [] {
      NothingSent(p, slave, k);
      assert p[..0] == p;
    } else {
      SentAllIff(p, slave, k);
    }
    var a, b := Sent(p + [x], slave, k), Sent(p, slave, k) + [Word(x, slave(k + |p|))];
    assert |a| == |b|;
    forall i | 0 <= i < |a|
      ensures a[i] == b[i]
    {
      assert a[i] == Word((p + [x])[i], slave(k + i));
    }
  }

  /** Nothing is sent behind a byte that was refused. */
  lemma {:induction false} SentStops(p: seq<bv8>, x: bv8, rest: seq<bv8>, slave: nat -> bool, k: nat)
    requires slave(k + |p|)
    ensures Sent(p + [x] + rest, slave, k) == Sent(p + [x], slave, k)
    decreases |p|
  {
    if p != [] {
      SentStops(p[1..], x, rest, slave, k + 1);
      assert (p + [x] + rest)[1..] == p[1..] + [x] + rest && (p + [x])[1..] == p[1..] + [x];
    }
  }

  lemma SentMore(data: seq<bv8>, slave: nat -> bool, k: nat, i: nat)
    requires i < |data|
    requires AllAcknowledged(slave, k, i)
    ensures Sent(data[..i + 1], slave, k) == Sent(data[..i], slave, k) + [Word(data[i], slave(k + i))]
    ensures slave(k + i) ==> Sent(data, slave, k) == Sent(data[..i + 1], slave, k)
  {
    hide Sent, AllAcknowledged;
    assert data[..i + 1] == data[..i] + [data[i]] && data == data[..i] + [data[i]] + data[i + 1..];
    SentSnoc(data[..i], data[i], slave, k);
    if slave(k + i) {
      SentStops(data[..i], data[i], data[i + 1..], slave, k);
    }
  }

  /** u8g_com_null_fn with its control byte. */
  class Com {
    const bus: Master
    var control: bv8

    constructor (bus: Master)
      ensures this.bus == bus && control == 0
    {
      this.bus := bus;
      control := 0;
    }

    /** U8G_COM_MSG_ADDRESS: commands or display data. */
    method SetAddress(data: bool)
      modifies this
      ensures control == if data then 0x40 else 0
    {
      if !data {
        control := 0;
      } else {
        control := 0x40;
      }
    }

    method StartWrite(address: bv8) returns (failed: bool)
      requires bus.Valid() && bus.Idle()
      modifies bus
      ensures bus.Valid() && bus.Busy() && !bus.lastScl && bus.clocks == old(bus.clocks) + 1
      ensures failed == bus.slave(old(bus.clocks))
      ensures bus.Heard().events == old(bus.Heard()).events + [I2cBus.Start] + WordBits(Word(address, failed))
    {
      hide HighBits, Listen;
      bus.Start();
      bus.WriteByte(address);
      failed := bus.GetAck();
    }

    method WriteBytes(data: seq<bv8>) returns (failed: bool)
      requires |data| < 256
      requires bus.Valid() && bus.Busy() && !bus.lastScl
      modifies bus
      ensures bus.Valid() && bus.Busy() && !bus.lastScl
      ensures failed <==> !AllAcknowledged(bus.slave, old(bus.clocks), |data|)
      ensures bus.clocks == old(bus.clocks) + |Sent(data, bus.slave, old(bus.clocks))|
      ensures bus.Heard().events == old(bus.Heard()).events + AllBits(Sent(data, bus.slave, old(bus.clocks)))
    {
      hide HighBits, Listen, Sent, AllBits;
      ghost var k := bus.clocks;
      NothingSent(data, bus.slave, k);
      var i := 0;
      while i < |data|
        invariant 0 <= i <= |data|
        invariant bus.Valid() && bus.Busy() && !bus.lastScl && bus.clocks == k + i
        invariant AllAcknowledged(bus.slave, k, i)
        invariant |Sent(data[..i], bus.slave, k)| == i
        invariant bus.Heard().events == old(bus.Heard()).events + AllBits(Sent(data[..i], bus.slave, k))
      {
        SentMore(data, bus.slave, k, i);
        AllBitsNext(Sent(data[..i], bus.slave, k), Word(data[i], bus.slave(k + i)));
        bus.WriteByte(data[i]);
        var nack := bus.GetAck();
        if nack {
          return true;
        }
        i := i + 1;
      }
      assert data[..|data|] == data;
      return false;
    }

    /** U8G_COM_MSG_WRITE_SEQ; U8G_COM_MSG_WRITE_BYTE is the same with one byte. */
    method WriteSeq(data: seq<bv8>)
      requires |data| < 256
      requires bus.Valid() && bus.Idle()
      modifies bus
      ensures bus.Valid() && bus.Idle()
      ensures bus.Heard().events == old(bus.Heard()).events + Transfer(control, data, bus.slave, old(bus.clocks))
      ensures HighChanges(bus.trace) == old(HighChanges(bus.trace)) + 2
    {
      hide Listen, Sent, AllBits, WordBits, HighChanges, Conditions;
      ChangesAreConditions(bus.trace);
      TwoConditions(control, data, bus.slave, bus.clocks, bus.Heard().events);
      ghost var k := bus.clocks;
      var ignored := StartWrite(0x78);
      ignored := WriteBytes([control]);
      ignored := WriteBytes(data);
      bus.Stop();
      TransferParts(control, data, bus.slave, k);
      ChangesAreConditions(bus.trace);
    }
  }

  /** The words of one transfer: address, control byte, data; a refusal of the first two is not heeded. */
  function TransferWords(control: bv8, data: seq<bv8>, slave: nat -> bool, k: nat): seq<Word> {
    [Word(0x78, slave(k)), Word(control, slave(k + 1))] + Sent(data, slave, k + 2)
  }

  function Transfer(control: bv8, data: seq<bv8>, slave: nat -> bool, k: nat): seq<Event> {
    [I2cBus.Start] + AllBits(TransferWords(control, data, slave, k)) + [I2cBus.Stop]
  }

  lemma NothingSent(data: seq<bv8>, slave: nat -> bool, k: nat)
    ensures data[..0] == [] && Sent(data[..0], slave, k) == [] && AllBits([]) == []
  {
  }

  lemma TransferParts(control: bv8, data: seq<bv8>, slave: nat -> bool, k: nat)
    ensures |Sent([control], slave, k + 1)| == 1
    ensures Transfer(control, data, slave, k) ==
      [I2cBus.Start] + WordBits(Word(0x78, slave(k))) + AllBits(Sent([control], slave, k + 1)) + AllBits(Sent(data, slave, k + 2)) + [I2cBus.Stop]
  {
    hide WordBits;
    var a, c := Word(0x78, slave(k)), Word(control, slave(k + 1));
    assert Sent([control], slave, k + 1) == [c];
    AllBitsNext([], a);
    AllBitsConcat([a] + [c], Sent(data, slave, k + 2));
    AllBitsConcat([a], [c]);
    assert [a, c] == [a] + [c];
    assert [a] == [] + [a];
  }

  /** What the display reads from one transfer; with every byte acknowledged it is exactly what was written. */
  lemma TransferIsHeard(control: bv8, data: seq<bv8>, slave: nat -> bool, k: nat)
    ensures Message(Transfer(control, data, slave, k)) == Some(TransferWords(control, data, slave, k))
    ensures var words := TransferWords(control, data, slave, k);
            |words| >= 2 && words[0] == Word(0x78, slave(k)) && words[1] == Word(control, slave(k + 1))
    ensures AllAcknowledged(slave, k, |data| + 2) ==>
              |TransferWords(control, data, slave, k)| == |data| + 2
              && forall i :: 0 <= i < |data| ==> TransferWords(control, data, slave, k)[i + 2] == Word(data[i], false)
  {
    MessageOfWords(TransferWords(control, data, slave, k));
    hide Sent, Message, AllBits;
    if AllAcknowledged(slave, k, |data| + 2) {
      if data != [] {
        SentAllIff(data, slave, k + 2);
      }
    }
  }

  /** In a transfer SDA changes under a high SCL twice: at the START and at the STOP. */
  lemma TwoConditions(control: bv8, data: seq<bv8>, slave: nat -> bool, k: nat, heard: seq<Event>)
    ensures Conditions(heard + Transfer(control, data, slave, k)) == Conditions(heard) + 2
  {
    hide AllBits, Conditions, TransferWords;
    var bits := AllBits(TransferWords(control, data, slave, k));
    ConditionsNext(heard, I2cBus.Start);
    ConditionsOfBits(heard + [I2cBus.Start], bits);
    ConditionsNext(heard + [I2cBus.Start] + bits, I2cBus.Stop);
    assert heard + Transfer(control, data, slave, k) == heard + [I2cBus.Start] + bits + [I2cBus.Stop];
  }
}
