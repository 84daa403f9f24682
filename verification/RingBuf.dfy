/** esp/src/mqtt/ringbuf.c: a circular buffer with a read and a write pointer and a count. */
module RingBuf {
  import opened Bytes

  /** n bytes of a circular store from position r on. */
  ghost function View(store: seq<byte>, r: nat, n: nat): (s: seq<byte>)
    requires r < |store| && n <= |store|
    ensures |s| == n
  {
    if r + n <= |store| then store[r..r + n] else store[r..] + store[..r + n - |store|]
  }

  ghost function Wrap(p: nat, size: nat): nat
    requires p < 2 * size
  {
    if p < size then p else p - size
  }

  lemma ViewAt(store: seq<byte>, r: nat, n: nat, i: nat)
    requires r < |store| && n <= |store| && i < n
    ensures View(store, r, n)[i] == store[Wrap(r + i, |store|)]
  {
  }

  lemma ViewPush(store: seq<byte>, r: nat, n: nat, c: byte)
    requires r < |store| && n < |store|
    ensures View(store[Wrap(r + n, |store|) := c], r, n + 1) == View(store, r, n) + [c]
  {
    var store' := store[Wrap(r + n, |store|) := c];
    forall i | 0 <= i < n + 1
      ensures View(store', r, n + 1)[i] == (View(store, r, n) + [c])[i]
    {
      ViewAt(store', r, n + 1, i);
      if i < n {
        ViewAt(store, r, n, i);
      }
    }
  }

  lemma ViewPop(store: seq<byte>, r: nat, n: nat)
    requires r < |store| && 0 < n <= |store|
    ensures View(store, r, n) == [store[r]] + View(store, Wrap(r + 1, |store|), n - 1)
  {
    var rest := View(store, Wrap(r + 1, |store|), n - 1);
    forall i | 0 <= i < n
      ensures View(store, r, n)[i] == ([store[r]] + rest)[i]
    {
      ViewAt(store, r, n, i);
      if i > 0 {
        ViewAt(store, Wrap(r + 1, |store|), n - 1, i - 1);
      }
    }
  }

  class Ring {
    var buf: array<byte>
    var readPos: nat
    var writePos: nat
    var fillCnt: nat

    ghost predicate Valid()
      reads this
    {
      && buf.Length >= 2 && readPos < buf.Length && writePos < buf.Length && fillCnt <= buf.Length
      && writePos == Wrap(readPos + fillCnt, buf.Length)
    }

    /** The bytes waiting, oldest first. */
    ghost function Contents(): (s: seq<byte>)
      reads this, buf
      requires Valid()
      ensures |s| == fillCnt
    {
      View(buf[..], readPos, fillCnt)
    }

    constructor ()
    {
      buf := new byte[0];
      readPos, writePos, fillCnt := 0, 0, 0;
    }

    method Init(storage: array<byte>) returns (rc: int)
      modifies this
      ensures rc == if storage.Length < 2 then -1 else 0
      ensures rc == 0 ==> Valid() && buf == storage && Contents() == []
    {
      if storage.Length < 2 {
        return -1;
      }
      buf := storage;
      readPos, writePos, fillCnt := 0, 0, 0;
      return 0;
    }

    method Put(c: byte) returns (rc: int)
      requires Valid()
      modifies this`fillCnt, this`writePos, buf
      ensures Valid()
      ensures |old(Contents())| == buf.Length ==> rc == -1 && Contents() == old(Contents())
      ensures |old(Contents())| < buf.Length ==> rc == 0 && Contents() == old(Contents()) + [c]
    {
      if fillCnt >= buf.Length {
        return -1;
      }
      hide View;
      ViewPush(buf[..], readPos, fillCnt, c);
      fillCnt := fillCnt + 1;
      buf[writePos] := c;
      writePos := writePos + 1;
      if writePos >= buf.Length {
        writePos := 0;
      }
      return 0;
    }

    method Get() returns (rc: int, c: byte)
      requires Valid()
      modifies this`fillCnt, this`readPos
      ensures Valid()
      ensures old(Contents()) == [] ==> rc == -1 && Contents() == []
      ensures old(Contents()) != [] ==> rc == 0 && [c] + Contents() == old(Contents())
    {
      if fillCnt <= 0 {
        return -1, 0;
      }
      hide View;
      ViewPop(buf[..], readPos, fillCnt);
      fillCnt := fillCnt - 1;
      c := buf[readPos];
      readPos := readPos + 1;
      if readPos >= buf.Length {
        readPos := 0;
      }
      return 0, c;
    }
  }
}
