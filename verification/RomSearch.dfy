/**
 * The 1-Wire ROM search of esp/src/driver/ds1820.c and one_wire.c on a wired-AND bus.
 * Between calls it remembers the last ROM code, one position and one flag.
 */
module RomSearch {
  import opened RomOrder
  import opened RomBytes

  const SEARCH_ROM: bv8 := 0xF0

  // ----- what a call does, without the bus -----

  /** What survives from one call to the next. */
  datatype Memory = Memory(rom: Rom, lastDiscrepancy: nat, lastDevice: bool)

  ghost predicate Fresh(m: Memory) {
    m.lastDiscrepancy == 0 && !m.lastDevice
  }

  ghost function Matching(S: set<Rom>, p: seq<bool>): set<Rom>
    requires |p| <= ROM_BITS
  {
    set d | d in S && d[..|p|] == p
  }

  /** Of the devices starting with p, one sends 0 next and another sends 1. */
  ghost predicate Forks(S: set<Rom>, p: seq<bool>)
    requires |p| < ROM_BITS
  {
    (exists d :: d in Matching(S, p) && !d[|p|]) && (exists d :: d in Matching(S, p) && d[|p|])
  }

  /**
   * The path p obeys the search rule: at every fork it repeats the old choice before the
   * last discrepancy, takes 1 exactly there, and 0 after it.
   */
  ghost predicate Follows(S: set<Rom>, m: Memory, p: seq<bool>)
    requires |p| <= ROM_BITS
  {
    forall k: nat :: k < |p| && Forks(S, p[..k]) ==>
      p[k] == (if k + 1 < m.lastDiscrepancy then m.rom[k] else k + 1 == m.lastDiscrepancy)
  }

  /** The greatest 1-based position where p takes 0 at a fork; 0 if there is none. */
  ghost function LastZeroFork(S: set<Rom>, p: seq<bool>): (z: nat)
    requires |p| <= ROM_BITS
    ensures z <= |p|
    ensures z > 0 ==> Forks(S, p[..z - 1]) && !p[z - 1]
    ensures forall k: nat :: z <= k < |p| && Forks(S, p[..k]) ==> p[k]
  {
    if p == [] then 0
    else
      var n := |p| - 1;
      assert forall k: nat :: k <= n ==> p[..n][..k] == p[..k];
      if Forks(S, p[..n]) && !p[n] then |p| else LastZeroFork(S, p[..n])
  }

  /** The first byte sent is zero; the search takes that for a failure. */
  ghost predicate ZeroFamily(t: Rom) {
    forall k :: 0 <= k < 8 ==> !t[k]
  }

  /** One call on a bus with devices S: from m it reports `found` and leaves m'. */
  ghost predicate Call(S: set<Rom>, m: Memory, found: bool, m': Memory) {
    if m.lastDevice || S == {} then
      !found && Fresh(m') && m'.rom == m.rom
    else
      && m'.rom in S && Follows(S, m, m'.rom)
      && if ZeroFamily(m'.rom) then
           !found && Fresh(m')
         else
           && found
           && m'.lastDiscrepancy == LastZeroFork(S, m'.rom)
           && m'.lastDevice == (m'.lastDiscrepancy == 0)
  }

  /** What two reads tell about the devices still listening. */
  lemma ReadsTellForks(S: set<Rom>, p: seq<bool>, idBit: bool, cmpIdBit: bool)
    requires |p| < ROM_BITS && Matching(S, p) != {}
    requires idBit <==> forall d :: d in Matching(S, p) ==> d[|p|]
    requires cmpIdBit <==> forall d :: d in Matching(S, p) ==> !d[|p|]
    ensures !(idBit && cmpIdBit)
    ensures Forks(S, p) <==> idBit == cmpIdBit
  {
    var d :| d in Matching(S, p);
  }

  /** One bit written: who stays, and that the rule and the zero position carry over. */
  lemma StepKeeps(S: set<Rom>, m: Memory, p: seq<bool>, v: bool)
    requires |p| < ROM_BITS && Follows(S, m, p)
    requires Forks(S, p) ==> v == (if |p| + 1 < m.lastDiscrepancy then m.rom[|p|] else |p| + 1 == m.lastDiscrepancy)
    ensures Matching(S, p + [v]) == set d | d in Matching(S, p) && d[|p|] == v
    ensures Follows(S, m, p + [v])
    ensures LastZeroFork(S, p + [v]) == if Forks(S, p) && !v then |p| + 1 else LastZeroFork(S, p)
  {
    var q := p + [v];
    assert q[..|p|] == p;
    forall d | d in S
      ensures d[..|q|] == q <==> d[..|p|] == p && d[|p|] == v
    {
      assert d[..|q|] == d[..|p|] + [d[|p|]];
    }
    forall k: nat | k < |q| && Forks(S, q[..k])
      ensures q[k] == (if k + 1 < m.lastDiscrepancy then m.rom[k] else k + 1 == m.lastDiscrepancy)
    {
      if k < |p| {
        assert q[..k] == p[..k];
      }
    }
  }

  /** The walk has gone down p: these devices still listen and the buffer holds p. */
  ghost predicate Walking(S: set<Rom>, m: Memory, p: seq<bool>, listening: set<Rom>, rom: Rom, lastZero: nat) {
    && |p| <= ROM_BITS
    && listening == Matching(S, p) != {}
    && rom == p + m.rom[|p|..]
    && Follows(S, m, p)
    && lastZero == LastZeroFork(S, p)
  }

  lemma WalkStart(S: set<Rom>, m: Memory)
    requires S != {}
    ensures Walking(S, m, [], S, m.rom, 0)
  {
    assert Matching(S, []) == S;
  }

  lemma SomeoneAnswers(S: set<Rom>, m: Memory, p: seq<bool>, listening: set<Rom>, rom: Rom, lastZero: nat,
                       idBit: bool, cmpIdBit: bool)
    requires Walking(S, m, p, listening, rom, lastZero) && |p| < ROM_BITS
    requires idBit <==> forall d :: d in listening ==> d[|p|]
    requires cmpIdBit <==> forall d :: d in listening ==> !d[|p|]
    ensures !(idBit && cmpIdBit)
  {
    var d :| d in listening;
  }

  lemma WalkStep(S: set<Rom>, m: Memory, p: seq<bool>, listening: set<Rom>, rom: Rom, lastZero: nat,
                 idBit: bool, cmpIdBit: bool, v: bool)
    requires Walking(S, m, p, listening, rom, lastZero) && |p| < ROM_BITS
    requires idBit <==> forall d :: d in listening ==> d[|p|]
    requires cmpIdBit <==> forall d :: d in listening ==> !d[|p|]
    requires v == if idBit != cmpIdBit then idBit
                  else if |p| + 1 < m.lastDiscrepancy then rom[|p|] else |p| + 1 == m.lastDiscrepancy
    ensures Walking(S, m, p + [v], (set d | d in listening && d[|p|] == v), rom[|p| := v],
                    if idBit == cmpIdBit && !v then |p| + 1 else lastZero)
  {
    ReadsTellForks(S, p, idBit, cmpIdBit);
    StepKeeps(S, m, p, v);
    Overwrite(p, m.rom, v);
    SomeoneStays(listening, |p|, v, idBit, cmpIdBit);
  }

  lemma SomeoneStays(listening: set<Rom>, n: nat, v: bool, idBit: bool, cmpIdBit: bool)
    requires listening != {} && n < ROM_BITS
    requires idBit <==> forall d :: d in listening ==> d[n]
    requires cmpIdBit <==> forall d :: d in listening ==> !d[n]
    requires idBit != cmpIdBit ==> v == idBit
    ensures (set d | d in listening && d[n] == v) != {}
  {
    var e :| e in listening;
    var d :| d in listening && d[n] == v;
    var left := set d | d in listening && d[n] == v;
    assert d in left;
  }

  lemma Overwrite(p: seq<bool>, rom: Rom, v: bool)
    requires |p| < ROM_BITS
    ensures (p + rom[|p|..])[|p| := v] == (p + [v]) + rom[|p + [v]|..]
  {
  }

  lemma WalkEnd(S: set<Rom>, m: Memory, p: seq<bool>, listening: set<Rom>, rom: Rom, lastZero: nat)
    requires Walking(S, m, p, listening, rom, lastZero) && |p| == ROM_BITS
    ensures rom in S && Follows(S, m, rom) && lastZero == LastZeroFork(S, rom)
  {
    var d :| d in listening;
    assert d == d[..|p|] == p == rom;
  }

  lemma FirstByte(bytes: seq<bv8>)
    requires |bytes| == 8
    ensures bytes[0] == 0 <==> ZeroFamily(Bits(bytes))
  {
    ZeroByte(bytes[0]);
    assert forall k :: 0 <= k < 8 ==> Bits(bytes)[k] == BitOf(bytes[0], k);
  }

  // ----- what a sequence of calls does -----

  /** LastZeroFork is the place where the codes above t leave t. */
  lemma {:induction false} ForksAreAbove(S: set<Rom>, t: Rom, k: nat)
    requires t in S && k < ROM_BITS && !t[k]
    ensures Forks(S, t[..k]) <==> exists d :: d in S && SplitsAt(t, d, k)
  {
    assert t in Matching(S, t[..k]);
    if d :| d in S && SplitsAt(t, d, k) {
      assert d in Matching(S, t[..k]) && d[|t[..k]|];
    }
    if Forks(S, t[..k]) {
      var d :| d in Matching(S, t[..k]) && d[|t[..k]|];
      assert SplitsAt(t, d, k);
    }
  }

  /** The recorded position is zero exactly when the found code is the greatest of all. */
  lemma NoForkIffGreatest(S: set<Rom>, t: Rom)
    requires t in S
    ensures LastZeroFork(S, t) == 0 <==> Above(S, t) == {}
  {
    var z := LastZeroFork(S, t);
    if z > 0 {
      ForksAreAbove(S, t, z - 1);
      var d :| d in S && SplitsAt(t, d, z - 1);
      assert d in Above(S, t);
    }
    if z == 0 {
      forall d | d in S
        ensures !Less(t, d)
      {
        forall k: nat
          ensures !SplitsAt(t, d, k)
        {
          NoSplitAfter(S, t, d, k);
        }
      }
    }
  }

  /**
   * What a successful call leaves behind: the last place where some device agrees with the found
   * code before it and is above it there, or 0; and the flag, set exactly when no device is above.
   */
  lemma DiscrepancyMeaning(S: set<Rom>, m: Memory, m': Memory)
    requires Call(S, m, true, m')
    ensures m'.rom in S && m'.lastDiscrepancy <= ROM_BITS
    ensures m'.lastDiscrepancy > 0 ==> exists d :: d in S && SplitsAt(m'.rom, d, m'.lastDiscrepancy - 1)
    ensures forall d, k: nat :: d in S && SplitsAt(m'.rom, d, k) ==> k < m'.lastDiscrepancy
    ensures m'.lastDevice <==> Above(S, m'.rom) == {}
  {
    var t, z := m'.rom, m'.lastDiscrepancy;
    NoForkIffGreatest(S, t);
    if z > 0 {
      ForksAreAbove(S, t, z - 1);
    }
    forall d, k: nat | d in S && SplitsAt(t, d, k)
      ensures k < z
    {
      if z <= k {
        NoSplitAfter(S, t, d, k);
      }
    }
  }

  /** Before the last discrepancy the old choices are repeated, as far as some device allows. */
  lemma {:induction false} SharesPrefix(S: set<Rom>, m: Memory, t: Rom, w: Rom, n: nat)
    requires w in S && n < m.lastDiscrepancy <= ROM_BITS && w[..n] == m.rom[..n]
    requires t in S && Follows(S, m, t)
    ensures t[..n] == m.rom[..n]
  {
    if n > 0 {
      PrefixOfPrefix(w, m.rom, n - 1, n);
      BitOfPrefix(w, m.rom, n - 1, n);
      SharesPrefix(S, m, t, w, n - 1);
      var p := t[..n - 1];
      assert t in Matching(S, p) && w in Matching(S, p);
      assert t[..n] == p + [t[n - 1]];
      assert m.rom[..n] == p + [m.rom[n - 1]];
    }
  }

  /** A code below the found one parts from it no later than the last discrepancy. */
  lemma PartsEarly(S: set<Rom>, m: Memory, t: Rom, d: Rom, k: nat)
    requires t in S && Follows(S, m, t) && d in S && SplitsAt(d, t, k)
    ensures k < m.lastDiscrepancy
  {
    assert d in Matching(S, t[..k]) && t in Matching(S, t[..k]);
  }

  /** A search from a fresh memory settles on the least code. */
  lemma FirstIsLeast(S: set<Rom>, m: Memory, t: Rom)
    requires t in S && Follows(S, m, t) && m.lastDiscrepancy == 0
    ensures IsLeast(S, t)
  {
    forall d | d in S && d != t
      ensures Less(t, d)
    {
      Trichotomy(t, d);
      if k: nat :| SplitsAt(d, t, k) {
        PartsEarly(S, m, t, d, k);
      }
    }
  }

  /** A search from r, with the position its own search left behind, settles on the next code. */
  lemma NextIsSuccessor(S: set<Rom>, m: Memory, t: Rom)
    requires m.rom in S && m.lastDiscrepancy == LastZeroFork(S, m.rom) > 0
    requires t in S && Follows(S, m, t)
    ensures IsLeast(Above(S, m.rom), t)
  {
    var r, z := m.rom, m.lastDiscrepancy - 1;
    SharesPrefix(S, m, t, r, z);
    assert SplitsAt(r, t, z);
    forall d | d in Above(S, r) && d != t
      ensures Less(t, d)
    {
      Trichotomy(t, d);
      if k: nat :| SplitsAt(d, t, k) {
        PartsEarly(S, m, t, d, k);
        if k < z {
          PrefixOfPrefix(r, t, k, z);
          BitOfPrefix(r, t, k, z);
          assert SplitsAt(d, r, k);
          Asymmetric(r, d);
        } else {
          NothingBetween(S, r, d, z);
        }
      }
    }
  }

  /** No code agrees with r through its last zero fork and is above it. */
  lemma NothingBetween(S: set<Rom>, r: Rom, d: Rom, z: nat)
    requires r in S && d in S && z + 1 == LastZeroFork(S, r)
    requires d[..z] == r[..z] && d[z] == r[z]
    ensures !Less(r, d)
  {
    if j: nat :| SplitsAt(r, d, j) {
      if j < z {
        BitOfPrefix(r, d, j, z);
      } else if j > z {
        NoSplitAfter(S, r, d, j);
      }
    }
  }

  lemma NoSplitAfter(S: set<Rom>, r: Rom, d: Rom, j: nat)
    requires r in S && d in S && LastZeroFork(S, r) <= j
    ensures !SplitsAt(r, d, j)
  {
    if SplitsAt(r, d, j) {
      ForksAreAbove(S, r, j);
    }
  }

  /** Consecutive calls: ms[i] is the memory before call i, ms[i + 1] the memory after it. */
  ghost predicate Run(S: set<Rom>, ms: seq<Memory>, founds: seq<bool>) {
    |ms| == |founds| + 1 && forall i :: 0 <= i < |founds| ==> Call(S, ms[i], founds[i], ms[i + 1])
  }

  /** The codes left in ROM_NO by the first n calls. */
  ghost function Codes(ms: seq<Memory>, n: nat): seq<Rom>
    requires n < |ms|
  {
    seq(n, i requires 0 <= i < n => ms[i + 1].rom)
  }

  /** The calls from here on have exactly R left to find. */
  ghost predicate Remaining(S: set<Rom>, m: Memory, R: set<Rom>) {
    || (Fresh(m) && R == S)
    || (&& m.rom in S && R == Above(S, m.rom)
        && m.lastDiscrepancy == LastZeroFork(S, m.rom) && m.lastDevice == (m.lastDiscrepancy == 0))
  }

  lemma CallTakesLeast(S: set<Rom>, R: set<Rom>, m: Memory, found: bool, m': Memory)
    requires Remaining(S, m, R) && Call(S, m, found, m')
    requires forall d :: d in S ==> !ZeroFamily(d)
    ensures R == {} ==> !found && Fresh(m')
    ensures R != {} ==> found && IsLeast(R, m'.rom) && Remaining(S, m', R - {m'.rom})
  {
    if m.rom in S {
      NoForkIffGreatest(S, m.rom);
    }
    if R != {} {
      if Fresh(m) {
        FirstIsLeast(S, m, m'.rom);
      } else {
        NextIsSuccessor(S, m, m'.rom);
        forall d, e | d in R && e in S && Less(d, e)
          ensures e in R
        {
          Transitive(m.rom, d, e);
        }
      }
      AboveLeast(S, R, m'.rom);
    }
  }

  lemma {:induction false} Drains(S: set<Rom>, R: set<Rom>, ms: seq<Memory>, founds: seq<bool>)
    requires Run(S, ms, founds) && |founds| == |R| + 1 && Remaining(S, ms[0], R)
    requires forall d :: d in S ==> !ZeroFamily(d)
    ensures forall i :: 0 <= i < |R| ==> founds[i]
    ensures Ascending(R, Codes(ms, |R|))
    ensures !founds[|R|] && Fresh(ms[|R| + 1])
    decreases |R|
  {
    hide *;
    RunTail(S, ms, founds);
    CallTakesLeast(S, R, ms[0], founds[0], ms[1]);
    if R == {} {
      NothingAscends(ms);
    } else {
      var t := ms[1].rom;
      Drains(S, R - {t}, ms[1..], founds[1..]);
      AscendingCons(R, t, Codes(ms[1..], |R| - 1));
      CodesCons(ms, |R|);
    }
  }

  lemma RunTail(S: set<Rom>, ms: seq<Memory>, founds: seq<bool>)
    requires Run(S, ms, founds) && |founds| > 0
    ensures |ms| == |founds| + 1 && Call(S, ms[0], founds[0], ms[1]) && Run(S, ms[1..], founds[1..])
  {
  }

  lemma CodesCons(ms: seq<Memory>, n: nat)
    requires 0 < n < |ms|
    ensures Codes(ms, n) == [ms[1].rom] + Codes(ms[1..], n - 1)
  {
  }

  lemma NothingAscends(ms: seq<Memory>)
    requires ms != []
    ensures Ascending({}, Codes(ms, 0))
  {
  }

  /**
   * After a reset, the first |S| calls report every device once, in the order of the bits
   * sent, and the next call reports the end and leaves the search reset.
   */
  lemma EnumeratesAll(S: set<Rom>, ms: seq<Memory>, founds: seq<bool>)
    requires Run(S, ms, founds) && |founds| == |S| + 1 && Fresh(ms[0])
    requires forall d :: d in S ==> !ZeroFamily(d)
    ensures forall i :: 0 <= i < |S| ==> founds[i]
    ensures Ascending(S, Codes(ms, |S|))
    ensures !founds[|S|] && Fresh(ms[|S| + 1])
  {
    Drains(S, S, ms, founds);
  }

  /** One device with a zero family byte hides the whole bus: every call fails. */
  lemma {:induction false} ZeroFamilyHidesAll(S: set<Rom>, z: Rom, ms: seq<Memory>, founds: seq<bool>, n: nat)
    requires Run(S, ms, founds) && Fresh(ms[0]) && n <= |founds|
    requires z in S && ZeroFamily(z)
    ensures Fresh(ms[n])
    ensures forall i :: 0 <= i < n ==> !founds[i]
  {
    if n > 0 {
      ZeroFamilyHidesAll(S, z, ms, founds, n - 1);
      var t := ms[n].rom;
      assert Call(S, ms[n - 1], founds[n - 1], ms[n]);
      FirstIsLeast(S, ms[n - 1], t);
      if t != z {
        var k: nat :| SplitsAt(t, z, k);
        forall i | 0 <= i < 8
          ensures !t[i]
        {
          assert k >= 8;
          BitOfPrefix(t, z, i, k);
        }
      }
    }
  }

  /** The enumeration is complete exactly when no device has a zero family byte. */
  lemma CompleteIffNoZeroFamily(S: set<Rom>, ms: seq<Memory>, founds: seq<bool>)
    requires Run(S, ms, founds) && |founds| == |S| + 1 && Fresh(ms[0])
    ensures (forall i :: 0 <= i < |S| ==> founds[i]) && Ascending(S, Codes(ms, |S|))
            <==> forall d :: d in S ==> !ZeroFamily(d)
  {
    if d :| d in S && ZeroFamily(d) {
      ZeroFamilyHidesAll(S, d, ms, founds, 1);
      assert !founds[0];
    } else {
      EnumeratesAll(S, ms, founds);
    }
  }

  // ----- a targeted search (one_wire.c) -----

  ghost function Family(S: set<Rom>, code: Rom): set<Rom> {
    set d | d in S && d[..8] == code[..8]
  }

  /** The memory a targeted search starts from: a family byte, then zeros. */
  ghost predicate Targeted(m: Memory) {
    m.lastDiscrepancy == ROM_BITS && !m.lastDevice && forall k :: 8 <= k < ROM_BITS ==> !m.rom[k]
  }

  /** Where the found code parts from any other device, it has the bit asked for; at the last bit, 1. */
  lemma TargetChoice(S: set<Rom>, m: Memory, t: Rom, d: Rom, k: nat)
    requires Targeted(m) && t in S && Follows(S, m, t)
    requires d in S && k < ROM_BITS && d[..k] == t[..k] && d[k] != t[k]
    ensures t[k] == (k == 63 || m.rom[k])
  {
    assert d in Matching(S, t[..k]) && t in Matching(S, t[..k]);
    assert Forks(S, t[..k]);
  }

  /** A family on the bus: the found code is its least member, up to the last bit. */
  lemma TargetNearLeast(S: set<Rom>, m: Memory, t: Rom, w: Rom)
    requires Targeted(m) && t in S && Follows(S, m, t) && IsLeast(Family(S, m.rom), w)
    ensures t[..63] == w[..63] && t in Family(S, m.rom)
  {
    if t != w {
      var k := FirstDifference(t, w, 0);
      TargetChoice(S, m, t, w, k);
      if k < 8 {
        BitOfPrefix(w, m.rom, k, 8);
      } else {
        PrefixOfPrefix(t, w, 8, k);
        if k < 63 {
          assert SplitsAt(t, w, k);
          Asymmetric(t, w);
        }
      }
    }
  }

  /**
   * The targeted search finds the least member w of the family exactly when no other device
   * shares the first 63 bits of w: at the last bit it takes 1.
   */
  lemma TargetFindsLeastIff(S: set<Rom>, m: Memory, t: Rom, w: Rom)
    requires Targeted(m) && t in S && Follows(S, m, t) && IsLeast(Family(S, m.rom), w)
    ensures t == w <==> forall d :: d in S && d[..63] == w[..63] ==> d == w
  {
    TargetNearLeast(S, m, t, w);
    if t == w {
      forall d | d in S && d[..63] == w[..63]
        ensures d == w
      {
        if d != w {
          var k := FirstDifference(w, d, 0);
          if k < 63 {
            BitOfPrefix(w, d, k, 63);
          } else {
            TargetChoice(S, m, t, d, k);
            PrefixOfPrefix(d, w, 8, 63);
            assert SplitsAt(d, w, k);
            Asymmetric(d, w);
          }
        }
      }
    }
  }

  /**
   * What a call after a target reports. A family that is there is found, but for family byte 0,
   * which reads as a failure. For an absent family a device of another one is found instead.
   */
  lemma TargetCall(S: set<Rom>, m: Memory, found: bool, m': Memory)
    requires Targeted(m) && Call(S, m, found, m')
    ensures S == {} ==> !found
    ensures Family(S, m.rom) != {} ==> m'.rom in Family(S, m.rom) && (found <==> !ZeroFamily(m.rom))
    ensures S != {} && Family(S, m.rom) == {} ==> m'.rom in S && m'.rom[..8] != m.rom[..8] && (found <==> !ZeroFamily(m'.rom))
  {
    if Family(S, m.rom) != {} {
      var w := LeastExists(Family(S, m.rom));
      TargetNearLeast(S, m, m'.rom, w);
      forall k: nat | k < 8
        ensures m'.rom[k] == m.rom[k]
      {
        BitOfPrefix(m'.rom, m.rom, k, 8);
      }
    } else {
      assert m'.rom !in Family(S, m.rom);
    }
  }

  /** Family byte 1, zeros, and a last bit. */
  function Twin(last: bool): Rom {
    seq(64, i => i == 0 || (i == 63 && last))
  }

  /** Two devices that differ in bit 64 alone: the targeted search misses the lesser one. */
  lemma TargetMissesTwin(m: Memory, found: bool, m': Memory)
    requires Targeted(m) && m.rom == Twin(false) && Call({Twin(false), Twin(true)}, m, found, m')
    ensures IsLeast(Family({Twin(false), Twin(true)}, m.rom), Twin(false))
    ensures found && m'.rom == Twin(true)
  {
    var S, a, b := {Twin(false), Twin(true)}, Twin(false), Twin(true);
    assert a[..63] == b[..63] && !a[63] && b[63];
    assert a[..8] == b[..8];
    assert SplitsAt(a, b, 63);
    assert a in Family(S, m.rom);
    TargetFindsLeastIff(S, m, m'.rom, a);
    TargetCall(S, m, found, m');
    assert m.rom[0];
  }

  // ----- the bus -----

  /**
   * Devices on a wired-AND bus. A search slot has two reads, the bit and its complement,
   * and one write; a device that disagrees with the written bit leaves the search.
   */
  class Bus {
    const devices: set<Rom>
    var listening: set<Rom>
    var position: nat
    var phase: nat

    constructor (devices: set<Rom>)
      ensures this.devices == devices
    {
      this.devices := devices;
      listening, position, phase := {}, 0, 0;
    }

    method Reset() returns (present: bool)
      modifies this
      ensures present == (devices != {})
    {
      listening, position, phase := {}, 0, 0;
      present := devices != {};
    }

    method WriteByte(command: bv8)
      modifies this
      ensures listening == (if command == SEARCH_ROM then devices else {}) && position == phase == 0
    {
      listening, position, phase := if command == SEARCH_ROM then devices else {}, 0, 0;
    }

    method ReadBit() returns (high: bool)
      requires position < ROM_BITS && phase < 2
      modifies this
      ensures listening == old(listening) && position == old(position) && phase == old(phase) + 1
      ensures high <==> forall d :: d in listening ==> d[position] == (old(phase) == 0)
    {
      high := forall d | d in listening :: d[position] == (phase == 0);
      phase := phase + 1;
    }

    method WriteBit(v: bool)
      requires position < ROM_BITS && phase == 2
      modifies this
      ensures listening == (set d | d in old(listening) && d[old(position)] == v)
      ensures position == old(position) + 1 && phase == 0
    {
      listening := set d | d in listening && d[position] == v;
      position, phase := position + 1, 0;
    }
  }

  // ----- the search -----

  class Searcher {
    const romNo: array<bv8>
    var lastDiscrepancy: nat
    var lastFamilyDiscrepancy: nat
    var lastDeviceFlag: bool

    ghost predicate Valid()
      reads this
    {
      romNo.Length == 8
    }

    ghost function State(): Memory
      reads this, romNo
      requires Valid()
    {
      Memory(Bits(romNo[..]), lastDiscrepancy, lastDeviceFlag)
    }

    constructor ()
      ensures Valid() && fresh(romNo)
    {
      romNo := new bv8[8];
      lastDiscrepancy, lastFamilyDiscrepancy, lastDeviceFlag := 0, 0, false;
    }

    method ResetSearch()
      requires Valid()
      modifies this, romNo
      ensures Valid() && Fresh(State()) && romNo[..] == seq(8, _ => 0)
    {
      lastDiscrepancy := 0;
      lastDeviceFlag := false;
      lastFamilyDiscrepancy := 0;
      var i := 8;
      while i > 0
        invariant 0 <= i <= 8
        modifies romNo
        invariant forall k :: i <= k < 8 ==> romNo[k] == 0
      {
        i := i - 1;
        romNo[i] := 0;
      }
    }

    method TargetSearch(familyCode: bv8)
      requires Valid()
      modifies this, romNo
      ensures Valid() && Targeted(State())
      ensures forall k :: 0 <= k < 8 ==> State().rom[k] == BitOf(familyCode, k)
    {
      romNo[0] := familyCode;
      for i := 1 to 8
        invariant romNo[0] == familyCode
        modifies romNo
        invariant forall k :: 1 <= k < i ==> romNo[k] == 0
      {
        romNo[i] := 0;
      }
      lastDiscrepancy := 64;
      lastFamilyDiscrepancy := 0;
      lastDeviceFlag := false;
    }

    /** Sets or clears bit n of the ROM buffer, given as its byte and its mask. */
    method StoreBit(byteNumber: nat, mask: bv8, ghost n: nat, v: bool)
      requires Valid() && n < ROM_BITS && byteNumber == n / 8 && mask == Mask(n % 8)
      modifies romNo
      ensures Bits(romNo[..]) == old(Bits(romNo[..]))[n := v]
    {
      hide BitOf, Mask, Bits;
      WriteInRom(romNo[..], n, v);
      if v {
        romNo[byteNumber] := romNo[byteNumber] | mask;
      } else {
        romNo[byteNumber] := romNo[byteNumber] & !mask;
      }
      assert romNo[..] == old(romNo[..])[byteNumber := WithBit(old(romNo[byteNumber]), mask, v)];
    }

    /** The bit of the buffer chosen the last time. */
    method LoadBit(byteNumber: nat, mask: bv8, ghost n: nat) returns (v: bool)
      requires Valid() && n < ROM_BITS && byteNumber == n / 8 && mask == Mask(n % 8)
      ensures v == Bits(romNo[..])[n]
    {
      v := romNo[byteNumber] & mask > 0;
    }

    /** The bit to write after reading a bit and its complement; a 0 taken at a fork is noted. */
    method Direction(idBit: bool, cmpIdBit: bool, idBitNumber: nat, byteNumber: nat, mask: bv8, lastZero: nat)
      returns (v: bool, zero: nat)
      requires Valid() && 1 <= idBitNumber <= ROM_BITS && !(idBit && cmpIdBit)
      requires byteNumber == (idBitNumber - 1) / 8 && mask == Mask((idBitNumber - 1) % 8)
      modifies this`lastFamilyDiscrepancy
      ensures idBit != cmpIdBit ==> v == idBit
      ensures idBit == cmpIdBit ==>
                v == (if idBitNumber < lastDiscrepancy then State().rom[idBitNumber - 1] else idBitNumber == lastDiscrepancy)
      ensures zero == if idBit == cmpIdBit && !v then idBitNumber else lastZero
    {
      zero := lastZero;
      if idBit != cmpIdBit {
        v := idBit;
      } else {
        if idBitNumber < lastDiscrepancy {
          v := LoadBit(byteNumber, mask, idBitNumber - 1);
        } else {
          v := idBitNumber == lastDiscrepancy;
        }
        if !v {
          zero := idBitNumber;
          if zero < 9 {
            lastFamilyDiscrepancy := zero;
          }
        }
      }
    }

    /** One search slot: read a bit and its complement, choose, store and send the direction. */
    method Slot(bus: Bus, idBitNumber: nat, byteNumber: nat, mask: bv8, lastZero: nat, ghost m: Memory, ghost p: seq<bool>)
      returns (nobody: bool, v: bool, zero: nat)
      requires Valid() && |p| < ROM_BITS && idBitNumber == |p| + 1
      requires byteNumber == |p| / 8 && mask == Mask(|p| % 8)
      requires bus.position == |p| && bus.phase == 0 && lastDiscrepancy == m.lastDiscrepancy
      requires Walking(bus.devices, m, p, bus.listening, State().rom, lastZero)
      modifies this`lastFamilyDiscrepancy, romNo, bus
      ensures !nobody && bus.position == |p| + 1 && bus.phase == 0
      ensures Walking(bus.devices, m, p + [v], bus.listening, State().rom, zero)
    {
      ghost var listening, rom := bus.listening, State().rom;
      var idBit := bus.ReadBit();
      var cmpIdBit := bus.ReadBit();
      SomeoneAnswers(bus.devices, m, p, listening, rom, lastZero, idBit, cmpIdBit);
      hide Walking, Bits, Mask;
      nobody := idBit && cmpIdBit;
      if nobody {
        return true, false, lastZero;
      }
      v, zero := Direction(idBit, cmpIdBit, idBitNumber, byteNumber, mask, lastZero);
      WalkStep(bus.devices, m, p, listening, rom, lastZero, idBit, cmpIdBit, v);
      StoreBit(byteNumber, mask, |p|, v);
      bus.WriteBit(v);
    }

    /** The 64 search slots. */
    method Walk(bus: Bus) returns (idBitNumber: nat, lastZero: nat)
      requires Valid() && bus.devices != {} && bus.listening == bus.devices && bus.position == bus.phase == 0
      modifies this`lastFamilyDiscrepancy, romNo, bus
      ensures Valid()
      ensures idBitNumber == 65 && State().rom in bus.devices && Follows(bus.devices, old(State()), State().rom)
      ensures lastZero == LastZeroFork(bus.devices, State().rom)
    {
      hide Walking, Follows, LastZeroFork, Bits;
      idBitNumber := 1;
      lastZero := 0;
      var romByteNumber: nat := 0;
      var romByteMask: bv8 := 1;
      ghost var m, p := State(), [];
      WalkStart(bus.devices, m);

      while romByteNumber < 8
        invariant Valid() && lastDiscrepancy == m.lastDiscrepancy
        invariant |p| == idBitNumber - 1 == bus.position <= ROM_BITS && bus.phase == 0
        invariant romByteNumber == |p| / 8 && romByteMask == Mask(|p| % 8)
        invariant Walking(bus.devices, m, p, bus.listening, State().rom, lastZero)
        decreases ROM_BITS - |p|
      {
        var nobody, searchDirection, zero :=
          Slot(bus, idBitNumber, romByteNumber, romByteMask, lastZero, m, p);
        if nobody {
          break;
        }
        lastZero := zero;
        idBitNumber := idBitNumber + 1;
        romByteNumber, romByteMask := NextMask(romByteNumber, romByteMask, |p|);
        p := p + [searchDirection];
      }
      WalkEnd(bus.devices, m, p, bus.listening, State().rom, lastZero);
    }

    method Search(bus: Bus, newAddr: array<bv8>) returns (found: bool)
      requires Valid() && newAddr.Length == 8 && newAddr != romNo
      modifies this, romNo, newAddr, bus
      ensures Valid()
      ensures Call(bus.devices, old(State()), found, State())
      ensures newAddr[..] == if old(lastDeviceFlag) || bus.devices != {} then romNo[..] else old(newAddr[..])
    {
      found := false;
      // if the last call was not the last one
      if !lastDeviceFlag {
        var present := bus.Reset();
        if !present {
          lastDiscrepancy := 0;
          lastDeviceFlag := false;
          lastFamilyDiscrepancy := 0;
          return false;
        }
        bus.WriteByte(SEARCH_ROM);
        var idBitNumber, lastZero := Walk(bus);
        if !(idBitNumber < 65) {
          lastDiscrepancy := lastZero;
          if lastDiscrepancy == 0 {
            lastDeviceFlag := true;
          }
          found := true;
        }
      }

      // no device found: the next search will be like a first
      FirstByte(romNo[..]);
      if !found || romNo[0] == 0 {
        lastDiscrepancy := 0;
        lastDeviceFlag := false;
        lastFamilyDiscrepancy := 0;
        found := false;
      }
      ghost var rom := romNo[..];
      for i := 0 to 8
        modifies newAddr
        invariant romNo[..] == rom
        invariant forall k :: 0 <= k < i ==> newAddr[k] == romNo[k]
      {
        newAddr[i] := romNo[i];
      }
      assert newAddr[..] == rom;
    }
  }

  method NextMask(byteNumber: nat, mask: bv8, ghost n: nat) returns (byteNumber': nat, mask': bv8)
    requires n < ROM_BITS && byteNumber == n / 8 && mask == Mask(n % 8)
    ensures byteNumber' == (n + 1) / 8 && mask' == Mask((n + 1) % 8)
  {
    ShiftMask(n % 8);
    byteNumber', mask' := byteNumber, mask << 1;
    if mask' == 0 {
      byteNumber', mask' := byteNumber' + 1, 1;
    }
  }
}
