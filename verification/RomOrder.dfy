/**
 * 64-bit 1-Wire ROM codes as the bits a device transmits, least significant bit of
 * byte 0 first, and the order in which the search visits them.
 */
module RomOrder {

  const ROM_BITS: nat := 64

  type Rom = r: seq<bool> | |r| == 64 witness seq(64, _ => false)

  /** a and b agree before bit k; there a transmits 0 and b transmits 1. */
  ghost predicate SplitsAt(a: Rom, b: Rom, k: nat) {
    k < ROM_BITS && a[..k] == b[..k] && !a[k] && b[k]
  }

  /** Lexicographic order of the transmitted bits, 0 before 1. */
  ghost predicate Less(a: Rom, b: Rom) {
    exists k :: SplitsAt(a, b, k)
  }

  ghost predicate IsLeast(S: set<Rom>, t: Rom) {
    t in S && forall d :: d in S && d != t ==> Less(t, d)
  }

  ghost function Above(S: set<Rom>, r: Rom): set<Rom> {
    set d | d in S && Less(r, d)
  }

  /** The members of R from the least to the greatest. */
  ghost predicate Ascending(R: set<Rom>, out: seq<Rom>) {
    && |out| == |R|
    && (forall d :: d in out <==> d in R)
    && (forall i, j :: 0 <= i < j < |out| ==> Less(out[i], out[j]))
  }

  /** Two different codes split at the first bit where they differ. */
  lemma {:induction false} Trichotomy(a: Rom, b: Rom)
    requires a != b
    ensures Less(a, b) || Less(b, a)
  {
    var k := FirstDifference(a, b, 0);
    if b[k] {
      assert SplitsAt(a, b, k);
    } else {
      assert SplitsAt(b, a, k);
    }
  }

  lemma {:induction false} FirstDifference(a: Rom, b: Rom, from: nat) returns (k: nat)
    requires a != b && from <= ROM_BITS && a[..from] == b[..from]
    ensures from <= k < ROM_BITS && a[..k] == b[..k] && a[k] != b[k]
    decreases ROM_BITS - from
  {
    if from == ROM_BITS {
      assert false;
    } else if a[from] != b[from] {
      k := from;
    } else {
      assert a[..from + 1] == a[..from] + [a[from]];
      assert b[..from + 1] == b[..from] + [b[from]];
      k := FirstDifference(a, b, from + 1);
    }
  }

  lemma PrefixOfPrefix(a: Rom, b: Rom, i: nat, j: nat)
    requires i <= j <= ROM_BITS && a[..j] == b[..j]
    ensures a[..i] == b[..i]
  {
    assert a[..i] == a[..j][..i];
    assert b[..i] == b[..j][..i];
  }

  lemma BitOfPrefix(a: Rom, b: Rom, i: nat, j: nat)
    requires i < j <= ROM_BITS && a[..j] == b[..j]
    ensures a[i] == b[i]
  {
    assert a[i] == a[..j][i];
    assert b[i] == b[..j][i];
  }

  lemma Asymmetric(a: Rom, b: Rom)
    requires Less(a, b)
    ensures !Less(b, a) && a != b
  {
    var i: nat :| SplitsAt(a, b, i);
    if Less(b, a) {
      var j: nat :| SplitsAt(b, a, j);
      if i < j {
        BitOfPrefix(a, b, i, j);
      } else if j < i {
        BitOfPrefix(a, b, j, i);
      }
    }
  }

  lemma Transitive(a: Rom, b: Rom, c: Rom)
    requires Less(a, b) && Less(b, c)
    ensures Less(a, c)
  {
    var i: nat :| SplitsAt(a, b, i);
    var j: nat :| SplitsAt(b, c, j);
    if i < j {
      PrefixOfPrefix(b, c, i, j);
      BitOfPrefix(b, c, i, j);
      assert SplitsAt(a, c, i);
    } else {
      PrefixOfPrefix(a, b, j, i);
      if j < i {
        BitOfPrefix(a, b, j, i);
        assert SplitsAt(a, c, j);
      }
    }
  }

  lemma {:induction false} LeastExists(S: set<Rom>) returns (t: Rom)
    requires S != {}
    ensures IsLeast(S, t)
    decreases |S|
  {
    var x :| x in S;
    if S == {x} {
      t := x;
    } else {
      var rest := S - {x};
      var u := LeastExists(rest);
      if Less(u, x) {
        t := u;
      } else {
        Trichotomy(u, x);
        t := x;
        forall d | d in S && d != x
          ensures Less(x, d)
        {
          assert d in rest;
          if d != u {
            Transitive(x, u, d);
          }
        }
      }
    }
  }

  /** Taking the least member t of S \ {<= r} away leaves exactly the codes above t. */
  lemma AboveLeast(S: set<Rom>, R: set<Rom>, t: Rom)
    requires IsLeast(R, t) && R <= S
    requires forall d, e :: d in R && e in S && Less(d, e) ==> e in R
    ensures Above(S, t) == R - {t}
  {
    forall d
      ensures d in Above(S, t) <==> d in R - {t}
    {
      if d in Above(S, t) {
        Asymmetric(t, d);
      }
    }
  }

  lemma AscendingCons(R: set<Rom>, t: Rom, out: seq<Rom>)
    requires IsLeast(R, t) && Ascending(R - {t}, out)
    ensures Ascending(R, [t] + out)
  {
    var all := [t] + out;
    forall d
      ensures d in all <==> d in R
    {
      assert d in all <==> d == t || d in out;
    }
    forall i, j | 0 <= i < j < |all|
      ensures Less(all[i], all[j])
    {
      assert out[j - 1] in out;
    }
  }
}
