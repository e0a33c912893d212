/** Bitwise "and" on natural numbers: the masks of the source are remainders. */
module Bits {
  import opened Layout

  function And(a: nat, b: nat): nat {
    if a == 0 || b == 0 then 0 else (if a % 2 == 1 && b % 2 == 1 then 1 else 0) + 2 * And(a / 2, b / 2)
  }

  function Pow2(w: nat): (r: nat)
    ensures r > 0
  {
    if w == 0 then 1 else 2 * Pow2(w - 1)
  }

  lemma ModDouble(x: nat, p: nat)
    requires p > 0
    ensures x % (2 * p) == x % 2 + 2 * (x / 2 % p)
  {
    var q, r := x / 2, x % 2;
    var s, t := q / p, q % p;
    assert x == 2 * q + r && q == p * s + t;
    assert x == (2 * p) * s + (r + 2 * t) by {
      assert 2 * (p * s) == (2 * p) * s;
    }
    ModIs(x, 2 * p, s, r + 2 * t);
  }

  lemma ModIs(v: nat, m: nat, q: nat, r: nat)
    requires m > 0 && r < m && v == m * q + r
    ensures v % m == r && v / m == q
  {
    var q', r' := v / m, v % m;
    assert v == m * q' + r';
    if q' < q {
      MulMono(m, q' + 1, q);
      assert false;
    }
    if q < q' {
      MulMono(m, q + 1, q');
      assert false;
    }
  }

  /** Masking with a power of two less one is the remainder. */
  lemma {:induction false} AndMask(x: nat, p: nat)
    requires PowerOfTwo(p)
    ensures And(x, p - 1) == x % p
  {
    if p > 1 {
      AndMask(x / 2, p / 2);
      ModDouble(x, p / 2);
      assert (p - 1) / 2 == p / 2 - 1 && (p - 1) % 2 == 1;
    }
  }

  lemma {:induction false} AndSelf(x: nat)
    ensures And(x, x) == x
  {
    if x > 0 {
      AndSelf(x / 2);
    }
  }

  /** The test of the source for a power of two. */
  lemma {:induction false} AndLess(x: nat)
    requires x > 0
    ensures And(x, x - 1) == 0 <==> PowerOfTwo(x)
  {
    if x == 1 {
    } else if x % 2 == 1 {
      AndSelf(x / 2);
    } else {
      AndLess(x / 2);
      assert (x - 1) / 2 == x / 2 - 1 && (x - 1) % 2 == 1;
    }
  }

  /** A mask and its complement split a number. */
  lemma {:induction false} AndSplit(x: nat, m: nat, w: nat)
    requires x < Pow2(w) && m < Pow2(w)
    ensures And(x, m) + And(x, Pow2(w) - 1 - m) == x
  {
    if w > 0 {
      var p := Pow2(w - 1);
      AndSplit(x / 2, m / 2, w - 1);
      assert (2 * p - 1 - m) / 2 == p - 1 - m / 2 && (2 * p - 1 - m) % 2 == 1 - m % 2;
    }
  }

  lemma Pow32()
    ensures Pow2(32) == 0x1_0000_0000
  {
    assert Pow2(8) == 256;
    assert Pow2(16) == 256 * 256;
    assert Pow2(24) == 256 * 256 * 256;
  }

  /** Clearing the low bits of a 32-bit number rounds it down. */
  lemma RoundDown(x: nat, p: nat)
    requires PowerOfTwo(p) && x < 0x1_0000_0000 && p <= 0x1_0000_0000
    ensures And(x, 0xFFFF_FFFF - (p - 1)) == x - x % p
  {
    Pow32();
    AndSplit(x, p - 1, 32);
    AndMask(x, p);
  }
}
