/** Integer facts behind the ring containers: powers of two, bitwise AND on
    non-negative integers, and the capacity rounding of the constructors. */
module Bits {

  /** 2 to the power `k`. */
  function Pow2(k: nat): (r: nat)
    ensures r >= 1
  {
    if k == 0 then 1 else 2 * Pow2(k - 1)
  }

  /** `n` is a power of two (1, 2, 4, ...). */
  predicate IsPow2(n: nat)
  {
    n == 1 || (n >= 2 && n % 2 == 0 && IsPow2(n / 2))
  }

  /** Bitwise AND of two non-negative integers, bit by bit from the least
      significant one; this is C++ `&` on the promoted unsigned operands. */
  function BitAnd(a: nat, b: nat): nat
    decreases a
  {
    if a == 0 || b == 0 then 0
    else 2 * BitAnd(a / 2, b / 2) + (if a % 2 == 1 && b % 2 == 1 then 1 else 0)
  }

  /** Reference definition of the rounded capacity: 0 for 0, otherwise the
      largest power of two not above `n`. */
  function FloorPow2(n: nat): nat
  {
    if n <= 1 then n else 2 * FloorPow2(n / 2)
  }

  /** The C++ conversion of an `int` to a 16-bit unsigned value. */
  function Truncate16(x: nat): nat
  {
    x % 0x1_0000
  }

  lemma {:induction false} Pow2IsPow2(k: nat)
    ensures IsPow2(Pow2(k))
  {
    if k > 0 {
      Pow2IsPow2(k - 1);
      assert Pow2(k) / 2 == Pow2(k - 1);
    }
  }

  lemma Pow2Of16()
    ensures Pow2(8) == 0x100
    ensures Pow2(16) == 0x1_0000
  {
    assert Pow2(2) == 4;
    assert Pow2(4) == 16;
    assert Pow2(6) == 64;
    assert Pow2(8) == 0x100;
    assert Pow2(10) == 0x400;
    assert Pow2(12) == 0x1000;
    assert Pow2(14) == 0x4000;
  }

  lemma {:induction false} Pow2Monotone(a: nat, b: nat)
    requires a <= b
    ensures Pow2(a) <= Pow2(b)
    decreases b
  {
    if a < b {
      Pow2Monotone(a, b - 1);
    }
  }

  /** Writing x as 2q + r: the remainder modulo 2c is 2 (q mod c) + r. */
  lemma HalvingMod(x: nat, c: nat)
    requires c >= 1
    ensures x % (2 * c) == 2 * ((x / 2) % c) + x % 2
  {
    var q := x / 2;
    var m := q / c;
    var s := q % c;
    assert x == 2 * q + x % 2;
    assert q == c * m + s;
    assert x == (2 * c) * m + (2 * s + x % 2);
    assert 0 <= 2 * s + x % 2 < 2 * c;
    ModOfDecomposition(x, 2 * c, m, 2 * s + x % 2);
  }

  lemma MulMonotone(d: nat, a: nat, b: nat)
    requires a <= b
    ensures d * a <= d * b
  {
    assert d * b == d * a + d * (b - a);
  }

  lemma MulLessCancel(d: nat, a: nat, b: nat)
    ensures d * a < d * b ==> a < b
  {
    if a >= b {
      MulMonotone(d, b, a);
    }
  }

  /** Quotient and remainder are determined by any decomposition x = d m + t
      with t < d. */
  lemma ModOfDecomposition(x: nat, d: nat, m: nat, t: nat)
    requires d >= 1 && t < d && x == d * m + t
    ensures x % d == t && x / d == m
  {
    var q := x / d;
    assert x == d * q + x % d;
    MulLessCancel(d, q, m + 1);
    assert d * (m + 1) == d * m + d;
    MulLessCancel(d, m, q + 1);
    assert d * (q + 1) == d * q + d;
    assert q == m;
  }

  /** For d < 2p, the bit of d at weight p decides whether d reaches p. */
  lemma QuotientBit(d: nat, p: nat)
    requires p >= 1 && d < 2 * p
    ensures (d / p) % 2 == 0 ==> d < p
    ensures (d / p) % 2 == 1 ==> p <= d
  {
    var q := d / p;
    assert d == p * q + d % p;
    MulLessCancel(p, q, 2);
    assert q < 2;
    if q == 1 {
      assert p * q == p;
    } else {
      assert p * q == 0;
    }
  }

  /** For a power-of-two capacity, masking with `cap - 1` is reduction modulo
      `cap`: the index arithmetic `(i + 1) & (cap - 1)` wraps like `% cap`. */
  lemma {:induction false} MaskIsMod(x: nat, cap: nat)
    requires IsPow2(cap)
    ensures BitAnd(x, cap - 1) == x % cap
    decreases cap
  {
    if cap == 1 {
    } else if x == 0 {
    } else {
      var c := cap / 2;
      assert cap - 1 == 2 * (c - 1) + 1;
      assert (cap - 1) / 2 == c - 1 && (cap - 1) % 2 == 1;
      MaskIsMod(x / 2, c);
      calc {
        BitAnd(x, cap - 1);
        2 * BitAnd(x / 2, c - 1) + x % 2;
        2 * ((x / 2) % c) + x % 2;
        { HalvingMod(x, c); }
        x % cap;
      }
    }
  }

  /** The AND with a single bit `Pow2(k)` is non-zero exactly when bit `k`
      of `d` is set. */
  lemma {:induction false} BitAndPow2(k: nat, d: nat)
    ensures BitAnd(Pow2(k), d) != 0 <==> (d / Pow2(k)) % 2 == 1
    decreases k
  {
    if k == 0 {
      if d != 0 {
        assert BitAnd(1, d) == 2 * BitAnd(0, d / 2) + (if d % 2 == 1 then 1 else 0);
      }
    } else {
      var p, q := Pow2(k - 1), d / 2;
      BitAndPow2(k - 1, q);
      DivDiv(d, p);
      assert Pow2(k) == 2 * p;
      var e := q / p;
      assert d / Pow2(k) == e;
      if d != 0 {
        assert Pow2(k) % 2 == 0 && Pow2(k) / 2 == p;
        assert BitAnd(Pow2(k), d) == 2 * BitAnd(p, q);
      }
    }
  }

  lemma DivDiv(d: nat, p: nat)
    requires p >= 1
    ensures (d / 2) / p == d / (2 * p)
  {
    var q := d / 2;
    var m := q / p;
    var s := q % p;
    assert d == 2 * q + d % 2;
    assert q == p * m + s;
    assert d == (2 * p) * m + (2 * s + d % 2);
    ModOfDecomposition(d, 2 * p, m, 2 * s + d % 2);
  }

  /** The reference rounding yields a power of two within a factor of two of
      a positive request. */
  lemma {:induction false} FloorPow2Bounds(n: nat)
    requires n >= 1
    ensures IsPow2(FloorPow2(n))
    ensures FloorPow2(n) <= n < 2 * FloorPow2(n)
  {
    if n > 1 {
      FloorPow2Bounds(n / 2);
      var f := FloorPow2(n / 2);
      assert FloorPow2(n) == 2 * f;
      assert (2 * f) / 2 == f && (2 * f) % 2 == 0;
    }
  }

  /** Any power of two within a factor of two of `n` is the reference rounding. */
  lemma {:induction false} FloorPow2Unique(n: nat, p: nat)
    requires IsPow2(p) && p <= n < 2 * p
    ensures FloorPow2(n) == p
  {
    if p == 1 {
    } else {
      FloorPow2Unique(n / 2, p / 2);
    }
  }

  /** What one candidate of the capacity search tells about a request `d`
      whose bits above `position` are all clear. */
  lemma CandidateFacts(position: nat, d: nat)
    requires 0 < d < 0x1_0000 && position <= 16 && d < 2 * Pow2(position)
    ensures position < 16 ==> Truncate16(Pow2(position)) == Pow2(position)
    ensures BitAnd(Truncate16(Pow2(position)), d) == 0 ==> position > 0 && d < 2 * Pow2(position - 1)
    ensures BitAnd(Truncate16(Pow2(position)), d) != 0 ==> position < 16 && Pow2(position) <= d
  {
    Pow2Of16();
    if position == 16 {
      assert Truncate16(Pow2(position)) == 0;
      assert BitAnd(0, d) == 0;
    } else {
      Pow2Monotone(position, 15);
      assert Pow2(15) == 0x8000;
      var p := Pow2(position);
      assert Truncate16(p) == p;
      BitAndPow2(position, d);
      QuotientBit(d, p);
      if position == 0 {
        assert d == 1 && d / p == 1;
      }
    }
  }

  /** The capacity search of the ring constructors (buffer.hpp and both
      queue.hpp): a zero request stays zero; otherwise the candidate
      `uint16(1 << position)` is tried for position 16 down to 0 and the
      first one sharing a bit with the request is kept. Position 16 yields
      the truncated value 0, so the search really starts at bit 15. */
  method RoundCapacity(dataSize: nat) returns (cap: nat)
    requires dataSize < 0x1_0000
    ensures cap == FloorPow2(dataSize)
    ensures dataSize == 0 ==> cap == 0
    ensures dataSize > 0 ==> IsPow2(cap) && cap <= dataSize < 2 * cap
  {
    if dataSize == 0 {
      return 0;
    }
    Pow2Of16();
    var position: nat := 16;
    cap := Truncate16(Pow2(position));
    while BitAnd(cap, dataSize) == 0
      invariant position <= 16
      invariant cap == Truncate16(Pow2(position))
      invariant dataSize < 2 * Pow2(position)
      decreases position
    {
      CandidateFacts(position, dataSize);
      position := position - 1;
      cap := Truncate16(Pow2(position));
    }
    CandidateFacts(position, dataSize);
    Pow2IsPow2(position);
    FloorPow2Unique(dataSize, cap);
  }
}
