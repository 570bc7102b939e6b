/** Powers of two, and the refinement rules for the `pow2` function. */
module PowersOfTwo {
  function Pow2(w: nat): (r: nat)
    ensures r > 0
  {
    if w == 0 then 1 else 2 * Pow2(w - 1)
  }

  /** `pow2` on all integers: zero on the negative ones. */
  function Power(t: int): nat {
    if t < 0 then 0 else Pow2(t)
  }

  /** ARITH_POW2_INIT. */
  lemma Init(t: int)
    ensures t >= 0 <==> Power(t) > 0
    ensures t != 0 <==> Power(t) % 2 == 0
    ensures t < 0 <==> Power(t) == 0
  {
    if t > 0 { DoubleIsEven(Pow2(t - 1)); }
    if t == 0 { assert Pow2(0) == 1; }
  }

  lemma DoubleIsEven(h: nat)
    ensures (2 * h) % 2 == 0
  {
  }

  lemma {:induction false} Grows(x: nat, d: nat)
    ensures d > 0 ==> Pow2(x) < Pow2(x + d)
    decreases d
  {
    if d > 0 { Grows(x, d - 1); }
  }

  /** ARITH_POW2_MONOTONE, and its converse: `pow2` reflects the order of its arguments as far
      as they are not negative. */
  lemma Monotone(x: int, y: int)
    ensures Power(x) < Power(y) <==> 0 <= y && x < y
  {
    if 0 <= x < y { Grows(x, y - x); }
    if 0 <= y < x { Grows(y, x - y); }
  }

  lemma {:induction false} Exceeds(t: nat)
    ensures t < Pow2(t)
  {
    if t > 0 { Exceeds(t - 1); }
  }

  /** ARITH_POW2_DIV0. */
  lemma DivZero(t: int)
    requires t >= 0
    ensures t / Power(t) == 0
  {
    Exceeds(t);
    SmallQuotient(t, Power(t));
  }

  lemma SmallQuotient(x: nat, m: nat)
    requires x < m
    ensures x / m == 0
  {
    var q, r := x / m, x % m;
    assert x == m * q + r;
    assert q >= 1 ==> m * q >= m;
  }

  ghost predicate LowerBound(k: int) {
    forall t: int :: t >= k ==> Power(t) > k * t + k * k
  }

  lemma {:induction false} AboveTwiceSquare(k: nat)
    requires k >= 7
    ensures Pow2(k) > 2 * (k * k)
  {
    if k > 7 {
      AboveTwiceSquare(k - 1);
      var j := k - 1;
      assert k * k == j * j + 2 * j + 1;
      assert j * j >= 7 * j;
    } else {
      SmallPowers();
    }
  }

  lemma SmallPowers()
    ensures Pow2(1) == 2 && Pow2(2) == 4 && Pow2(3) == 8 && Pow2(4) == 16
    ensures Pow2(5) == 32 && Pow2(6) == 64 && Pow2(7) == 128
  {
    assert Pow2(0) == 1;
    assert Pow2(1) == 2;
    assert Pow2(2) == 4;
    assert Pow2(3) == 8;
    assert Pow2(4) == 16;
    assert Pow2(5) == 32;
  }

  lemma {:induction false} AboveLine(k: nat, t: nat)
    requires t >= k >= 7
    ensures Pow2(t) > k * t + k * k
    decreases t
  {
    if t == k {
      AboveTwiceSquare(k);
    } else {
      AboveLine(k, t - 1);
      assert k * t == k * (t - 1) + k;
      assert k * (t - 1) >= k * 7 by { assert t - 1 >= 7; }
    }
  }

  /** ARITH_POW2_LOWER_BOUND, and how far its side condition can be relaxed: besides 7 and
      above only 0 would do. */
  lemma LowerBoundIff(k: int)
    ensures LowerBound(k) <==> k >= 7 || k == 0
  {
    if k >= 7 {
      forall t: int | t >= k ensures Power(t) > k * t + k * k { AboveLine(k, t); }
    } else if k == 0 {
      forall t: int | t >= k ensures Power(t) > k * t + k * k { Init(t); }
    } else {
      SmallPowers();
      assert k < 0 ==> k * k > 0;
      assert !(Power(k) > k * k + k * k);
    }
  }
}
