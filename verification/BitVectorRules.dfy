/** Polynomial normalization for bit-vector equalities: odd factors cancel modulo a power of two. */
module BitVectorRules {
  import opened Wrappers
  import opened PowersOfTwo

  // ---------------------------------------------------------------------------
  // Bit-vectors of a width
  // ---------------------------------------------------------------------------

  function Mul(a: nat, b: nat, w: nat): (r: nat)
    ensures r < Pow2(w)
  {
    (a * b) % Pow2(w)
  }

  function Subtract(a: nat, b: nat, w: nat): (r: nat)
    ensures r < Pow2(w)
  {
    (a - b) % Pow2(w)
  }

  datatype Node =
    | Const(n: nat)
    | Var(id: nat)
    | Mult(a: Node, b: Node, rest: seq<Node>)
    | Sub(a: Node, b: Node)
    | Equal(a: Node, b: Node)

  type Valuation = nat -> nat

  /** The bit-vector of width `w` that a node denotes; an equality denotes 0 or 1. */
  function Value(t: Node, w: nat, v: Valuation): nat
    decreases t, 1
  {
    match t
    case Const(n) => n % Pow2(w)
    case Var(id) => v(id) % Pow2(w)
    case Mult(a, b, rest) => Times(Mul(Value(a, w, v), Value(b, w, v), w), rest, w, v)
    case Sub(a, b) => Subtract(Value(a, w, v), Value(b, w, v), w)
    case Equal(a, b) => if Value(a, w, v) == Value(b, w, v) then 1 else 0
  }

  function Times(acc: nat, ts: seq<Node>, w: nat, v: Valuation): nat
    decreases ts, 0
  {
    if ts == [] then acc else Times(Mul(acc, Value(ts[0], w, v), w), ts[1..], w, v)
  }

  predicate Holds(t: Node, w: nat, v: Valuation) {
    Value(t, w, v) == 1
  }

  // ---------------------------------------------------------------------------
  // The rule
  // ---------------------------------------------------------------------------

  predicate OddConst(t: Node) {
    t.Const? && t.n % 2 == 1
  }

  /** BV_POLY_NORM_EQ. Of a product only the first two factors are looked at. */
  function Check(premise: Node, arg: Node): Option<Node> {
    if !arg.Equal? || !arg.a.Equal? || !premise.Equal? then None
    else
      var l, r := premise.a, premise.b;
      if !l.Mult? || !r.Mult? || !l.b.Sub? || !r.b.Sub? then None
      else if !OddConst(l.a) || !OddConst(r.a) then None
      else
        var conclusion := Equal(Equal(l.b.a, l.b.b), Equal(r.b.a, r.b.b));
        if conclusion == arg then Some(conclusion) else None
  }

  // ---------------------------------------------------------------------------
  // Odd factors cancel
  // ---------------------------------------------------------------------------

  lemma Scale(m: nat, q: int)
    requires m > 0
    ensures q >= 1 ==> m * q >= m
    ensures q <= -1 ==> m * q + m <= 0
  {
  }

  lemma MultipleMod(k: int, m: nat)
    requires m > 0
    ensures (m * k) % m == 0
  {
    var q, r := (m * k) / m, (m * k) % m;
    assert m * (k - q) == r;
    Scale(m, k - q);
  }

  lemma {:induction false} OddCancels(c: nat, d: int, w: nat)
    requires c % 2 == 1 && (c * d) % Pow2(w) == 0
    ensures d % Pow2(w) == 0
    decreases w
  {
    if w > 0 {
      var e := OddHalf(c, d, Pow2(w - 1));
      OddCancels(c, e, w - 1);
      DoubleMultiple(e, Pow2(w - 1));
    }
  }

  /** If twice `m` divides an odd multiple of `d` then `d` is even, and half of it has `m` as a factor. */
  lemma OddHalf(c: nat, d: int, m: nat) returns (e: int)
    requires m > 0 && c % 2 == 1 && (c * d) % (2 * m) == 0
    ensures d == 2 * e && (c * e) % m == 0
  {
    var k, h := (c * d) / (2 * m), c / 2;
    var mk, hd := m * k, h * d;
    assert c * d == 2 * mk;
    assert c * d == 2 * hd + d by { assert c == 2 * h + 1; }
    e := mk - hd;
    assert c * d == 2 * (c * e);
    MultipleMod(k, m);
  }

  lemma DoubleMultiple(e: int, m: nat)
    requires m > 0 && e % m == 0
    ensures (2 * e) % (2 * m) == 0
  {
    var q := e / m;
    assert 2 * e == (2 * m) * q;
    MultipleMod(q, 2 * m);
  }

  /** Two bit-vectors are equal exactly when an odd multiple of their difference is zero. */
  lemma ScaledDifference(c: nat, x: nat, y: nat, w: nat)
    requires x < Pow2(w) && y < Pow2(w) && c % 2 == 1
    ensures Mul(c, Subtract(x, y, w), w) == 0 <==> x == y
  {
    var d := Subtract(x, y, w);
    if x == y {
      MultipleMod(0, Pow2(w));
      assert d == 0 && c * d == 0;
    } else if Mul(c, d, w) == 0 {
      OddCancels(c, d, w);
      SmallMod(d, Pow2(w));
      DifferenceZero(x, y, Pow2(w));
    }
  }

  lemma SmallMod(x: nat, m: nat)
    requires x < m
    ensures x % m == x
  {
  }

  lemma DifferenceZero(x: nat, y: nat, m: nat)
    requires x < m && y < m && (x - y) % m == 0
    ensures x == y
  {
    var q := (x - y) / m;
    assert x - y == m * q;
    Scale(m, q);
  }

  lemma OddModulo(c: nat, w: nat)
    requires w >= 1
    ensures (c % Pow2(w)) % 2 == c % 2
  {
    Halves(c, Pow2(w - 1));
  }

  lemma Halves(c: nat, m: nat)
    requires m > 0
    ensures (c % (2 * m)) % 2 == c % 2
  {
    var q, r := c / (2 * m), c % (2 * m);
    assert c == 2 * (m * q) + r;
    var k := m * q;
    assert c == 2 * k + r;
  }

  /** For all bit-vectors: a pair of scaling factors keeps the two equalities equivalent
      exactly when both are odd. */
  ghost predicate Cancels(cx: nat, cy: nat, w: nat) {
    forall x1: nat, x2: nat, y1: nat, y2: nat ::
      x1 < Pow2(w) && x2 < Pow2(w) && y1 < Pow2(w) && y2 < Pow2(w)
      && Mul(cx, Subtract(x1, x2, w), w) == Mul(cy, Subtract(y1, y2, w), w)
      ==> (x1 == x2 <==> y1 == y2)
  }

  lemma CancelsIffOdd(cx: nat, cy: nat, w: nat)
    requires w >= 1
    ensures Cancels(cx, cy, w) <==> cx % 2 == 1 && cy % 2 == 1
  {
    if cx % 2 == 1 && cy % 2 == 1 {
      forall x1: nat, x2: nat, y1: nat, y2: nat
        | x1 < Pow2(w) && x2 < Pow2(w) && y1 < Pow2(w) && y2 < Pow2(w)
          && Mul(cx, Subtract(x1, x2, w), w) == Mul(cy, Subtract(y1, y2, w), w)
        ensures x1 == x2 <==> y1 == y2
      {
        ScaledDifference(cx, x1, x2, w);
        ScaledDifference(cy, y1, y2, w);
      }
    } else {
      var half := Pow2(w - 1);
      EvenKillsHalf(if cx % 2 == 0 then cx else cy, w);
      SmallMod(half, Pow2(w));
      assert Subtract(half, 0, w) == half && Subtract(0, 0, w) == 0;
      assert Mul(cx, 0, w) == 0 && Mul(cy, 0, w) == 0 by { assert cx * 0 == 0 && cy * 0 == 0; }
      if cx % 2 == 0 {
        assert Mul(cx, Subtract(half, 0, w), w) == Mul(cy, Subtract(0, 0, w), w);
      } else {
        assert Mul(cx, Subtract(0, 0, w), w) == Mul(cy, Subtract(half, 0, w), w);
      }
    }
  }

  lemma EvenKillsHalf(c: nat, w: nat)
    requires w >= 1 && c % 2 == 0
    ensures Mul(c, Pow2(w - 1), w) == 0
  {
    var h, m := c / 2, Pow2(w - 1);
    assert c * m == (2 * m) * h by { assert c == 2 * h; }
    MultipleMod(h, 2 * m);
  }

  // ---------------------------------------------------------------------------
  // When the rule is sound
  // ---------------------------------------------------------------------------

  lemma ValueFits(t: Node, w: nat, v: Valuation)
    requires w >= 1
    ensures Value(t, w, v) < Pow2(w)
    decreases t, 1
  {
    match t {
      case Const(n) =>
      case Var(id) =>
      case Mult(a, b, rest) => TimesFits(Mul(Value(a, w, v), Value(b, w, v), w), rest, w, v);
      case Sub(a, b) =>
      case Equal(a, b) => assert Pow2(w) == 2 * Pow2(w - 1);
    }
  }

  lemma {:induction false} TimesFits(acc: nat, ts: seq<Node>, w: nat, v: Valuation)
    requires acc < Pow2(w)
    ensures Times(acc, ts, w, v) < Pow2(w)
    decreases ts, 0
  {
    if ts != [] { TimesFits(Mul(acc, Value(ts[0], w, v), w), ts[1..], w, v); }
  }

  /** With two factors on each side, whatever the rule accepts follows from its premise. */
  lemma TwoFactorsSound(premise: Node, arg: Node, w: nat, v: Valuation)
    requires w >= 1 && Check(premise, arg).Some? && premise.a.rest == [] && premise.b.rest == []
    requires Holds(premise, w, v)
    ensures Holds(Check(premise, arg).value, w, v)
  {
    var l, r := premise.a, premise.b;
    var x1, x2, y1, y2 := l.b.a, l.b.b, r.b.a, r.b.b;
    ValueFits(x1, w, v);
    ValueFits(x2, w, v);
    ValueFits(y1, w, v);
    ValueFits(y2, w, v);
    OddModulo(l.a.n, w);
    OddModulo(r.a.n, w);
    CancelsIffOdd(Value(l.a, w, v), Value(r.a, w, v), w);
    assert Value(l, w, v) == Mul(Value(l.a, w, v), Value(l.b, w, v), w);
    assert Value(r, w, v) == Mul(Value(r.a, w, v), Value(r.b, w, v), w);
  }

  /** The rule is sound on the premises with `m` and `n` factors beyond the second. */
  ghost predicate SoundWith(m: nat, n: nat) {
    forall premise: Node, arg: Node, w: nat, v: Valuation ::
      w >= 1 && Check(premise, arg).Some? && |premise.a.rest| == m && |premise.b.rest| == n
      && Holds(premise, w, v)
      ==> Holds(Check(premise, arg).value, w, v)
  }

  function Zeros(m: nat): (r: seq<Node>)
    ensures |r| == m && forall i :: 0 <= i < m ==> r[i] == Const(0)
  {
    seq(m, i => Const(0))
  }

  lemma {:induction false} ZerosGiveZero(acc: nat, m: nat, w: nat, v: Valuation)
    requires m > 0 || acc == 0
    ensures Times(acc, Zeros(m), w, v) == 0
    decreases m
  {
    if m > 0 {
      assert Zeros(m)[1..] == Zeros(m - 1);
      assert Mul(acc, 0, w) == 0 by { assert acc * 0 == 0; }
      ZerosGiveZero(0, m - 1, w, v);
    }
  }

  /** A product that is zero although its two bit-vectors differ. */
  function Collapsed(m: nat): Node {
    Mult(Const(1), Sub(Var(1), Var(0)), Zeros(m))
  }

  function Even(m: nat): Node {
    Mult(Const(1), Sub(Var(0), Var(0)), Zeros(m))
  }

  lemma BothZero(m: nat, n: nat, w: nat, v: Valuation)
    requires m > 0
    ensures Value(Collapsed(m), w, v) == 0 && Value(Even(n), w, v) == 0
  {
    var t := Collapsed(m);
    ZerosGiveZero(Mul(Value(t.a, w, v), Value(t.b, w, v), w), m, w, v);
    var e := Even(n);
    assert Value(e.b, w, v) == 0;
    assert Mul(Value(e.a, w, v), 0, w) == 0 by { assert Value(e.a, w, v) * 0 == 0; }
    ZerosGiveZero(0, n, w, v);
  }

  /** A third factor is never looked at, and it can be zero: the rule is sound exactly on the
      premises that multiply one factor with one difference on each side. */
  lemma SoundIffTwoFactors(m: nat, n: nat)
    ensures SoundWith(m, n) <==> m == 0 && n == 0
  {
    var v: Valuation := id => if id == 1 then 1 else 0;
    assert Pow2(1) == 2 * Pow2(0) == 2;
    if m > 0 {
      BothZero(m, n, 1, v);
      Refuted(Collapsed(m), Even(n), v);
    } else if n > 0 {
      BothZero(n, m, 1, v);
      Refuted(Even(m), Collapsed(n), v);
    } else {
      forall premise: Node, arg: Node, w: nat, v: Valuation
        | w >= 1 && Check(premise, arg).Some? && |premise.a.rest| == 0 && |premise.b.rest| == 0
          && Holds(premise, w, v)
        ensures Holds(Check(premise, arg).value, w, v)
      {
        TwoFactorsSound(premise, arg, w, v);
      }
    }
  }

  lemma Refuted(l: Node, r: Node, v: Valuation)
    requires l.Mult? && r.Mult?
    requires || (l == Collapsed(|l.rest|) && r == Even(|r.rest|))
             || (l == Even(|l.rest|) && r == Collapsed(|r.rest|))
    requires v(0) == 0 && v(1) == 1 && Value(l, 1, v) == 0 && Value(r, 1, v) == 0
    ensures !SoundWith(|l.rest|, |r.rest|)
  {
    assert Pow2(1) == 2 * Pow2(0) == 2;
    var premise, arg := Equal(l, r), Equal(Equal(l.b.a, l.b.b), Equal(r.b.a, r.b.b));
    assert Check(premise, arg) == Some(arg);
    assert Holds(premise, 1, v);
    assert Value(Var(0), 1, v) == 0 && Value(Var(1), 1, v) == 1;
    assert !Holds(arg, 1, v);
  }

  // ---------------------------------------------------------------------------
  // What the rule accepts
  // ---------------------------------------------------------------------------

  /** Subtraction undoes addition modulo the width. */
  lemma SubtractAdds(a: nat, b: nat, w: nat)
    requires a < Pow2(w)
    ensures (Subtract(a, b, w) + b) % Pow2(w) == a
  {
    var m, d := Pow2(w), a - b;
    var q, r := d / m, d % m;
    assert d == m * q + r;
    assert r + b == a - m * q == a + m * (-q);
    AddsMultiple(a, -q, m);
  }

  lemma AddsMultiple(a: nat, q: int, m: nat)
    requires a < m
    ensures (a + m * q) % m == a
  {
    var p, r := (a + m * q) / m, (a + m * q) % m;
    assert m * (p - q) == a - r;
    Scale(m, p - q);
  }

  /** From a pair of scaled differences the rule concludes that the two equalities agree exactly
      when the factors cancel, and it concludes nothing else; further factors do not matter. */
  lemma ConcludesWhatCancels(cx: nat, x1: Node, x2: Node, more: seq<Node>, cy: nat, y1: Node, y2: Node,
                             others: seq<Node>, arg: Node, w: nat)
    requires w >= 1
    ensures var premise := Equal(Mult(Const(cx), Sub(x1, x2), more), Mult(Const(cy), Sub(y1, y2), others));
            Check(premise, arg) ==
            if Cancels(cx, cy, w) && arg == Equal(Equal(x1, x2), Equal(y1, y2)) then Some(arg) else None
  {
    CancelsIffOdd(cx, cy, w);
  }

  /** Every premise that is accepted is such a pair. */
  lemma AcceptsPairs(premise: Node, arg: Node)
    requires Check(premise, arg).Some?
    ensures premise.Equal? && premise.a.Mult? && premise.b.Mult?
    ensures premise.a.a.Const? && premise.a.b.Sub? && premise.b.a.Const? && premise.b.b.Sub?
  {
  }
}
