/** Comparing the absolute values of two products factor by factor. */
module AbsComparison {
  import opened Wrappers

  // ---------------------------------------------------------------------------
  // Terms and formulas
  // ---------------------------------------------------------------------------

  datatype Term =
    | Num(r: real)
    | Var(id: nat)
    | Mult(ts: seq<Term>)
    | Abs(t: Term)

  datatype Formula =
    | Equal(a: Term, b: Term)
    | Greater(a: Term, b: Term)
    | Less(a: Term, b: Term)
    | Not(f: Formula)
    | And(fs: seq<Formula>)

  type Valuation = nat -> real

  function Magnitude(r: real): (m: real)
    ensures m >= 0.0 && (m == r || m == -r)
  {
    if r < 0.0 then -r else r
  }

  function Value(t: Term, v: Valuation): real
    decreases t, 1
  {
    match t
    case Num(r) => r
    case Var(id) => v(id)
    case Mult(ts) => ProductOf(ts, v)
    case Abs(s) => Magnitude(Value(s, v))
  }

  function ProductOf(ts: seq<Term>, v: Valuation): real
    decreases ts, 0
  {
    if ts == [] then 1.0 else Value(ts[0], v) * ProductOf(ts[1..], v)
  }

  predicate Holds(f: Formula, v: Valuation) {
    match f
    case Equal(a, b) => Value(a, v) == Value(b, v)
    case Greater(a, b) => Value(a, v) > Value(b, v)
    case Less(a, b) => Value(a, v) < Value(b, v)
    case Not(g) => !Holds(g, v)
    case And(fs) => forall i :: 0 <= i < |fs| ==> Holds(fs[i], v)
  }

  // ---------------------------------------------------------------------------
  // ARITH_MULT_ABS_COMPARISON
  // ---------------------------------------------------------------------------

  /** The term that the formula says is not zero. */
  function DisequalZero(f: Formula): Option<Term> {
    if f.Not? && f.f.Equal? && f.f.b == Num(0.0) then Some(f.f.a) else None
  }

  /** A premise taken apart: its comparison and the term that is guarded to be non-zero. */
  function Unguard(c: Formula): Option<(Formula, Option<Term>)> {
    if !c.And? then Some((c, None))
    else if |c.fs| == 2 && DisequalZero(c.fs[1]).Some? then Some((c.fs[0], DisequalZero(c.fs[1])))
    else None
  }

  /** The comparison may stand among premises the first of which is (strict or) an equality. */
  predicate KindFits(strict: bool, lit: Formula, guard: Option<Term>) {
    if strict then lit.Greater? || (lit.Equal? && lit.a.Abs? && guard == Some(lit.a.t))
    else lit.Equal?
  }

  /** The two factors that a premise contributes. A constant must be one, and at most one of
      the two factors may be a constant. */
  function Factors(strict: bool, c: Formula): Option<(Term, Term)> {
    match Unguard(c)
    case None => None
    case Some((lit, guard)) =>
      if !KindFits(strict, lit, guard) || !lit.a.Abs? || !lit.b.Abs? then None
      else
        var l, r := lit.a.t, lit.b.t;
        if (l.Num? && (l.r != 1.0 || r.Num?)) || (r.Num? && (r.r != 1.0 || l.Num?)) then None
        else Some((l, r))
  }

  function CollectFactors(strict: bool, cs: seq<Formula>): (r: Option<(seq<Term>, seq<Term>)>)
    ensures r.Some? ==> |r.value.0| == |r.value.1| == |cs|
  {
    if cs == [] then Some(([], []))
    else match (Factors(strict, cs[0]), CollectFactors(strict, cs[1..]))
         case (Some((l, r)), Some((ls, rs))) => Some(([l] + ls, [r] + rs))
         case _ => None
  }

  function MkProduct(ts: seq<Term>): Term {
    if |ts| == 1 then ts[0] else Mult(ts)
  }

  function MkLit(strict: bool, ls: seq<Term>, rs: seq<Term>): Formula {
    var l, r := Abs(MkProduct(ls)), Abs(MkProduct(rs));
    if strict then Greater(l, r) else Equal(l, r)
  }

  /** What the rule concludes; its kind is the kind of the first premise. */
  function Conclusion(cs: seq<Formula>): Option<Formula> {
    if cs == [] || !(cs[0].Equal? || cs[0].Greater?) then None
    else match CollectFactors(cs[0].Greater?, cs)
         case None => None
         case Some((ls, rs)) => Some(MkLit(cs[0].Greater?, ls, rs))
  }

  /** What the premises still to come add to the factors collected so far. */
  function Onto(ls: seq<Term>, rs: seq<Term>, more: Option<(seq<Term>, seq<Term>)>): Option<(seq<Term>, seq<Term>)> {
    match more
    case None => None
    case Some((l, r)) => Some((ls + l, rs + r))
  }

  lemma OntoNothing(more: Option<(seq<Term>, seq<Term>)>)
    ensures Onto([], [], more) == more
  {
    if more.Some? { assert [] + more.value.0 == more.value.0 && [] + more.value.1 == more.value.1; }
  }

  lemma OneMorePremise(strict: bool, cs: seq<Formula>, ls: seq<Term>, rs: seq<Term>)
    requires cs != []
    ensures Onto(ls, rs, CollectFactors(strict, cs)) ==
            match Factors(strict, cs[0])
            case None => None
            case Some((l, r)) => Onto(ls + [l], rs + [r], CollectFactors(strict, cs[1..]))
  {
    var f, rest := Factors(strict, cs[0]), CollectFactors(strict, cs[1..]);
    if f.Some? && rest.Some? {
      assert ls + ([f.value.0] + rest.value.0) == (ls + [f.value.0]) + rest.value.0;
      assert rs + ([f.value.1] + rest.value.1) == (rs + [f.value.1]) + rest.value.1;
    }
  }

  /** The checker: one premise at a time, adding to the two products. */
  method Check(cs: seq<Formula>) returns (r: Option<Formula>)
    requires cs != []
    ensures r == Conclusion(cs)
  {
    if !(cs[0].Equal? || cs[0].Greater?) { return None; }
    var strict := cs[0].Greater?;
    var ls: seq<Term>, rs: seq<Term> := [], [];
    assert cs[0..] == cs;
    OntoNothing(CollectFactors(strict, cs));
    for i := 0 to |cs|
      invariant CollectFactors(strict, cs) == Onto(ls, rs, CollectFactors(strict, cs[i..]))
    {
      OneMorePremise(strict, cs[i..], ls, rs);
      assert cs[i..][1..] == cs[i + 1..];
      var f := Factors(strict, cs[i]);
      if f.None? { return None; }
      ls, rs := ls + [f.value.0], rs + [f.value.1];
    }
    assert ls + [] == ls && rs + [] == rs;
    return Some(MkLit(strict, ls, rs));
  }

  // ---------------------------------------------------------------------------
  // Products of comparisons
  // ---------------------------------------------------------------------------

  function Times(a: real, b: real): real {
    a * b
  }

  function Product(xs: seq<real>): real {
    if xs == [] then 1.0 else Times(xs[0], Product(xs[1..]))
  }

  datatype Comparison = Strict | Tie | NonzeroTie

  predicate Compares(c: Comparison, x: real, y: real) {
    match c
    case Strict => Magnitude(x) > Magnitude(y)
    case Tie => Magnitude(x) == Magnitude(y)
    case NonzeroTie => Magnitude(x) == Magnitude(y) && x != 0.0
  }

  predicate AllCompare(cs: seq<Comparison>, xs: seq<real>, ys: seq<real>) {
    |cs| == |xs| == |ys| && forall i :: 0 <= i < |cs| ==> Compares(cs[i], xs[i], ys[i])
  }

  lemma MagnitudeProduct(a: real, b: real)
    ensures Magnitude(Times(a, b)) == Magnitude(a) * Magnitude(b)
  {
    if a >= 0.0 && b >= 0.0 { assert a * b >= 0.0; }
    if a >= 0.0 && b < 0.0 { assert a * b <= 0.0; }
    if a < 0.0 && b >= 0.0 { assert a * b <= 0.0; }
    if a < 0.0 && b < 0.0 { assert a * b >= 0.0; }
  }

  lemma ScaleUp(a: real, b: real, p: real, q: real)
    requires a >= b >= 0.0 && p >= q >= 0.0 && a > 0.0 && p > 0.0
    ensures a * p >= b * q && a * p > 0.0
    ensures a > b || p > q ==> a * p > b * q
  {
    assert a * p - b * q == a * (p - q) + (a - b) * q;
    assert a * p - b * q == (a - b) * p + b * (p - q);
    assert a * (p - q) >= 0.0 && (a - b) * q >= 0.0 && (a - b) * p >= 0.0 && b * (p - q) >= 0.0;
    if a > b { assert (a - b) * p > 0.0; }
    if p > q { assert a * (p - q) > 0.0; }
  }

  lemma {:induction false} ProductsCompare(cs: seq<Comparison>, xs: seq<real>, ys: seq<real>)
    requires AllCompare(cs, xs, ys) && Tie !in cs
    ensures Magnitude(Product(xs)) > 0.0 && Magnitude(Product(xs)) >= Magnitude(Product(ys))
    ensures Strict in cs ==> Magnitude(Product(xs)) > Magnitude(Product(ys))
  {
    if cs != [] {
      assert cs[0] in cs && forall c :: c in cs[1..] ==> c in cs;
      assert AllCompare(cs[1..], xs[1..], ys[1..]);
      ProductsCompare(cs[1..], xs[1..], ys[1..]);
      OneMoreFactor(cs[0], xs[0], ys[0], Product(xs[1..]), Product(ys[1..]));
      if Strict in cs { assert cs[0] == Strict || Strict in cs[1..]; }
    }
  }

  lemma OneMoreFactor(c: Comparison, x: real, y: real, p: real, q: real)
    requires Compares(c, x, y) && c != Tie
    requires Magnitude(p) > 0.0 && Magnitude(p) >= Magnitude(q)
    ensures Magnitude(Times(x, p)) > 0.0 && Magnitude(Times(x, p)) >= Magnitude(Times(y, q))
    ensures c == Strict || Magnitude(p) > Magnitude(q) ==> Magnitude(Times(x, p)) > Magnitude(Times(y, q))
  {
    MagnitudeProduct(x, p);
    MagnitudeProduct(y, q);
    ScaleUp(Magnitude(x), Magnitude(y), Magnitude(p), Magnitude(q));
  }

  ghost predicate Lifts(cs: seq<Comparison>) {
    forall xs, ys :: AllCompare(cs, xs, ys) ==> Magnitude(Product(xs)) > Magnitude(Product(ys))
  }

  lemma {:induction false} ZeroFactor(xs: seq<real>, k: nat)
    requires k < |xs| && xs[k] == 0.0
    ensures Product(xs) == 0.0
  {
    if k > 0 {
      assert xs[1..][k - 1] == 0.0;
      ZeroFactor(xs[1..], k - 1);
    }
  }

  /** For any number of factors: a strict comparison of the products follows exactly when some
      factor is compared strictly and every tie is guarded to be non-zero. */
  lemma LiftsIff(cs: seq<Comparison>)
    ensures Lifts(cs) <==> Strict in cs && Tie !in cs
  {
    if Tie in cs {
      var k :| 0 <= k < |cs| && cs[k] == Tie;
      var xs := seq(|cs|, i requires 0 <= i < |cs| => if cs[i] == Tie then 0.0 else 2.0);
      var ys := seq(|cs|, i requires 0 <= i < |cs| =>
                            if cs[i] == Tie then 0.0 else if cs[i] == Strict then 1.0 else 2.0);
      assert AllCompare(cs, xs, ys);
      ZeroFactor(xs, k);
      ZeroFactor(ys, k);
    } else if Strict !in cs {
      var xs := seq(|cs|, i => 1.0);
      assert AllCompare(cs, xs, xs);
    } else {
      forall xs, ys | AllCompare(cs, xs, ys) ensures Magnitude(Product(xs)) > Magnitude(Product(ys)) {
        ProductsCompare(cs, xs, ys);
      }
    }
  }

  // ---------------------------------------------------------------------------
  // The rule is sound
  // ---------------------------------------------------------------------------

  lemma {:induction false} EqualProducts(xs: seq<real>, ys: seq<real>)
    requires |xs| == |ys| && forall i :: 0 <= i < |xs| ==> Magnitude(xs[i]) == Magnitude(ys[i])
    ensures Magnitude(Product(xs)) == Magnitude(Product(ys))
  {
    if xs != [] {
      EqualProducts(xs[1..], ys[1..]);
      EqualStep(xs[0], ys[0], Product(xs[1..]), Product(ys[1..]));
    }
  }

  lemma EqualStep(x: real, y: real, p: real, q: real)
    requires Magnitude(x) == Magnitude(y) && Magnitude(p) == Magnitude(q)
    ensures Magnitude(Times(x, p)) == Magnitude(Times(y, q))
  {
    MagnitudeProduct(x, p);
    MagnitudeProduct(y, q);
  }

  function Values(ts: seq<Term>, v: Valuation): (r: seq<real>)
    ensures |r| == |ts| && forall i :: 0 <= i < |ts| ==> r[i] == Value(ts[i], v)
  {
    seq(|ts|, i requires 0 <= i < |ts| => Value(ts[i], v))
  }

  lemma {:induction false} ProductOfValues(ts: seq<Term>, v: Valuation)
    ensures ProductOf(ts, v) == Product(Values(ts, v))
  {
    if ts != [] {
      assert Values(ts, v)[1..] == Values(ts[1..], v);
      ProductOfValues(ts[1..], v);
    }
  }

  lemma MkProductValue(ts: seq<Term>, v: Valuation)
    requires ts != []
    ensures Value(MkProduct(ts), v) == Product(Values(ts, v))
  {
    ProductOfValues(ts, v);
    if |ts| == 1 {
      assert Product(Values(ts, v)[1..]) == 1.0;
    }
  }

  /** How the factors of an accepted premise compare. */
  function Kind(c: Formula): Comparison {
    if c.Greater? || (c.And? && c.fs != [] && c.fs[0].Greater?) then Strict else NonzeroTie
  }

  lemma FactorsCompare(strict: bool, c: Formula, v: Valuation)
    requires Factors(strict, c).Some? && Holds(c, v)
    ensures var (l, r) := Factors(strict, c).value;
            if strict then Compares(Kind(c), Value(l, v), Value(r, v))
            else Magnitude(Value(l, v)) == Magnitude(Value(r, v))
  {
    if c.And? {
      assert Holds(c.fs[0], v) && Holds(c.fs[1], v);
      assert !Holds(c.fs[1].f, v);
    }
  }

  lemma {:induction false} AllFactorsCompare(strict: bool, cs: seq<Formula>, v: Valuation, k: nat)
    requires CollectFactors(strict, cs).Some? && k < |cs|
    requires forall i :: 0 <= i < |cs| ==> Holds(cs[i], v)
    ensures var (ls, rs) := CollectFactors(strict, cs).value;
            if strict then Compares(Kind(cs[k]), Value(ls[k], v), Value(rs[k], v))
            else Magnitude(Value(ls[k], v)) == Magnitude(Value(rs[k], v))
  {
    if k == 0 {
      FactorsCompare(strict, cs[0], v);
    } else {
      AllFactorsCompare(strict, cs[1..], v, k - 1);
    }
  }

  /** Whatever the rule concludes follows from its premises, for any number of them. */
  lemma Sound(cs: seq<Formula>, v: Valuation)
    requires Conclusion(cs).Some?
    requires forall i :: 0 <= i < |cs| ==> Holds(cs[i], v)
    ensures Holds(Conclusion(cs).value, v)
  {
    var strict := cs[0].Greater?;
    var (ls, rs) := CollectFactors(strict, cs).value;
    var xs, ys := Values(ls, v), Values(rs, v);
    MkProductValue(ls, v);
    MkProductValue(rs, v);
    forall k: nat | k < |cs|
      ensures if strict then Compares(Kind(cs[k]), xs[k], ys[k]) else Magnitude(xs[k]) == Magnitude(ys[k])
    {
      AllFactorsCompare(strict, cs, v, k);
    }
    if strict {
      var kinds := seq(|cs|, i requires 0 <= i < |cs| => Kind(cs[i]));
      assert kinds[0] == Strict && Tie !in kinds;
      LiftsIff(kinds);
      assert AllCompare(kinds, xs, ys);
    } else {
      EqualProducts(xs, ys);
    }
  }

  // ---------------------------------------------------------------------------
  // The rule concludes what lifts
  // ---------------------------------------------------------------------------

  /** A constant factor is one, and then the other factor is no constant. */
  predicate Admissible(l: Term, r: Term) {
    (l.Num? ==> l.r == 1.0 && !r.Num?) && (r.Num? ==> r.r == 1.0 && !l.Num?)
  }

  /** The comparison with some term guarded to be non-zero. */
  ghost predicate IsGuarded(c: Formula, lit: Formula) {
    exists t :: c == And([lit, Not(Equal(t, Num(0.0)))])
  }

  lemma GuardedAre(c: Formula)
    requires c.And? && |c.fs| == 2 && DisequalZero(c.fs[1]).Some?
    ensures IsGuarded(c, c.fs[0])
  {
    assert c.fs == [c.fs[0], Not(Equal(c.fs[1].f.a, Num(0.0)))];
  }

  /** The premises that are accepted, with the factors that they contribute. */
  lemma FactorsIff(strict: bool, c: Formula, l: Term, r: Term)
    ensures Factors(strict, c) == Some((l, r)) <==>
            && (l.Num? ==> l.r == 1.0 && !r.Num?) && (r.Num? ==> r.r == 1.0 && !l.Num?)
            && if strict then
                 || c == Greater(Abs(l), Abs(r)) || IsGuarded(c, Greater(Abs(l), Abs(r)))
                 || c == And([Equal(Abs(l), Abs(r)), Not(Equal(l, Num(0.0)))])
               else c == Equal(Abs(l), Abs(r)) || IsGuarded(c, Equal(Abs(l), Abs(r)))
  {
    if Factors(strict, c) == Some((l, r)) && c.And? {
      GuardedAre(c);
      assert c.fs == [c.fs[0], Not(Equal(c.fs[1].f.a, Num(0.0)))];
    }
  }

  /** Two factors, compared in one of the three ways. */
  function Premise(kind: Comparison, l: Term, r: Term): Formula {
    match kind
    case Strict => Greater(Abs(l), Abs(r))
    case Tie => Equal(Abs(l), Abs(r))
    case NonzeroTie => And([Equal(Abs(l), Abs(r)), Not(Equal(l, Num(0.0)))])
  }

  function Premises(kinds: seq<Comparison>, ls: seq<Term>, rs: seq<Term>): seq<Formula>
    requires |kinds| == |ls| == |rs|
  {
    if kinds == [] then [] else [Premise(kinds[0], ls[0], rs[0])] + Premises(kinds[1..], ls[1..], rs[1..])
  }

  /** A premise says of the values of its factors what its kind says. */
  lemma PremiseHolds(kind: Comparison, l: Term, r: Term, v: Valuation)
    ensures Holds(Premise(kind, l, r), v) <==> Compares(kind, Value(l, v), Value(r, v))
  {
    if kind == NonzeroTie {
      var tie, guard := Equal(Abs(l), Abs(r)), Not(Equal(l, Num(0.0)));
      assert Holds(tie, v) <==> Magnitude(Value(l, v)) == Magnitude(Value(r, v));
      assert Holds(guard, v) <==> !Holds(guard.f, v);
      assert Value(Num(0.0), v) == 0.0;
      assert [tie, guard][0] == tie && [tie, guard][1] == guard;
    }
  }

  lemma PremiseFactors(strict: bool, kind: Comparison, l: Term, r: Term)
    ensures Factors(strict, Premise(kind, l, r)) ==
            if Admissible(l, r) && kind != (if strict then Tie else Strict) then Some((l, r)) else None
  {
  }

  predicate AllAdmissible(ls: seq<Term>, rs: seq<Term>)
    requires |ls| == |rs|
  {
    ls == [] || (Admissible(ls[0], rs[0]) && AllAdmissible(ls[1..], rs[1..]))
  }

  lemma {:induction false} PremisesFactors(strict: bool, kinds: seq<Comparison>, ls: seq<Term>, rs: seq<Term>)
    requires |kinds| == |ls| == |rs|
    ensures CollectFactors(strict, Premises(kinds, ls, rs)) ==
            if AllAdmissible(ls, rs) && (if strict then Tie else Strict) !in kinds then Some((ls, rs)) else None
  {
    if kinds != [] {
      PremiseFactors(strict, kinds[0], ls[0], rs[0]);
      PremisesFactors(strict, kinds[1..], ls[1..], rs[1..]);
      assert Premises(kinds, ls, rs)[1..] == Premises(kinds[1..], ls[1..], rs[1..]);
      assert [ls[0]] + ls[1..] == ls && [rs[0]] + rs[1..] == rs;
      var c := if strict then Tie else Strict;
      assert c in kinds <==> kinds[0] == c || c in kinds[1..];
    }
  }

  ghost predicate LiftsEqual(cs: seq<Comparison>) {
    forall xs, ys :: AllCompare(cs, xs, ys) ==> Magnitude(Product(xs)) == Magnitude(Product(ys))
  }

  /** An equality of the products follows exactly when no factor is compared strictly. */
  lemma LiftsEqualIff(cs: seq<Comparison>)
    ensures LiftsEqual(cs) <==> Strict !in cs
  {
    if Strict in cs {
      var xs := seq(|cs|, i requires 0 <= i < |cs| => if cs[i] == Strict then 2.0 else 1.0);
      var ys := seq(|cs|, i requires 0 <= i < |cs| => 1.0);
      assert AllCompare(cs, xs, ys);
      var strict := seq(|cs|, i requires 0 <= i < |cs| => if cs[i] == Strict then Strict else NonzeroTie);
      assert AllCompare(strict, xs, ys);
      var k :| 0 <= k < |cs| && cs[k] == Strict;
      assert strict[k] == Strict;
      ProductsCompare(strict, xs, ys);
    } else {
      forall xs, ys | AllCompare(cs, xs, ys) ensures Magnitude(Product(xs)) == Magnitude(Product(ys)) {
        EqualProducts(xs, ys);
      }
    }
  }

  /** For any list of factors: the rule concludes exactly when the comparison, strict or an
      equality as in the first premise, lifts from the kinds of the premises to the products
      of the factors; and it compares the products of just these. */
  lemma ConcludesIff(kinds: seq<Comparison>, ls: seq<Term>, rs: seq<Term>)
    requires |kinds| == |ls| == |rs| > 0
    ensures var r := Conclusion(Premises(kinds, ls, rs));
            match kinds[0] {
              case Strict => r.Some? <==> AllAdmissible(ls, rs) && Lifts(kinds)
              case Tie => r.Some? <==> AllAdmissible(ls, rs) && LiftsEqual(kinds)
              case NonzeroTie => r.None?
            }
    ensures var r := Conclusion(Premises(kinds, ls, rs));
            var l := Abs(if |ls| == 1 then ls[0] else Mult(ls));
            var q := Abs(if |rs| == 1 then rs[0] else Mult(rs));
            r.Some? ==> r.value == if kinds[0] == Strict then Greater(l, q) else Equal(l, q)
  {
    LiftsIff(kinds);
    LiftsEqualIff(kinds);
    PremisesFactors(kinds[0] == Strict, kinds, ls, rs);
    assert kinds[0] in kinds;
  }
}
