/** The sign of a monomial from the signs of its variables. */
module MonomialSign {
  import opened Wrappers

  datatype Relation = Less | Greater | Distinct

  /** A variable compared to zero. */
  datatype Fact = Fact(x: nat, rel: Relation)

  type Valuation = nat -> real

  predicate Compares(r: real, rel: Relation) {
    match rel
    case Less => r < 0.0
    case Greater => r > 0.0
    case Distinct => r != 0.0
  }

  /** The value of the monomial with these factors. */
  function Product(mon: seq<nat>, v: Valuation): real {
    if mon == [] then 1.0 else v(mon[0]) * Product(mon[1..], v)
  }

  predicate FactsHold(facts: seq<Fact>, v: Valuation) {
    forall i :: 0 <= i < |facts| ==> Compares(v(facts[i].x), facts[i].rel)
  }

  // ---------------------------------------------------------------------------
  // What ARITH_MULT_SIGN concludes
  // ---------------------------------------------------------------------------

  function Exponent(mon: seq<nat>, x: nat): nat {
    multiset(mon)[x]
  }

  predicate Odd(mon: seq<nat>, x: nat) {
    Exponent(mon, x) % 2 == 1
  }

  /** The factors, a run of equal ones taken once. */
  function Runs(mon: seq<nat>): seq<nat>
    decreases |mon|
  {
    if mon == [] then []
    else
      var most, last := Runs(mon[..|mon| - 1]), mon[|mon| - 1];
      if most == [] || last != most[|most| - 1] then most + [last] else most
  }

  lemma {:induction false} RunsMembers(mon: seq<nat>)
    ensures forall x :: x in mon <==> x in Runs(mon)
    decreases |mon|
  {
    if mon != [] {
      var most, last := mon[..|mon| - 1], mon[|mon| - 1];
      assert mon == most + [last];
      RunsMembers(most);
    }
  }

  /** The facts are about these variables, in this order. */
  predicate InOrder(facts: seq<Fact>, vars: seq<nat>) {
    |facts| == |vars| && forall i :: 0 <= i < |facts| ==> facts[i].x == vars[i]
  }

  predicate Mentions(facts: seq<Fact>, x: nat) {
    exists i :: 0 <= i < |facts| && facts[i].x == x
  }

  lemma MentionsTail(facts: seq<Fact>, x: nat)
    requires facts != []
    ensures Mentions(facts, x) <==> facts[0].x == x || Mentions(facts[1..], x)
  {
    if i :| 0 <= i < |facts| && facts[i].x == x {
      assert i > 0 ==> facts[1..][i - 1].x == x;
    }
    if i :| 0 <= i < |facts[1..]| && facts[1..][i].x == x { assert facts[i + 1].x == x; }
  }

  /** What the first fact about a variable says. */
  function FirstRelation(facts: seq<Fact>, x: nat): (r: Relation)
    requires Mentions(facts, x)
    ensures Fact(x, r) in facts
  {
    if facts[0].x == x then facts[0].rel
    else
      MentionsTail(facts, x);
      FirstRelation(facts[1..], x)
  }

  predicate About(facts: seq<Fact>, mon: seq<nat>) {
    forall x :: x in mon ==> Mentions(facts, x)
  }

  lemma InOrderIsAbout(facts: seq<Fact>, mon: seq<nat>)
    requires InOrder(facts, Runs(mon))
    ensures About(facts, mon)
  {
    RunsMembers(mon);
    forall x | x in mon ensures Mentions(facts, x) {
      var i :| 0 <= i < |Runs(mon)| && Runs(mon)[i] == x;
      assert facts[i].x == x;
    }
  }

  /** The variables of odd exponent whose first fact is `rel`. */
  function OddWith(facts: seq<Fact>, mon: seq<nat>, rel: Relation): set<nat>
    requires About(facts, mon)
  {
    set x | x in mon && Odd(mon, x) && FirstRelation(facts, x) == rel
  }

  /** The comparison of the monomial with zero, if one is concluded. */
  function Conclusion(facts: seq<Fact>, mon: seq<nat>): Option<Relation> {
    if !InOrder(facts, Runs(mon)) then None
    else
      InOrderIsAbout(facts, mon);
      if OddWith(facts, mon, Distinct) != {} then None
      else if |OddWith(facts, mon, Less)| % 2 == 1 then Some(Less)
      else Some(Greater)
  }

  // ---------------------------------------------------------------------------
  // The checker's loops
  // ---------------------------------------------------------------------------

  function SignOf(rel: Relation): int {
    match rel
    case Less => -1
    case Greater => 1
    case Distinct => 0
  }

  /** The map counts each factor. */
  ghost predicate Counts(exps: map<nat, nat>, mon: seq<nat>) {
    forall x :: (x in exps <==> x in mon) && (x in exps ==> exps[x] == Exponent(mon, x))
  }

  lemma CountOne(exps: map<nat, nat>, mon: seq<nat>, x: nat)
    requires Counts(exps, mon)
    ensures Counts(exps[x := (if x in exps then exps[x] else 0) + 1], mon + [x])
  {
    assert multiset(mon + [x]) == multiset(mon) + multiset{x};
    assert x !in mon ==> Exponent(mon, x) == 0;
    forall y ensures y in mon + [x] <==> y in mon || y == x {
    }
  }

  lemma OneMoreRun(mon: seq<nat>, x: nat)
    ensures Runs(mon + [x]) == if Runs(mon) == [] || x != Runs(mon)[|Runs(mon)| - 1] then Runs(mon) + [x] else Runs(mon)
  {
    assert (mon + [x])[..|mon|] == mon;
  }

  method CollectFactors(mon: seq<nat>) returns (vars: seq<nat>, exps: map<nat, nat>)
    ensures vars == Runs(mon) && Counts(exps, mon)
  {
    vars, exps := [], map[];
    for i := 0 to |mon|
      invariant vars == Runs(mon[..i]) && Counts(exps, mon[..i])
    {
      var x := mon[i];
      CountOne(exps, mon[..i], x);
      OneMoreRun(mon[..i], x);
      assert mon[..i + 1] == mon[..i] + [x];
      if vars == [] || x != vars[|vars| - 1] { vars := vars + [x]; }
      exps := exps[x := (if x in exps then exps[x] else 0) + 1];
    }
    assert mon[..|mon|] == mon;
  }

  ghost predicate SignsOf(signs: map<nat, int>, facts: seq<Fact>) {
    && (forall x :: x in signs <==> Mentions(facts, x))
    && forall x :: x in signs ==> Mentions(facts, x) && signs[x] == SignOf(FirstRelation(facts, x))
  }

  /** The signs of the variables, or none if a fact is not about the variable at its position. */
  method CollectSigns(facts: seq<Fact>, vars: seq<nat>) returns (signs: Option<map<nat, int>>)
    requires |facts| == |vars|
    ensures signs.Some? <==> InOrder(facts, vars)
    ensures signs.Some? ==> SignsOf(signs.value, facts)
  {
    var found: map<nat, int> := map[];
    for i := 0 to |facts|
      invariant forall j :: 0 <= j < i ==> facts[j].x == vars[j]
      invariant SignsOf(found, facts[..i])
    {
      var f := facts[i];
      if f.x != vars[i] { return None; }
      AddedFact(found, facts[..i], f);
      if f.x !in found { found := found[f.x := SignOf(f.rel)]; }
      assert facts[..i + 1] == facts[..i] + [f];
    }
    assert facts[..|facts|] == facts;
    return Some(found);
  }

  lemma AddedFact(signs: map<nat, int>, facts: seq<Fact>, f: Fact)
    requires SignsOf(signs, facts)
    ensures SignsOf(if f.x in signs then signs else signs[f.x := SignOf(f.rel)], facts + [f])
  {
    forall x ensures Mentions(facts + [f], x) <==> Mentions(facts, x) || f.x == x {
      MentionsMore(facts, f, x);
    }
    forall x | Mentions(facts + [f], x)
      ensures FirstRelation(facts + [f], x) == if Mentions(facts, x) then FirstRelation(facts, x) else f.rel
    {
      FirstOfExtended(facts, f, x);
    }
  }

  lemma MentionsMore(facts: seq<Fact>, f: Fact, x: nat)
    ensures Mentions(facts + [f], x) <==> Mentions(facts, x) || f.x == x
  {
    if i :| 0 <= i < |facts| && facts[i].x == x { assert (facts + [f])[i].x == x; }
    assert (facts + [f])[|facts|] == f;
  }

  lemma {:induction false} FirstOfExtended(facts: seq<Fact>, f: Fact, x: nat)
    requires Mentions(facts + [f], x)
    ensures FirstRelation(facts + [f], x) == if Mentions(facts, x) then FirstRelation(facts, x) else f.rel
  {
    MentionsMore(facts, f, x);
    if facts != [] && facts[0].x != x {
      assert (facts + [f])[1..] == facts[1..] + [f];
      MentionsTail(facts, x);
      MentionsTail(facts + [f], x);
      FirstOfExtended(facts[1..], f, x);
    }
  }

  /** The sign when these variables of odd exponent are known to be non-zero, and these negative. */
  function SignFrom(zero: set<nat>, less: set<nat>): int {
    if zero != {} then 0 else if |less| % 2 == 1 then -1 else 1
  }

  /** The product of the signs over the exponents, which may be visited in any order. */
  method MultiplySigns(facts: seq<Fact>, mon: seq<nat>, exps: map<nat, nat>, signs: map<nat, int>) returns (sign: int)
    requires About(facts, mon) && Counts(exps, mon) && SignsOf(signs, facts)
    ensures sign == SignFrom(OddWith(facts, mon, Distinct), OddWith(facts, mon, Less))
  {
    sign := 1;
    var todo := exps.Keys;
    ghost var zero, less := OddWith(facts, mon, Distinct), OddWith(facts, mon, Less);
    assert zero - todo == {} && less - todo == {};
    while todo != {}
      invariant todo <= exps.Keys
      invariant sign == SignFrom(zero - todo, less - todo)
      decreases |todo|
    {
      var x :| x in todo;
      SignAndSets(facts, mon, x);
      OneMoreSign(zero, less, todo, x);
      if exps[x] % 2 == 1 { sign := sign * signs[x]; }
      todo := todo - {x};
    }
    assert zero - todo == zero && less - todo == less;
  }

  lemma SignAndSets(facts: seq<Fact>, mon: seq<nat>, x: nat)
    requires About(facts, mon) && x in mon
    ensures var zero, less := OddWith(facts, mon, Distinct), OddWith(facts, mon, Less);
            && !(x in zero && x in less)
            && (Odd(mon, x) ==> SignOf(FirstRelation(facts, x)) == Factor(zero, less, x))
            && (!Odd(mon, x) ==> Factor(zero, less, x) == 1)
  {
  }

  function Factor(zero: set<nat>, less: set<nat>, x: nat): int {
    if x in zero then 0 else if x in less then -1 else 1
  }

  lemma OneMoreSign(zero: set<nat>, less: set<nat>, todo: set<nat>, x: nat)
    requires x in todo && !(x in zero && x in less)
    ensures SignFrom(zero - (todo - {x}), less - (todo - {x}))
            == SignFrom(zero - todo, less - todo) * Factor(zero, less, x)
  {
    var z, l := zero - todo, less - todo;
    if x in zero {
      assert zero - (todo - {x}) == z + {x};
    } else if x in less {
      assert zero - (todo - {x}) == z && less - (todo - {x}) == l + {x};
      assert |l + {x}| == |l| + 1;
    } else {
      assert zero - (todo - {x}) == z && less - (todo - {x}) == l;
    }
  }

  /** ARITH_MULT_SIGN. */
  method Check(facts: seq<Fact>, mon: seq<nat>) returns (r: Option<Relation>)
    ensures r == Conclusion(facts, mon)
  {
    var vars, exps := CollectFactors(mon);
    if |vars| != |facts| { return None; }
    var signs := CollectSigns(facts, vars);
    if signs.None? { return None; }
    InOrderIsAbout(facts, mon);
    var sign := MultiplySigns(facts, mon, exps, signs.value);
    return if sign == -1 then Some(Less) else if sign == 1 then Some(Greater) else None;
  }

  // ---------------------------------------------------------------------------
  // The conclusion is exactly what the facts entail
  // ---------------------------------------------------------------------------

  function Negative(mon: seq<nat>, v: Valuation): set<nat> {
    set x | x in mon && v(x) < 0.0 && Odd(mon, x)
  }

  /** A product of non-zero factors is negative when an odd number of its variables of odd
      exponent are. */
  lemma {:induction false} SignByParity(mon: seq<nat>, v: Valuation)
    requires forall x :: x in mon ==> v(x) != 0.0
    ensures |Negative(mon, v)| % 2 == 1 ==> Product(mon, v) < 0.0
    ensures |Negative(mon, v)| % 2 == 0 ==> Product(mon, v) > 0.0
  {
    if mon == [] {
      assert Negative(mon, v) == {};
    } else {
      var x, rest := mon[0], mon[1..];
      assert mon == [x] + rest;
      SignByParity(rest, v);
      SignStep(x, rest, v);
    }
  }

  lemma SignStep(x: nat, rest: seq<nat>, v: Valuation)
    requires v(x) != 0.0 && Product(rest, v) != 0.0
    requires Product(rest, v) < 0.0 <==> |Negative(rest, v)| % 2 == 1
    ensures v(x) * Product(rest, v) < 0.0 <==> |Negative([x] + rest, v)| % 2 == 1
    ensures v(x) * Product(rest, v) != 0.0
  {
    NegativeParity(x, rest, v);
    SignOfProduct(v(x), Product(rest, v));
  }

  lemma NegativeParity(x: nat, rest: seq<nat>, v: Valuation)
    ensures |Negative([x] + rest, v)| % 2 == 1 <==> (|Negative(rest, v)| % 2 == 1) != (v(x) < 0.0)
  {
    NegativeStep(x, rest, v);
  }

  lemma SignOfProduct(a: real, b: real)
    requires a != 0.0 && b != 0.0
    ensures if (a < 0.0) == (b < 0.0) then a * b > 0.0 else a * b < 0.0
  {
  }

  lemma OddStep(x: nat, rest: seq<nat>, y: nat)
    ensures Odd([x] + rest, y) <==> (Odd(rest, y) != (x == y))
    ensures y in [x] + rest <==> y == x || y in rest
    ensures Odd(rest, y) ==> y in rest
  {
    assert multiset([x] + rest) == multiset{x} + multiset(rest);
    assert y !in rest ==> Exponent(rest, y) == 0;
  }

  /** One more factor toggles its membership among the negative variables of odd exponent. */
  lemma NegativeStep(x: nat, rest: seq<nat>, v: Valuation)
    ensures var before, after := Negative(rest, v), Negative([x] + rest, v);
            if v(x) >= 0.0 then after == before
            else if x in before then |after| == |before| - 1
            else |after| == |before| + 1
  {
    var before, after := Negative(rest, v), Negative([x] + rest, v);
    forall y: nat ensures y in after <==> (y in before) != (y == x && v(x) < 0.0) {
      OddStep(x, rest, y);
    }
    if v(x) >= 0.0 {
      assert after == before;
    } else if x in before {
      assert after == before - {x};
    } else {
      assert after == before + {x};
    }
  }

  lemma FirstHolds(facts: seq<Fact>, mon: seq<nat>, v: Valuation, x: nat)
    requires About(facts, mon) && FactsHold(facts, v) && x in mon
    ensures Compares(v(x), FirstRelation(facts, x))
  {
    var i :| 0 <= i < |facts| && facts[i] == Fact(x, FirstRelation(facts, x));
  }

  /** Whatever is concluded follows from the facts, whatever the exponents and the order of
      the factors. */
  lemma Sound(facts: seq<Fact>, mon: seq<nat>, v: Valuation)
    requires Conclusion(facts, mon).Some? && FactsHold(facts, v)
    ensures Compares(Product(mon, v), Conclusion(facts, mon).value)
  {
    InOrderIsAbout(facts, mon);
    forall x | x in mon ensures Compares(v(x), FirstRelation(facts, x)) {
      FirstHolds(facts, mon, v, x);
    }
    SignByParity(mon, v);
    forall x | x in mon && Odd(mon, x)
      ensures v(x) < 0.0 <==> FirstRelation(facts, x) == Less
    {
      assert x !in OddWith(facts, mon, Distinct);
    }
    assert Negative(mon, v) == OddWith(facts, mon, Less);
  }

  ghost predicate Entails(facts: seq<Fact>, mon: seq<nat>, rel: Relation) {
    forall v: Valuation :: FactsHold(facts, v) ==> Compares(Product(mon, v), rel)
  }

  predicate NoRepeats(facts: seq<Fact>) {
    forall i, j :: 0 <= i < j < |facts| ==> facts[i].x != facts[j].x
  }

  /** A valuation that meets the facts, and in which the variables of `below` that are only
      known to be non-zero are negative. */
  function Witness(facts: seq<Fact>, below: set<nat>): Valuation {
    (x: nat) => if x in below || Fact(x, Less) in facts then -1.0 else 1.0
  }

  lemma WitnessHolds(facts: seq<Fact>, below: set<nat>)
    requires NoRepeats(facts)
    requires forall x :: x in below ==> Fact(x, Distinct) in facts
    ensures FactsHold(facts, Witness(facts, below))
  {
    forall i | 0 <= i < |facts| ensures Compares(Witness(facts, below)(facts[i].x), facts[i].rel) {
      assert facts[i] == Fact(facts[i].x, facts[i].rel);
      if Fact(facts[i].x, Less) in facts { OneFact(facts, facts[i].x, facts[i].rel, Less); }
      if facts[i].x in below { OneFact(facts, facts[i].x, facts[i].rel, Distinct); }
    }
  }

  lemma OneFact(facts: seq<Fact>, x: nat, a: Relation, b: Relation)
    requires NoRepeats(facts) && Fact(x, a) in facts && Fact(x, b) in facts
    ensures a == b
  {
    var i :| 0 <= i < |facts| && facts[i] == Fact(x, a);
    var j :| 0 <= j < |facts| && facts[j] == Fact(x, b);
  }

  /** A variable of odd exponent that is only known to be non-zero leaves both signs open. */
  lemma BothSigns(facts: seq<Fact>, mon: seq<nat>, x: nat)
    requires NoRepeats(facts) && About(facts, mon)
    requires x in OddWith(facts, mon, Distinct)
    ensures !Entails(facts, mon, Less) && !Entails(facts, mon, Greater)
  {
    var up, down := Witness(facts, {}), Witness(facts, {x});
    WitnessHolds(facts, {});
    WitnessHolds(facts, {x});
    if Fact(x, Less) in facts { OneFact(facts, x, Distinct, Less); }
    assert up(x) == 1.0 && down(x) == -1.0;
    Toggled(mon, up, down, x);
    SignByParity(mon, up);
    SignByParity(mon, down);
  }

  lemma Toggled(mon: seq<nat>, up: Valuation, down: Valuation, x: nat)
    requires x in mon && Odd(mon, x) && up(x) > 0.0 && down(x) < 0.0
    requires forall y: nat :: y != x ==> up(y) == down(y)
    ensures |Negative(mon, down)| == |Negative(mon, up)| + 1
  {
    assert Negative(mon, down) == Negative(mon, up) + {x};
  }

  /** With the facts in the order of the variables and none repeated, the rule concludes a
      sign exactly when the facts determine it. */
  lemma ConcludesWhatIsEntailed(facts: seq<Fact>, mon: seq<nat>, rel: Relation)
    requires InOrder(facts, Runs(mon)) && NoRepeats(facts) && rel != Distinct
    ensures Conclusion(facts, mon) == Some(rel) <==> Entails(facts, mon, rel)
  {
    InOrderIsAbout(facts, mon);
    if Conclusion(facts, mon) == Some(rel) {
      forall v: Valuation | FactsHold(facts, v) ensures Compares(Product(mon, v), rel) {
        Sound(facts, mon, v);
      }
    } else if Conclusion(facts, mon).Some? {
      WitnessHolds(facts, {});
      Sound(facts, mon, Witness(facts, {}));
    } else {
      var x :| x in OddWith(facts, mon, Distinct);
      BothSigns(facts, mon, x);
    }
  }

  // ---------------------------------------------------------------------------
  // The rule as it is documented
  // ---------------------------------------------------------------------------

  function LessFacts(facts: seq<Fact>): nat {
    if facts == [] then 0 else (if facts[0].rel == Less then 1 else 0) + LessFacts(facts[1..])
  }

  /** The `<` fact counts towards the sign, or not, as its variable's exponent is odd or even. */
  predicate IsLess(f: Fact, mon: seq<nat>, odd: bool) {
    f.rel == Less && Odd(mon, f.x) == odd
  }

  /** The number of `<` facts on variables of odd, or of even, exponent. */
  function LessOn(facts: seq<Fact>, mon: seq<nat>, odd: bool): nat {
    if facts == [] then 0 else (if IsLess(facts[0], mon, odd) then 1 else 0) + LessOn(facts[1..], mon, odd)
  }

  lemma {:induction false} LessParts(facts: seq<Fact>, mon: seq<nat>)
    ensures LessFacts(facts) == LessOn(facts, mon, true) + LessOn(facts, mon, false)
  {
    if facts != [] { LessParts(facts[1..], mon); }
  }

  function OddLess(facts: seq<Fact>, mon: seq<nat>): set<nat> {
    set i | 0 <= i < |facts| && IsLess(facts[i], mon, true) :: facts[i].x
  }

  lemma OddLessStep(f: Fact, rest: seq<Fact>, mon: seq<nat>)
    ensures OddLess([f] + rest, mon) == OddLess(rest, mon) + if IsLess(f, mon, true) then {f.x} else {}
  {
    var facts := [f] + rest;
    forall x ensures x in OddLess(facts, mon) <==> x in OddLess(rest, mon) || (IsLess(f, mon, true) && x == f.x) {
      if i :| 0 <= i < |rest| && IsLess(rest[i], mon, true) && rest[i].x == x { assert facts[i + 1] == rest[i]; }
      if i :| 0 <= i < |facts| && IsLess(facts[i], mon, true) && facts[i].x == x {
        assert i > 0 ==> rest[i - 1] == facts[i];
      }
      assert facts[0] == f;
    }
  }

  lemma TailNoRepeats(f: Fact, rest: seq<Fact>, mon: seq<nat>)
    requires NoRepeats([f] + rest)
    ensures NoRepeats(rest) && f.x !in OddLess(rest, mon)
  {
    var facts := [f] + rest;
    assert facts[0] == f;
    forall i | 0 <= i < |rest| ensures rest[i].x != f.x {
      assert facts[i + 1] == rest[i];
    }
    forall i, j | 0 <= i < j < |rest| ensures rest[i].x != rest[j].x {
      assert facts[i + 1] == rest[i] && facts[j + 1] == rest[j];
    }
  }

  lemma {:induction false} OddLessCount(facts: seq<Fact>, mon: seq<nat>)
    requires NoRepeats(facts)
    ensures |OddLess(facts, mon)| == LessOn(facts, mon, true)
  {
    if facts != [] {
      var f, rest := facts[0], facts[1..];
      assert facts == [f] + rest;
      TailNoRepeats(f, rest, mon);
      OddLessCount(rest, mon);
      OddLessStep(f, rest, mon);
    }
  }

  /** The variables that make the sign negative are those of the `<` facts on odd exponents. */
  lemma SignVariables(facts: seq<Fact>, mon: seq<nat>)
    requires InOrder(facts, Runs(mon)) && NoRepeats(facts) && About(facts, mon)
    ensures OddWith(facts, mon, Less) == OddLess(facts, mon)
  {
    RunsMembers(mon);
    forall i | 0 <= i < |facts| && IsLess(facts[i], mon, true) ensures facts[i].x in OddWith(facts, mon, Less) {
      assert Runs(mon)[i] in Runs(mon);
      assert facts[i] in facts;
      OneFact(facts, facts[i].x, Less, FirstRelation(facts, facts[i].x));
    }
    forall x | x in OddWith(facts, mon, Less) ensures x in OddLess(facts, mon) {
      var i :| 0 <= i < |facts| && facts[i] == Fact(x, Less);
    }
  }

  /** Of what is accepted, without repeated facts, the sign is the documented parity of the
      `<` facts exactly when an even number of them is on variables of even exponent. */
  lemma ParityIff(facts: seq<Fact>, mon: seq<nat>)
    requires Conclusion(facts, mon).Some? && NoRepeats(facts)
    ensures Conclusion(facts, mon) == Some(if LessFacts(facts) % 2 == 1 then Less else Greater)
            <==> LessOn(facts, mon, false) % 2 == 0
  {
    InOrderIsAbout(facts, mon);
    SignVariables(facts, mon);
    OddLessCount(facts, mon);
    LessParts(facts, mon);
  }

  /** `x < 0` on the square of `x`: one `<` fact, and the square is positive. */
  lemma ParityFails(x: nat)
    ensures var facts, mon := [Fact(x, Less)], [x, x];
            Conclusion(facts, mon) == Some(Greater) && LessFacts(facts) == 1
  {
    var facts, mon := [Fact(x, Less)], [x, x];
    assert [x][..0] == [] && Runs([x]) == [] + [x];
    assert mon[..1] == [x] && Runs(mon) == [x];
    InOrderIsAbout(facts, mon);
    assert Exponent(mon, x) == 2;
    assert facts[1..] == [];
    forall rel ensures OddWith(facts, mon, rel) == {} { }
  }

  /** When the variables of even exponent are given as non-zero and the others by their sign,
      the monomial is negative exactly when the number of `<` facts is odd. */
  lemma DocumentedParity(facts: seq<Fact>, mon: seq<nat>)
    requires InOrder(facts, Runs(mon)) && NoRepeats(facts)
    requires forall i :: 0 <= i < |facts| ==> (facts[i].rel == Distinct <==> !Odd(mon, facts[i].x))
    ensures Conclusion(facts, mon) == Some(if LessFacts(facts) % 2 == 1 then Less else Greater)
  {
    InOrderIsAbout(facts, mon);
    RunsMembers(mon);
    forall x | x in mon
      ensures FirstRelation(facts, x) == Distinct <==> !Odd(mon, x)
    {
      var i :| 0 <= i < |facts| && facts[i] == Fact(x, FirstRelation(facts, x));
    }
    assert OddWith(facts, mon, Distinct) == {};
    NoneOnEven(facts, mon);
    ParityIff(facts, mon);
  }

  lemma {:induction false} NoneOnEven(facts: seq<Fact>, mon: seq<nat>)
    requires forall i :: 0 <= i < |facts| ==> !IsLess(facts[i], mon, false)
    ensures LessOn(facts, mon, false) == 0
  {
    if facts != [] { NoneOnEven(facts[1..], mon); }
  }

  // ---------------------------------------------------------------------------
  // What the first two loops collect
  // ---------------------------------------------------------------------------

  function Copies(x: nat, k: nat): (r: seq<nat>)
    ensures |r| == k && forall i :: 0 <= i < k ==> r[i] == x
  {
    seq(k, i => x)
  }

  function Expanded(vars: seq<nat>, ks: seq<nat>): seq<nat>
    requires |vars| == |ks|
  {
    if vars == [] then []
    else
      var n := |vars| - 1;
      Expanded(vars[..n], ks[..n]) + Copies(vars[n], ks[n])
  }

  /** Neighbouring runs differ. */
  lemma {:induction false} RunsDiffer(mon: seq<nat>)
    ensures forall i :: 0 < i < |Runs(mon)| ==> Runs(mon)[i] != Runs(mon)[i - 1]
    decreases |mon|
  {
    if mon != [] {
      var front, last := mon[..|mon| - 1], mon[|mon| - 1];
      assert mon == front + [last];
      RunsDiffer(front);
      OneMoreRun(front, last);
    }
  }

  predicate AtLeastOne(ks: seq<nat>) {
    forall i :: 0 <= i < |ks| ==> ks[i] >= 1
  }

  /** The monomial is its runs, each repeated at least once. */
  lemma {:induction false} RunsExpand(mon: seq<nat>) returns (ks: seq<nat>)
    ensures |ks| == |Runs(mon)| && AtLeastOne(ks) && Expanded(Runs(mon), ks) == mon
    decreases |mon|
  {
    if mon == [] {
      ks := [];
    } else {
      var front, last := mon[..|mon| - 1], mon[|mon| - 1];
      var before := RunsExpand(front);
      assert mon == front + [last];
      OneMoreRun(front, last);
      ks := ExpandOne(Runs(front), before, last);
    }
  }

  /** One factor more starts a run or lengthens the last. */
  lemma ExpandOne(vars: seq<nat>, ks: seq<nat>, x: nat) returns (more: seq<nat>)
    requires |vars| == |ks| && AtLeastOne(ks)
    ensures AtLeastOne(more)
    ensures var runs := if vars == [] || x != vars[|vars| - 1] then vars + [x] else vars;
            |more| == |runs| && Expanded(runs, more) == Expanded(vars, ks) + [x]
  {
    if vars == [] || x != vars[|vars| - 1] {
      more := ks + [1];
      NextRun(vars, ks, x);
    } else {
      more := ks[|ks| - 1 := ks[|ks| - 1] + 1];
      LongerRun(vars, ks);
    }
  }

  lemma NextRun(vars: seq<nat>, ks: seq<nat>, x: nat)
    requires |vars| == |ks|
    ensures Expanded(vars + [x], ks + [1]) == Expanded(vars, ks) + [x]
  {
    assert (vars + [x])[..|vars|] == vars && (ks + [1])[..|ks|] == ks;
    assert Copies(x, 1) == [x];
  }

  lemma LongerRun(vars: seq<nat>, ks: seq<nat>)
    requires |vars| == |ks| > 0
    ensures var n := |ks| - 1; Expanded(vars, ks[n := ks[n] + 1]) == Expanded(vars, ks) + [vars[n]]
  {
    var n := |ks| - 1;
    assert ks[n := ks[n] + 1][..n] == ks[..n];
    assert Copies(vars[n], ks[n] + 1) == Copies(vars[n], ks[n]) + [vars[n]];
    assert Expanded(vars[..n], ks[..n]) + (Copies(vars[n], ks[n]) + [vars[n]]) ==
           (Expanded(vars[..n], ks[..n]) + Copies(vars[n], ks[n])) + [vars[n]];
  }

  /** The sign of a variable is that of the first fact about it. */
  lemma {:induction false} FirstRelationIs(facts: seq<Fact>, x: nat) returns (i: nat)
    requires Mentions(facts, x)
    ensures i < |facts| && facts[i] == Fact(x, FirstRelation(facts, x))
    ensures forall j :: 0 <= j < i ==> facts[j].x != x
  {
    i := 0;
    if facts[0].x != x {
      MentionsTail(facts, x);
      i := FirstRelationIs(facts[1..], x);
      assert forall j :: 0 < j < |facts| ==> facts[j] == facts[1..][j - 1];
      i := i + 1;
    }
  }

  /** A sign is concluded exactly when the facts are about the runs, one by one in their order, and
      the first fact about each variable of odd exponent gives its sign. */
  lemma ConcludesIff(facts: seq<Fact>, mon: seq<nat>)
    ensures Conclusion(facts, mon).Some? <==>
            && |facts| == |Runs(mon)| && (forall i :: 0 <= i < |facts| ==> facts[i].x == Runs(mon)[i])
            && forall i | 0 <= i < |facts| && multiset(mon)[facts[i].x] % 2 == 1 && IsFirst(facts, i) ::
                 facts[i].rel != Distinct
  {
    if InOrder(facts, Runs(mon)) {
      InOrderIsAbout(facts, mon);
      RunsMembers(mon);
      forall x | x in mon && Odd(mon, x) && FirstRelation(facts, x) == Distinct
        ensures exists i :: 0 <= i < |facts| && IsFirst(facts, i) && facts[i] == Fact(x, Distinct)
      {
        var i := FirstRelationIs(facts, x);
      }
      forall i | 0 <= i < |facts| && IsFirst(facts, i) && Odd(mon, facts[i].x) && facts[i].rel == Distinct
        ensures facts[i].x in OddWith(facts, mon, Distinct)
      {
        assert Runs(mon)[i] in Runs(mon);
        var k := FirstRelationIs(facts, facts[i].x);
      }
    }
  }

  predicate IsFirst(facts: seq<Fact>, i: nat)
    requires i < |facts|
  {
    forall j :: 0 <= j < i ==> facts[j].x != facts[i].x
  }
}
