/** The chain rules reduce to RESOLUTION, FACTORING and REORDERING. */
module ChainResolution {
  import opened Wrappers
  import opened BooleanRules
  import opened ProofSoundness

  // ---------------------------------------------------------------------------
  // CHAIN_RESOLUTION is iterated RESOLUTION
  // ---------------------------------------------------------------------------

  function Fold(c: Term, cs: seq<Term>, pols: seq<bool>, lits: seq<Term>): Term
    requires |cs| == |pols| == |lits|
    decreases |cs|
  {
    if cs == [] then c else Fold(Resolve(c, cs[0], pols[0], lits[0]), cs[1..], pols[1..], lits[1..])
  }

  /** A clause that contains the pivot is read back from its node unchanged. */
  lemma NodeOfClause(ls: seq<Term>, x: Term)
    requires x in ls
    ensures Literals(MkOr(ls), x) == ls
  {
    if |ls| > 1 {
      assert x < Or(ls);
    }
  }

  lemma {:induction false} ChainIsFold(lhs: seq<Term>, cs: seq<Term>, pols: seq<bool>, lits: seq<Term>)
    requires |cs| == |pols| == |lits| && Chain(lhs, cs, pols, lits).Some?
    ensures Fold(MkOr(lhs), cs, pols, lits) == MkOr(Chain(lhs, cs, pols, lits).value)
    decreases |cs|
  {
    if cs != [] {
      var x, y := LeftPivot(pols[0], lits[0]), RightPivot(pols[0], lits[0]);
      NodeOfClause(lhs, x);
      ChainIsFold(RemoveFirst(lhs, x) + RemoveFirst(Literals(cs[0], y), y), cs[1..], pols[1..], lits[1..]);
    }
  }

  /** A disjunction has two children or more, as node construction guarantees. */
  predicate ProperDisjunction(t: Term) {
    t.Or? ==> |t.ts| >= 2
  }

  /** What CHAIN_RESOLUTION accepts is what resolving the premises one after the other gives. */
  lemma ChainResolutionIsIterated(ps: seq<Term>, pols: seq<bool>, lits: seq<Term>)
    requires Check(CHAIN_RESOLUTION(pols, lits), ps).Some? && ProperDisjunction(ps[0])
    ensures |pols| == |lits| == |ps| - 1
    ensures Check(CHAIN_RESOLUTION(pols, lits), ps) == Some(Fold(ps[0], ps[1..], pols, lits))
  {
    var first := Literals(ps[0], LeftPivot(pols[0], lits[0]));
    assert MkOr(first) == ps[0];
    ChainIsFold(first, ps[1..], pols, lits);
  }

  // ---------------------------------------------------------------------------
  // Derivations
  // ---------------------------------------------------------------------------

  predicate Basic(p: Proof) {
    && (p.rule.ASSUME? || p.rule.RESOLUTION? || p.rule.FACTORING? || p.rule.REORDERING?)
    && forall i :: 0 <= i < |p.children| ==> Basic(p.children[i])
  }

  /** `t` has a proof from the premises with no rule but the three basic ones. */
  ghost predicate Derivable(premises: set<Term>, t: Term) {
    exists p :: Basic(p) && Conclude(p) == Some(t) && FreeAssumptions(p) <= premises
  }

  lemma FromPremise(premises: set<Term>, t: Term)
    requires t in premises
    ensures Derivable(premises, t)
  {
    var p := Step(ASSUME(t), []);
    assert ConcludeAll([]) == Some([]);
    assert Basic(p) && Conclude(p) == Some(t) && FreeAssumptions(p) == {t};
  }

  lemma ByOne(premises: set<Term>, rule: Rule, a: Term, t: Term)
    requires Derivable(premises, a) && (rule.FACTORING? || rule.REORDERING?) && Check(rule, [a]) == Some(t)
    ensures Derivable(premises, t)
  {
    var p :| Basic(p) && Conclude(p) == Some(a) && FreeAssumptions(p) <= premises;
    var q := Step(rule, [p]);
    assert [p][1..] == [] && ConcludeAll([]) == Some([]) && AllFree([]) == {};
    assert ConcludeAll([p]) == Some([a] + []) && [a] + [] == [a];
    assert AllFree([p]) == FreeAssumptions(p) + AllFree([p][1..]);
    assert Basic(q) && Conclude(q) == Some(t) && FreeAssumptions(q) <= premises;
  }

  lemma ByResolution(premises: set<Term>, a: Term, b: Term, pol: bool, lit: Term)
    requires Derivable(premises, a) && Derivable(premises, b)
    ensures Derivable(premises, Resolve(a, b, pol, lit))
  {
    var p :| Basic(p) && Conclude(p) == Some(a) && FreeAssumptions(p) <= premises;
    var r :| Basic(r) && Conclude(r) == Some(b) && FreeAssumptions(r) <= premises;
    var q := Step(RESOLUTION(pol, lit), [p, r]);
    assert [p, r][1..] == [r] && [r][1..] == [] && ConcludeAll([]) == Some([]) && AllFree([]) == {};
    assert ConcludeAll([r]) == Some([b] + []) && [b] + [] == [b];
    assert ConcludeAll([p, r]) == Some([a] + [b]) && [a] + [b] == [a, b];
    assert AllFree([r]) == FreeAssumptions(r) + AllFree([r][1..]);
    assert AllFree([p, r]) == FreeAssumptions(p) + AllFree([p, r][1..]);
    assert Basic(q) && Conclude(q) == Some(Resolve(a, b, pol, lit)) && FreeAssumptions(q) <= premises;
  }

  /** From one clause node, every node with the same set of literals. */
  lemma Reorder(premises: set<Term>, a: Term, b: Term)
    requires Derivable(premises, a) && ClauseSet(a) == ClauseSet(b)
    ensures Derivable(premises, b)
  {
    ByOne(premises, REORDERING(b), a, b);
  }

  /** A clause all of whose literals are the same gives that literal. */
  lemma Collapse(premises: set<Term>, ls: seq<Term>, x: Term)
    requires Derivable(premises, Or(ls)) && |ls| >= 2 && Set(ls) == {x}
    ensures Derivable(premises, x)
  {
    var ts := WithoutRepeats(ls, {});
    assert forall i | 0 <= i < |ls| :: ls[i] in Set(ls);
    AllSeen(ls[1..], {x});
    assert ls[0] == x && {} + {x} == {x};
    assert ts == [x];
    ByOne(premises, FACTORING, Or(ls), x);
  }

  lemma {:induction false} AllSeen(ls: seq<Term>, seen: set<Term>)
    requires forall i :: 0 <= i < |ls| ==> ls[i] in seen
    ensures WithoutRepeats(ls, seen) == []
  {
    if ls != [] { AllSeen(ls[1..], seen); }
  }

  // ---------------------------------------------------------------------------
  // CHAIN_M_RESOLUTION
  // ---------------------------------------------------------------------------

  // A clause of the chain is kept as an `Or` node in which every literal is repeated. Such a
  // node always has two children or more, so a clause with one literal that is itself an
  // `Or` is not mistaken for the clause of that literal's children.

  ghost predicate HasNode(premises: set<Term>, lits: set<Term>) {
    exists ls :: |ls| >= 2 && Set(ls) == lits && Derivable(premises, Or(ls))
  }

  /** The clause is at hand for a resolution on `pivot`. */
  ghost predicate Available(premises: set<Term>, lits: set<Term>, pivot: Term) {
    HasNode(premises, lits) || (lits == {pivot} && Derivable(premises, pivot))
  }

  /** The state of the chain: a node for its clause, or for the empty clause the last two
      literals, which are complementary. */
  ghost predicate Reached(premises: set<Term>, lits: set<Term>) {
    if lits == {} then exists l :: Derivable(premises, l) && Derivable(premises, Not(l))
    else HasNode(premises, lits)
  }

  lemma SetSplit(a: seq<Term>, b: seq<Term>)
    ensures Set(a + b) == Set(a) + Set(b)
  {
  }

  lemma {:induction false} RemoveAllSet(ls: seq<Term>, x: Term)
    ensures Set(RemoveAll(ls, x)) == Set(ls) - {x}
  {
    if ls != [] {
      RemoveAllSet(ls[1..], x);
      assert Set(ls) == {ls[0]} + Set(ls[1..]);
      if ls[0] == x {
        assert RemoveAll(ls, x) == RemoveAll(ls[1..], x);
      } else {
        assert Set(RemoveAll(ls, x)) == {ls[0]} + Set(RemoveAll(ls[1..], x));
      }
    }
  }

  lemma {:induction false} RemoveAbsent(ls: seq<Term>, x: Term)
    requires x !in ls
    ensures RemoveFirst(ls, x) == ls
  {
    if ls != [] {
      assert x !in ls[1..];
      RemoveAbsent(ls[1..], x);
    }
  }

  /** The literals twice, or three times when twice would make the pivot itself. */
  function Padded(ls: seq<Term>, pivot: Term): seq<Term> {
    if Or(ls + ls) != pivot then ls + ls else ls + ls + ls
  }

  lemma PaddedFacts(ls: seq<Term>, pivot: Term)
    requires ls != []
    ensures |Padded(ls, pivot)| >= 2 && Set(Padded(ls, pivot)) == Set(ls) && Or(Padded(ls, pivot)) != pivot
  {
    SetSplit(ls, ls);
    SetSplit(ls + ls, ls);
    assert |ls + ls| != |ls + ls + ls|;
  }

  /** A node from which resolution removes the pivot once and for all. */
  lemma Prepare(premises: set<Term>, lits: set<Term>, pivot: Term) returns (node: Term, rest: seq<Term>)
    requires Available(premises, lits, pivot)
    ensures Derivable(premises, node) && RemoveFirst(Literals(node, pivot), pivot) == rest
    ensures Set(rest) == lits - {pivot} && |rest| != 1 && (rest == [] ==> node == pivot)
  {
    if !HasNode(premises, lits) || lits == {pivot} {
      if HasNode(premises, lits) {
        var ls :| |ls| >= 2 && Set(ls) == lits && Derivable(premises, Or(ls));
        Collapse(premises, ls, pivot);
      }
      node, rest := pivot, [];
      assert Literals(pivot, pivot) == [pivot];
      assert Set(rest) == {};
    } else {
      var ls :| |ls| >= 2 && Set(ls) == lits && Derivable(premises, Or(ls));
      var others := RemoveAll(ls, pivot);
      RemoveAllSet(ls, pivot);
      OthersRemain(ls, pivot);
      if pivot in ls {
        rest := others + others;
        SetSplit(others, others);
        SetSplit([pivot], rest);
        assert Set([pivot]) == {pivot};
        node := Or([pivot] + rest);
        assert ([pivot] + rest)[0] == pivot && ([pivot] + rest)[1..] == rest;
        assert pivot < node;
      } else {
        rest := Padded(others, pivot);
        PaddedFacts(others, pivot);
        node := Or(rest);
        assert pivot !in rest by { assert pivot !in Set(rest); }
        RemoveAbsent(rest, pivot);
      }
      Reorder(premises, Or(ls), node);
    }
  }

  lemma OthersRemain(ls: seq<Term>, pivot: Term)
    requires ls != [] && Set(ls) != {pivot}
    ensures RemoveAll(ls, pivot) != []
  {
    RemoveAllSet(ls, pivot);
    assert ls[0] in Set(ls);
    if x :| x in Set(ls) && x != pivot { assert x in Set(RemoveAll(ls, pivot)); }
  }

  lemma PremiseAvailable(premises: set<Term>, c: Term, pivot: Term)
    requires Derivable(premises, c) && ProperDisjunction(c)
    ensures Available(premises, Set(Literals(c, pivot)), pivot)
  {
    if c.Or? && c != pivot {
      assert Set(c.ts) == Set(Literals(c, pivot)) && c == Or(c.ts);
    } else {
      assert Set([c]) == {c};
      if !c.Or? {
        assert Set([c, c]) == {c};
        Reorder(premises, c, Or([c, c]));
      }
    }
  }

  /** One link of the chain, from a clause at hand. */
  lemma Link(premises: set<Term>, lits: set<Term>, c: Term, pol: bool, lit: Term)
    requires Available(premises, lits, LeftPivot(pol, lit)) && Derivable(premises, c) && ProperDisjunction(c)
    ensures var y := RightPivot(pol, lit);
            Reached(premises, (lits - {LeftPivot(pol, lit)}) + (Set(Literals(c, y)) - {y}))
  {
    var x, y := LeftPivot(pol, lit), RightPivot(pol, lit);
    PremiseAvailable(premises, c, y);
    var n, r := Prepare(premises, lits, x);
    var m, t := Prepare(premises, Set(Literals(c, y)), y);
    SetSplit(r, t);
    if r + t == [] {
      assert Derivable(premises, lit) && Derivable(premises, Not(lit));
      assert Set(r + t) == {};
    } else {
      ByResolution(premises, n, m, pol, lit);
      assert |r + t| >= 2 && Resolve(n, m, pol, lit) == Or(r + t);
      assert (r + t)[0] in Set(r + t);
    }
  }

  /** Two complementary literals resolve away the literal that stands before a clause. */
  lemma DropHead(premises: set<Term>, l: Term, t: seq<Term>)
    requires Derivable(premises, l) && t != [] && Derivable(premises, Or([Not(l)] + t))
    ensures Derivable(premises, MkOr(t))
  {
    var with := [Not(l)] + t;
    assert RemoveFirst([l], l) == [];
    assert with[0] == Not(l) && with[1..] == t;
    assert RemoveFirst(with, Not(l)) == t;
    assert l < Not(l) && Not(l) < Or(with);
    assert Literals(Or(with), Not(l)) == with;
    ByResolution(premises, l, Or(with), true, l);
    assert Literals(l, l) == [l];
    assert [] + t == t;
  }

  /** A literal whose complement is at hand, resolved with a clause on another pivot. */
  lemma ResolveBeside(premises: set<Term>, l: Term, m: Term, t: seq<Term>, pol: bool, lit: Term)
    requires Derivable(premises, l) && Derivable(premises, Not(l)) && Derivable(premises, m)
    requires RemoveFirst(Literals(m, RightPivot(pol, lit)), RightPivot(pol, lit)) == t && t != []
    ensures Derivable(premises, MkOr(t))
  {
    var x := LeftPivot(pol, lit);
    ByResolution(premises, Not(l), m, pol, lit);
    assert Literals(Not(l), x) == [Not(l)];
    if x == Not(l) {
      assert RemoveFirst([Not(l)], x) == [];
      assert [] + t == t;
    } else {
      RemoveAbsent([Not(l)], x);
      assert |[Not(l)] + t| >= 2;
      DropHead(premises, l, t);
    }
  }

  /** One link of the chain, from the empty clause. */
  lemma LinkFromEmpty(premises: set<Term>, c: Term, pol: bool, lit: Term)
    requires Reached(premises, {}) && Derivable(premises, c) && ProperDisjunction(c)
    ensures var y := RightPivot(pol, lit);
            Reached(premises, Set(Literals(c, y)) - {y})
  {
    var y := RightPivot(pol, lit);
    var l :| Derivable(premises, l) && Derivable(premises, Not(l));
    PremiseAvailable(premises, c, y);
    var m, t := Prepare(premises, Set(Literals(c, y)), y);
    if t == [] {
      assert Set(t) == {};
    } else {
      assert t[0] in Set(t);
      ResolveBeside(premises, l, m, t, pol, lit);
    }
  }

  lemma {:induction false} Simulate(premises: set<Term>, lhs: seq<Term>, cs: seq<Term>, pols: seq<bool>,
                                    lits: seq<Term>)
    requires |cs| == |pols| == |lits|
    requires forall i | 0 <= i < |cs| :: cs[i] in premises && ProperDisjunction(cs[i])
    requires if cs == [] then Reached(premises, Set(lhs))
             else Reached(premises, Set(lhs)) || Available(premises, Set(lhs), LeftPivot(pols[0], lits[0]))
    ensures Reached(premises, Set(ChainM(lhs, cs, pols, lits)))
    decreases |cs|
  {
    if cs != [] {
      var x, y := LeftPivot(pols[0], lits[0]), RightPivot(pols[0], lits[0]);
      var next := RemoveAll(lhs, x) + RemoveAll(Literals(cs[0], y), y);
      FromPremise(premises, cs[0]);
      SetSplit(RemoveAll(lhs, x), RemoveAll(Literals(cs[0], y), y));
      RemoveAllSet(lhs, x);
      RemoveAllSet(Literals(cs[0], y), y);
      if Set(lhs) == {} && Reached(premises, {}) {
        LinkFromEmpty(premises, cs[0], pols[0], lits[0]);
        assert Set(next) == Set(Literals(cs[0], y)) - {y};
      } else {
        Link(premises, Set(lhs), cs[0], pols[0], lits[0]);
      }
      Simulate(premises, next, cs[1..], pols[1..], lits[1..]);
    }
  }

  /** From the state that the chain ends in to the conclusion that the rule is given. */
  lemma Finish(premises: set<Term>, last: seq<Term>, c: Term)
    requires Reached(premises, Set(last)) && Accepts(last, c)
    ensures Derivable(premises, c)
  {
    if Set(last) == {} {
      var l :| Derivable(premises, l) && Derivable(premises, Not(l));
      ByResolution(premises, l, Not(l), true, l);
      assert Literals(l, l) == [l] && RemoveFirst([l], l) == [] && RemoveFirst([Not(l)], Not(l)) == [];
    } else {
      var ls :| |ls| >= 2 && Set(ls) == Set(last) && Derivable(premises, Or(ls));
      if |Set(last)| == 1 {
        Collapse(premises, ls, c);
      } else {
        Reorder(premises, Or(ls), c);
      }
    }
  }

  lemma FromFirst(ps: seq<Term>, x: Term)
    requires ps != [] && ProperDisjunction(ps[0])
    ensures Available(Set(ps), Set(Literals(ps[0], x)), x)
  {
    FromPremise(Set(ps), ps[0]);
    PremiseAvailable(Set(ps), ps[0], x);
  }

  /** Whatever CHAIN_M_RESOLUTION accepts, for any number of premises, pivots that are
      absent or repeated, and literals that are themselves disjunctions, has a
      derivation by resolution, factoring and reordering alone. */
  lemma ChainMIsDerivable(ps: seq<Term>, c: Term, pols: seq<bool>, lits: seq<Term>)
    requires Check(CHAIN_M_RESOLUTION(c, pols, lits), ps) == Some(c)
    requires forall i | 0 <= i < |ps| :: ProperDisjunction(ps[i])
    ensures Derivable(Set(ps), c)
  {
    var x, cs := LeftPivot(pols[0], lits[0]), ps[1..|pols| + 1];
    FromFirst(ps, x);
    forall i | 0 <= i < |cs| ensures cs[i] in Set(ps) && ProperDisjunction(cs[i]) {
      assert cs[i] == ps[i + 1];
    }
    Simulate(Set(ps), Literals(ps[0], x), cs, pols, lits);
    Finish(Set(ps), ChainM(Literals(ps[0], x), cs, pols, lits), c);
  }

  // ---------------------------------------------------------------------------
  // The rule as it is documented
  // ---------------------------------------------------------------------------

  /** The chain from a clause that was chosen: resolve with the next premise, and choose any
      clause with the same set of literals; the conclusion is the last one chosen. */
  ghost predicate DocumentedFrom(chosen: Term, cs: seq<Term>, pols: seq<bool>, lits: seq<Term>, conclusion: Term)
    requires |cs| == |pols| == |lits|
    decreases |cs|
  {
    if cs == [] then chosen == conclusion
    else
      exists next ::
        ClauseSet(next) == ClauseSet(Resolve(chosen, cs[0], pols[0], lits[0]))
        && DocumentedFrom(next, cs[1..], pols[1..], lits[1..], conclusion)
  }

  ghost predicate Documented(ps: seq<Term>, pols: seq<bool>, lits: seq<Term>, conclusion: Term)
    requires ps != [] && |ps| - 1 == |pols| == |lits|
  {
    exists first :: ClauseSet(first) == ClauseSet(ps[0]) && DocumentedFrom(first, ps[1..], pols, lits, conclusion)
  }

  lemma {:induction false} DocumentedFromIsDerivable(premises: set<Term>, chosen: Term, cs: seq<Term>, pols: seq<bool>,
                                                     lits: seq<Term>, conclusion: Term)
    requires |cs| == |pols| == |lits| && Derivable(premises, chosen)
    requires (forall i :: 0 <= i < |cs| ==> cs[i] in premises) && DocumentedFrom(chosen, cs, pols, lits, conclusion)
    ensures Derivable(premises, conclusion)
    decreases |cs|
  {
    if cs != [] {
      var next :| ClauseSet(next) == ClauseSet(Resolve(chosen, cs[0], pols[0], lits[0]))
                  && DocumentedFrom(next, cs[1..], pols[1..], lits[1..], conclusion);
      FromPremise(premises, cs[0]);
      ByResolution(premises, chosen, cs[0], pols[0], lits[0]);
      Reorder(premises, Resolve(chosen, cs[0], pols[0], lits[0]), next);
      DocumentedFromIsDerivable(premises, next, cs[1..], pols[1..], lits[1..], conclusion);
    }
  }

  /** For every choice of intermediate clauses, what the documented rule concludes has a
      derivation by resolution, factoring and reordering. */
  lemma DocumentedIsDerivable(ps: seq<Term>, pols: seq<bool>, lits: seq<Term>, conclusion: Term)
    requires ps != [] && |ps| - 1 == |pols| == |lits| && Documented(ps, pols, lits, conclusion)
    ensures Derivable(Set(ps), conclusion)
  {
    var first :| ClauseSet(first) == ClauseSet(ps[0]) && DocumentedFrom(first, ps[1..], pols, lits, conclusion);
    assert ps[0] in Set(ps);
    FromPremise(Set(ps), ps[0]);
    Reorder(Set(ps), ps[0], first);
    DocumentedFromIsDerivable(Set(ps), first, ps[1..], pols, lits, conclusion);
  }

  /** The checker eliminates the pivot from a premise however often it occurs; the documented
      rule, which may not choose another form of that premise, eliminates it once. */
  lemma CheckerEliminatesMore(a: nat, b: nat)
    requires a != b
    ensures var ps := [Atom(a), Or([Not(Atom(a)), Not(Atom(a)), Atom(b)])];
            && Check(CHAIN_M_RESOLUTION(Atom(b), [true], [Atom(a)]), ps) == Some(Atom(b))
            && !Documented(ps, [true], [Atom(a)], Atom(b))
  {
    var x, y, z := Atom(a), Not(Atom(a)), Atom(b);
    var c := Or([y, y, z]);
    var ps := [x, c];
    TripleLists(y, z);
    assert ps[1..2] == [c] && ps[1..] == [c];
    assert RemoveAll([x], x) == [];
    OneLink([x], c, true, x, [z]);
    OneLiteral(z);
    forall first | ClauseSet(first) == ClauseSet(x) ensures !DocumentedFrom(first, [c], [true], [x], z) {
      ResolventKeeps(first, c, x, y, z);
    }
  }

  lemma OneLink(lhs: seq<Term>, c: Term, pol: bool, lit: Term, result: seq<Term>)
    requires var y := RightPivot(pol, lit);
             RemoveAll(lhs, LeftPivot(pol, lit)) + RemoveAll(Literals(c, y), y) == result
    ensures ChainM(lhs, [c], [pol], [lit]) == result
  {
    assert [c][1..] == [] && [pol][1..] == [] && [lit][1..] == [];
  }

  lemma OneLiteral(z: Term)
    ensures Accepts([z], z) && forall c :: Accepts([z], c) ==> c == z
  {
    assert z in Set([z]) && Set([z]) == {z} && |{z}| == 1;
    forall c | Accepts([z], c) ensures c == z { assert z in {c}; }
  }

  lemma TripleLists(y: Term, z: Term)
    requires y != z
    ensures RemoveAll([y, y, z], y) == [z] && RemoveFirst([y, y, z], y) == [y, z]
  {
    assert [y, y, z][1..] == [y, z] && [y, z][1..] == [z] && [z][1..] == [];
    assert RemoveAll([z], y) == [z] + [] && RemoveAll([y, z], y) == [] + [z] && RemoveAll([y, y, z], y) == [] + [z];
  }

  lemma ResolventKeeps(first: Term, c: Term, x: Term, y: Term, z: Term)
    requires x.Atom? && z.Atom? && y == Not(x) && c == Or([y, y, z])
    ensures !DocumentedFrom(first, [c], [true], [x], z)
  {
    var left := RemoveFirst(Literals(first, x), x);
    TripleLists(y, z);
    assert y < c && Literals(c, y) == [y, y, z];
    var ls := left + [y, z];
    assert Resolve(first, c, true, x) == Or(ls);
    assert ls[|left|] == y && y in Set(ls);
    assert ClauseSet(z) == {z} && y !in {z};
    assert [c][1..] == [];
  }

  /** The documented rule may keep a repeated pivot of the first premise that the checker
      eliminates. */
  lemma DocumentedKeepsMore(a: nat, b: nat)
    requires a != b
    ensures var x, z := Atom(a), Atom(b);
            var ps := [Or([x, x, z]), Not(x)];
            && Documented(ps, [true], [x], Or([x, z]))
            && Check(CHAIN_M_RESOLUTION(Or([x, z]), [true], [x]), ps) == None
  {
    var x, z := Atom(a), Atom(b);
    KeptResolvent(x, z);
    KeptRefused(x, z);
  }

  lemma KeptResolvent(x: Term, z: Term)
    requires x.Atom? && z.Atom? && x != z
    ensures Documented([Or([x, x, z]), Not(x)], [true], [x], Or([x, z]))
  {
    var c, n := Or([x, x, z]), Not(x);
    TripleLists(x, z);
    assert RemoveFirst([n], n) == [] && [x, z] + [] == [x, z];
    assert Resolve(c, n, true, x) == Or([x, z]);
    OneDocumented(c, n, true, x);
    assert [c, n][1..] == [n];
  }

  lemma KeptRefused(x: Term, z: Term)
    requires x.Atom? && z.Atom? && x != z
    ensures Check(CHAIN_M_RESOLUTION(Or([x, z]), [true], [x]), [Or([x, x, z]), Not(x)]) == None
  {
    var c, n := Or([x, x, z]), Not(x);
    TripleLists(x, z);
    assert RemoveAll([n], n) == [] && [z] + [] == [z];
    OneLink([x, x, z], n, true, x, [z]);
    OneLiteral(z);
    assert [c, n][1..] == [n];
    CheckAccepts([c, n], Or([x, z]), [true], [x]);
  }

  lemma OneDocumented(c: Term, n: Term, pol: bool, lit: Term)
    ensures DocumentedFrom(c, [n], [pol], [lit], Resolve(c, n, pol, lit))
  {
    assert [n][1..] == [] && [pol][1..] == [] && [lit][1..] == [];
    var next := Resolve(c, n, pol, lit);
    assert DocumentedFrom(next, [], [], [], next);
    assert ClauseSet(next) == ClauseSet(next) && DocumentedFrom(next, [n][1..], [pol][1..], [lit][1..], next);
  }

  // ---------------------------------------------------------------------------
  // When the checker meets the documented rule
  // ---------------------------------------------------------------------------

  /** No literal of the clause is itself a disjunction. */
  predicate Flat(ls: seq<Term>) {
    forall i :: 0 <= i < |ls| ==> !ls[i].Or?
  }

  predicate FlatClause(c: Term) {
    c.Or? ==> Flat(c.ts)
  }

  /** The clause after one link of the checker's chain. */
  function NextClause(lhs: seq<Term>, c: Term, pol: bool, lit: Term): seq<Term> {
    var x, y := LeftPivot(pol, lit), RightPivot(pol, lit);
    RemoveAll(lhs, x) + RemoveAll(Literals(c, y), y)
  }

  /** The premises are flat, and so are the pivots. */
  predicate FlatChain(cs: seq<Term>, lits: seq<Term>)
    requires |cs| == |lits|
  {
    forall i :: 0 <= i < |cs| ==> FlatClause(cs[i]) && !lits[i].Or?
  }

  /** Each premise has its pivot at most once, and no clause before the last is empty. */
  predicate Regular(lhs: seq<Term>, cs: seq<Term>, pols: seq<bool>, lits: seq<Term>)
    requires |cs| == |pols| == |lits|
    decreases |cs|
  {
    cs == []
    || (var y, next := RightPivot(pols[0], lits[0]), NextClause(lhs, cs[0], pols[0], lits[0]);
        && multiset(Literals(cs[0], y))[y] <= 1
        && (|cs| > 1 ==> next != [])
        && Regular(next, cs[1..], pols[1..], lits[1..]))
  }

  /** The literals that the node of a clause shows; the empty clause is `false`. */
  function Shown(lits: set<Term>): set<Term> {
    if lits == {} then {Bool(false)} else lits
  }

  lemma FlatNode(ls: seq<Term>, x: Term)
    requires Flat(ls) && !x.Or?
    ensures ClauseSet(MkOr(ls)) == Shown(Set(ls))
    ensures ls != [] ==> Literals(MkOr(ls), x) == ls
  {
    if ls == [] {
      assert Set(ls) == {};
    } else {
      assert ls[0] in Set(ls);
      if |ls| == 1 { assert Set(ls) == {ls[0]} && ls == [ls[0]]; }
    }
  }

  lemma ShownByFlat(c: Term, x: Term)
    requires !x.Or?
    ensures Set(Literals(c, x)) == ClauseSet(c) && (FlatClause(c) ==> Flat(Literals(c, x)))
  {
    if !c.Or? { assert Set([c]) == {c}; }
  }

  lemma {:induction false} RemoveFirstSet(ls: seq<Term>, x: Term)
    ensures Set(ls) - {x} <= Set(RemoveFirst(ls, x)) <= Set(ls)
    ensures multiset(ls)[x] <= 1 ==> Set(RemoveFirst(ls, x)) == Set(ls) - {x}
    ensures Flat(ls) ==> Flat(RemoveFirst(ls, x))
  {
    if ls != [] {
      var h, t := ls[0], ls[1..];
      assert ls == [h] + t && Set(ls) == {h} + Set(t);
      if h == x {
        assert multiset(ls) == multiset{h} + multiset(t);
        assert multiset(ls)[x] <= 1 ==> x !in t;
      } else {
        RemoveFirstSet(t, x);
        assert multiset(ls) == multiset{h} + multiset(t);
        SetSplit([h], RemoveFirst(t, x));
        assert Set([h]) == {h};
        FlatCons(h, RemoveFirst(t, x));
      }
    }
  }

  lemma FlatCons(h: Term, t: seq<Term>)
    ensures Flat([h] + t) <==> !h.Or? && Flat(t)
  {
    var ls := [h] + t;
    if Flat(ls) {
      assert ls[0] == h;
      forall i | 0 <= i < |t| ensures !t[i].Or? { assert ls[i + 1] == t[i]; }
    }
  }

  lemma {:induction false} RemoveAllFlat(ls: seq<Term>, x: Term)
    requires Flat(ls)
    ensures Flat(RemoveAll(ls, x))
  {
    if ls != [] { RemoveAllFlat(ls[1..], x); }
  }

  lemma NextFlat(lhs: seq<Term>, c: Term, pol: bool, lit: Term)
    requires Flat(lhs) && FlatClause(c) && !lit.Or?
    ensures Flat(NextClause(lhs, c, pol, lit))
    ensures Set(NextClause(lhs, c, pol, lit)) ==
            (Set(lhs) - {LeftPivot(pol, lit)}) + (ClauseSet(c) - {RightPivot(pol, lit)})
  {
    var x, y := LeftPivot(pol, lit), RightPivot(pol, lit);
    ShownByFlat(c, y);
    RemoveAllFlat(lhs, x);
    RemoveAllFlat(Literals(c, y), y);
    RemoveAllSet(lhs, x);
    RemoveAllSet(Literals(c, y), y);
    SetSplit(RemoveAll(lhs, x), RemoveAll(Literals(c, y), y));
  }

  /** What resolution leaves of the clause of a node and of a premise. */
  lemma ResolventShows(chosen: Term, c: Term, pol: bool, lit: Term)
    requires FlatClause(chosen) && FlatClause(c) && !lit.Or?
    ensures var x, y := LeftPivot(pol, lit), RightPivot(pol, lit);
            var ls := RemoveFirst(Literals(chosen, x), x) + RemoveFirst(Literals(c, y), y);
            && ClauseSet(Resolve(chosen, c, pol, lit)) == Shown(Set(ls)) && FlatClause(Resolve(chosen, c, pol, lit))
            && (ClauseSet(chosen) - {x}) + (ClauseSet(c) - {y}) <= Set(ls)
            && (multiset(Literals(chosen, x))[x] <= 1 && multiset(Literals(c, y))[y] <= 1 ==>
                  Set(ls) == (ClauseSet(chosen) - {x}) + (ClauseSet(c) - {y}))
  {
    var x, y := LeftPivot(pol, lit), RightPivot(pol, lit);
    var l, r := RemoveFirst(Literals(chosen, x), x), RemoveFirst(Literals(c, y), y);
    ShownByFlat(chosen, x);
    ShownByFlat(c, y);
    RemoveFirstSet(Literals(chosen, x), x);
    RemoveFirstSet(Literals(c, y), y);
    SetSplit(l, r);
    FlatAppend(l, r);
    FlatNode(l + r, x);
  }

  lemma FlatAppend(a: seq<Term>, b: seq<Term>)
    requires Flat(a) && Flat(b)
    ensures Flat(a + b)
  {
  }

  /** The clause without repeats, as a node. */
  function Standard(ls: seq<Term>): Term {
    MkOr(WithoutRepeats(ls, {}))
  }

  lemma {:induction false} WithoutRepeatsFacts(ls: seq<Term>, seen: set<Term>)
    ensures var r := WithoutRepeats(ls, seen);
            (Flat(ls) ==> Flat(r)) && forall x :: multiset(r)[x] <= if x in seen then 0 else 1
    decreases |ls|
  {
    if ls != [] {
      var h, t := ls[0], ls[1..];
      WithoutRepeatsFacts(t, seen);
      WithoutRepeatsFacts(t, seen + {h});
      assert ls == [h] + t;
      FlatCons(h, t);
      var r := WithoutRepeats(t, seen + {h});
      assert multiset([h] + r) == multiset{h} + multiset(r);
      FlatCons(h, r);
    }
  }

  lemma StandardFacts(ls: seq<Term>, x: Term)
    requires Flat(ls) && ls != [] && !x.Or?
    ensures FlatClause(Standard(ls)) && ClauseSet(Standard(ls)) == Set(ls)
    ensures multiset(Literals(Standard(ls), x))[x] <= 1
  {
    var r := WithoutRepeats(ls, {});
    WithoutRepeatsFacts(ls, {});
    WithoutRepeatsSet(ls, {});
    assert Set(ls) - {} == Set(ls) && ls[0] in Set(ls);
    assert r != [] by { assert r == [] ==> Set(r) == {}; }
    FlatNode(r, x);
  }

  /** The conclusions that the checker accepts for a flat clause: what shows its literals,
      and is no disjunction of one repeated literal. */
  lemma AcceptsIff(computed: seq<Term>, c: Term)
    requires Flat(computed)
    ensures Accepts(computed, c) <==>
            ClauseSet(c) == Shown(Set(computed)) && !(c.Or? && |ClauseSet(c)| <= 1)
  {
    var s := Set(computed);
    if |s| == 1 {
      var l :| l in s;
      assert s == {l} by { Single(s, l); }
      assert !l.Or?;
    } else if s != {} && !c.Or? {
      assert |{c}| == 1;
    }
    if s == {} { assert |{Bool(false)}| == 1; }
  }

  lemma Single(s: set<Term>, l: Term)
    requires |s| == 1 && l in s
    ensures s == {l}
  {
    assert |s - {l}| == 0;
  }

  lemma {:induction false} FlatChainM(lhs: seq<Term>, cs: seq<Term>, pols: seq<bool>, lits: seq<Term>)
    requires |cs| == |pols| == |lits| && Flat(lhs) && FlatChain(cs, lits)
    ensures Flat(ChainM(lhs, cs, pols, lits))
    decreases |cs|
  {
    if cs != [] {
      NextFlat(lhs, cs[0], pols[0], lits[0]);
      FlatTail(cs, lits);
      FlatChainM(NextClause(lhs, cs[0], pols[0], lits[0]), cs[1..], pols[1..], lits[1..]);
    }
  }

  lemma FlatTail(cs: seq<Term>, lits: seq<Term>)
    requires |cs| == |lits| && cs != [] && FlatChain(cs, lits)
    ensures FlatChain(cs[1..], lits[1..])
  {
  }

  /** One link from the standard node of a clause shows the next clause. */
  lemma RegularLink(lhs: seq<Term>, c: Term, pol: bool, lit: Term)
    requires Flat(lhs) && lhs != [] && FlatClause(c) && !lit.Or?
    requires var y := RightPivot(pol, lit); multiset(Literals(c, y))[y] <= 1
    ensures ClauseSet(Resolve(Standard(lhs), c, pol, lit)) == Shown(Set(NextClause(lhs, c, pol, lit)))
  {
    StandardFacts(lhs, LeftPivot(pol, lit));
    ResolventShows(Standard(lhs), c, pol, lit);
    NextFlat(lhs, c, pol, lit);
  }

  lemma {:induction false} RegularIsDocumented(lhs: seq<Term>, cs: seq<Term>, pols: seq<bool>, lits: seq<Term>,
                                               conclusion: Term)
    requires |cs| == |pols| == |lits| && cs != [] && lhs != [] && Flat(lhs) && FlatChain(cs, lits)
    requires Regular(lhs, cs, pols, lits) && Accepts(ChainM(lhs, cs, pols, lits), conclusion)
    ensures DocumentedFrom(Standard(lhs), cs, pols, lits, conclusion)
    decreases |cs|
  {
    var next := NextClause(lhs, cs[0], pols[0], lits[0]);
    RegularLink(lhs, cs[0], pols[0], lits[0]);
    NextFlat(lhs, cs[0], pols[0], lits[0]);
    FlatTail(cs, lits);
    assert ChainM(lhs, cs, pols, lits) == ChainM(next, cs[1..], pols[1..], lits[1..]);
    if |cs| == 1 {
      AcceptsIff(next, conclusion);
      LinkTo(Standard(lhs), conclusion, cs, pols, lits, conclusion);
    } else {
      StandardFacts(next, lits[0]);
      assert next[0] in Set(next);
      RegularIsDocumented(next, cs[1..], pols[1..], lits[1..], conclusion);
      LinkTo(Standard(lhs), Standard(next), cs, pols, lits, conclusion);
    }
  }

  lemma LinkTo(chosen: Term, next: Term, cs: seq<Term>, pols: seq<bool>, lits: seq<Term>, conclusion: Term)
    requires |cs| == |pols| == |lits| && cs != []
    requires ClauseSet(next) == ClauseSet(Resolve(chosen, cs[0], pols[0], lits[0]))
    requires DocumentedFrom(next, cs[1..], pols[1..], lits[1..], conclusion)
    ensures DocumentedFrom(chosen, cs, pols, lits, conclusion)
  {
  }

  lemma CheckAccepts(ps: seq<Term>, c: Term, pols: seq<bool>, lits: seq<Term>)
    requires |ps| == |pols| + 1 == |lits| + 1 >= 2
    ensures var computed := ChainM(Literals(ps[0], LeftPivot(pols[0], lits[0])), ps[1..], pols, lits);
            Check(CHAIN_M_RESOLUTION(c, pols, lits), ps) == When(Accepts(computed, c), c)
  {
    CheckClauseAccepts(ps, c, pols, lits);
  }

  lemma CheckClauseAccepts(ps: seq<Term>, c: Term, pols: seq<bool>, lits: seq<Term>)
    requires |ps| == |pols| + 1 == |lits| + 1 >= 2
    ensures var computed := ChainM(Literals(ps[0], LeftPivot(pols[0], lits[0])), ps[1..], pols, lits);
            CheckClause(CHAIN_M_RESOLUTION(c, pols, lits), ps) == When(Accepts(computed, c), c)
  {
    assert ps[1..|pols| + 1] == ps[1..];
  }

  /** From flat premises on flat pivots, each at most once in its premise, and without an empty
      clause before the last: what the checker accepts, the documented rule concludes. */
  lemma CheckerIsDocumented(ps: seq<Term>, c: Term, pols: seq<bool>, lits: seq<Term>)
    requires |ps| == |pols| + 1 == |lits| + 1 >= 2 && Check(CHAIN_M_RESOLUTION(c, pols, lits), ps) == Some(c)
    requires ProperDisjunction(ps[0]) && FlatClause(ps[0]) && FlatChain(ps[1..], lits)
    requires Regular(Literals(ps[0], LeftPivot(pols[0], lits[0])), ps[1..], pols, lits)
    ensures Documented(ps, pols, lits, c)
  {
    var x := LeftPivot(pols[0], lits[0]);
    CheckAccepts(ps, c, pols, lits);
    FirstNode(ps[0], x);
    RegularIsDocumented(Literals(ps[0], x), ps[1..], pols, lits, c);
  }

  lemma FirstNode(c: Term, x: Term)
    requires ProperDisjunction(c) && FlatClause(c) && !x.Or?
    ensures var first := Literals(c, x);
            first != [] && Flat(first) && ClauseSet(Standard(first)) == ClauseSet(c)
  {
    ShownByFlat(c, x);
    StandardFacts(Literals(c, x), x);
  }

  /** From flat premises on flat pivots every documented conclusion has the literals of the
      clause that the checker computes. */
  lemma {:induction false} DocumentedHasComputed(chosen: Term, lhs: seq<Term>, cs: seq<Term>, pols: seq<bool>,
                                                 lits: seq<Term>, conclusion: Term)
    requires |cs| == |pols| == |lits| && Flat(lhs) && FlatClause(chosen) && FlatChain(cs, lits)
    requires Set(lhs) <= ClauseSet(chosen) && DocumentedFrom(chosen, cs, pols, lits, conclusion)
    ensures Set(ChainM(lhs, cs, pols, lits)) <= ClauseSet(conclusion)
    decreases |cs|
  {
    if cs != [] {
      var resolvent, clause := Resolve(chosen, cs[0], pols[0], lits[0]), NextClause(lhs, cs[0], pols[0], lits[0]);
      var next :| ClauseSet(next) == ClauseSet(resolvent)
                  && DocumentedFrom(next, cs[1..], pols[1..], lits[1..], conclusion);
      ResolventShows(chosen, cs[0], pols[0], lits[0]);
      NextFlat(lhs, cs[0], pols[0], lits[0]);
      FlatTail(cs, lits);
      SameFlat(next, resolvent);
      DocumentedHasComputed(next, clause, cs[1..], pols[1..], lits[1..], conclusion);
    }
  }

  lemma SameFlat(a: Term, b: Term)
    requires ClauseSet(a) == ClauseSet(b) && FlatClause(b)
    ensures FlatClause(a)
  {
    if a.Or? {
      forall i | 0 <= i < |a.ts| ensures !a.ts[i].Or? { assert a.ts[i] in Set(a.ts); }
    }
  }

  /** From flat premises on flat pivots the checker refuses a documented conclusion exactly when
      it has a literal more than the computed clause, or is a disjunction of one literal. */
  lemma RefusedIff(ps: seq<Term>, c: Term, pols: seq<bool>, lits: seq<Term>)
    requires |ps| == |pols| + 1 == |lits| + 1 >= 2 && FlatClause(ps[0]) && FlatChain(ps[1..], lits)
    requires Documented(ps, pols, lits, c)
    ensures var computed := ChainM(Literals(ps[0], LeftPivot(pols[0], lits[0])), ps[1..], pols, lits);
            && Set(computed) <= ClauseSet(c)
            && (Check(CHAIN_M_RESOLUTION(c, pols, lits), ps) == None <==>
                  !(ClauseSet(c) <= Shown(Set(computed))) || (c.Or? && |ClauseSet(c)| <= 1))
  {
    var x := LeftPivot(pols[0], lits[0]);
    var first, computed := Literals(ps[0], x), ChainM(Literals(ps[0], x), ps[1..], pols, lits);
    assert FlatChain(ps[1..], lits) && !lits[0].Or?;
    ShownByFlat(ps[0], x);
    var chosen :| ClauseSet(chosen) == ClauseSet(ps[0]) && DocumentedFrom(chosen, ps[1..], pols, lits, c);
    SameFlat(chosen, ps[0]);
    DocumentedHasComputed(chosen, first, ps[1..], pols, lits, c);
    FlatChainM(first, ps[1..], pols, lits);
    AcceptsIff(computed, c);
    CheckAccepts(ps, c, pols, lits);
  }

  // ---------------------------------------------------------------------------
  // The clause rules, literal by literal
  // ---------------------------------------------------------------------------

  lemma {:induction false} RemoveFirstIs(a: seq<Term>, x: Term, b: seq<Term>)
    requires x !in a
    ensures RemoveFirst(a + [x] + b, x) == a + b
  {
    if a == [] {
      assert ([x] + b)[1..] == b && a + [x] + b == [x] + b;
    } else {
      assert (a + [x] + b)[1..] == a[1..] + [x] + b;
      RemoveFirstIs(a[1..], x, b);
    }
  }

  lemma {:induction false} FirstOccurrence(ls: seq<Term>, x: Term) returns (a: seq<Term>, b: seq<Term>)
    requires x in ls
    ensures ls == a + [x] + b && x !in a
  {
    if ls[0] == x {
      a, b := [], ls[1..];
    } else {
      var rest;
      rest, b := FirstOccurrence(ls[1..], x);
      a := [ls[0]] + rest;
    }
  }

  lemma ContainsPivot(a: seq<Term>, x: Term, b: seq<Term>)
    ensures Literals(Or(a + [x] + b), x) == a + [x] + b
  {
    assert (a + [x] + b)[|a|] == x;
    assert x < Or(a + [x] + b);
  }

  /** RESOLUTION takes the first occurrence of the pivot out of each clause and puts the rest of
      the second clause behind the rest of the first. */
  lemma ResolveIs(a: seq<Term>, b: seq<Term>, c: seq<Term>, d: seq<Term>, pol: bool, lit: Term)
    requires LeftPivot(pol, lit) !in a && RightPivot(pol, lit) !in c
    ensures var x, y := if pol then lit else Not(lit), if pol then Not(lit) else lit;
            && Check(RESOLUTION(pol, lit), [Or(a + [x] + b), Or(c + [y] + d)]) == Some(MkOr((a + b) + (c + d)))
            && Check(RESOLUTION(pol, lit), [x, Or(c + [y] + d)]) == Some(MkOr(c + d))
            && Check(RESOLUTION(pol, lit), [Or(a + [x] + b), y]) == Some(MkOr(a + b))
            && Check(RESOLUTION(pol, lit), [x, y]) == Some(Bool(false))
  {
    var x, y := LeftPivot(pol, lit), RightPivot(pol, lit);
    ContainsPivot(a, x, b);
    ContainsPivot(c, y, d);
    RemoveFirstIs(a, x, b);
    RemoveFirstIs(c, y, d);
    assert Literals(x, x) == [x] && Literals(y, y) == [y];
    assert RemoveFirst([x], x) == [] && RemoveFirst([y], y) == [];
    assert [] + (c + d) == c + d && (a + b) + [] == a + b;
  }

  /** A clause without the pivot keeps all its literals. */
  lemma ResolveAbsent(ls: seq<Term>, other: Term, pol: bool, lit: Term)
    requires LeftPivot(pol, lit) !in ls && Or(ls) != LeftPivot(pol, lit) && other == RightPivot(pol, lit)
    ensures Check(RESOLUTION(pol, lit), [Or(ls), other]) == Some(MkOr(ls))
  {
    RemoveAbsent(ls, LeftPivot(pol, lit));
    assert Literals(other, other) == [other] && RemoveFirst([other], other) == [];
    assert ls + [] == ls;
  }

  /** Iterated resolution on the first occurrences: the clause is what is left at the end. */
  ghost predicate ChainTo(lhs: seq<Term>, cs: seq<Term>, pols: seq<bool>, lits: seq<Term>, r: seq<Term>)
    requires |cs| == |pols| == |lits|
    decreases |cs|
  {
    if cs == [] then r == lhs
    else
      var x, y := LeftPivot(pols[0], lits[0]), RightPivot(pols[0], lits[0]);
      exists a, b, c, d ::
        && lhs == a + [x] + b && x !in a && Literals(cs[0], y) == c + [y] + d && y !in c
        && ChainTo((a + b) + (c + d), cs[1..], pols[1..], lits[1..], r)
  }

  lemma {:induction false} ChainIff(lhs: seq<Term>, cs: seq<Term>, pols: seq<bool>, lits: seq<Term>, r: seq<Term>)
    requires |cs| == |pols| == |lits|
    ensures Chain(lhs, cs, pols, lits) == Some(r) <==> ChainTo(lhs, cs, pols, lits, r)
    decreases |cs|
  {
    if cs != [] {
      var x, y := LeftPivot(pols[0], lits[0]), RightPivot(pols[0], lits[0]);
      var rhs := Literals(cs[0], y);
      ChainIff(RemoveFirst(lhs, x) + RemoveFirst(rhs, y), cs[1..], pols[1..], lits[1..], r);
      if x in lhs && y in rhs {
        var a, b := FirstOccurrence(lhs, x);
        var c, d := FirstOccurrence(rhs, y);
        RemoveFirstIs(a, x, b);
        RemoveFirstIs(c, y, d);
      }
      if ChainTo(lhs, cs, pols, lits, r) {
        var a, b, c, d :|
          && lhs == a + [x] + b && x !in a && rhs == c + [y] + d && y !in c
          && ChainTo((a + b) + (c + d), cs[1..], pols[1..], lits[1..], r);
        RemoveFirstIs(a, x, b);
        RemoveFirstIs(c, y, d);
        assert lhs[|a|] == x && rhs[|c|] == y;
      }
    }
  }

  /** CHAIN_RESOLUTION concludes exactly what resolving on the first occurrences leaves, for any
      number of links, and is refused exactly when some pivot does not occur. */
  lemma ChainConcludes(ps: seq<Term>, pols: seq<bool>, lits: seq<Term>, t: Term)
    requires |pols| == |lits| == |ps| - 1 >= 1
    ensures Check(CHAIN_RESOLUTION(pols, lits), ps) == Some(t) <==>
            exists r :: ChainTo(Literals(ps[0], LeftPivot(pols[0], lits[0])), ps[1..], pols, lits, r) && t == MkOr(r)
  {
    var first := Literals(ps[0], LeftPivot(pols[0], lits[0]));
    var chain := Chain(first, ps[1..], pols, lits);
    CheckChain(ps, pols, lits);
    if chain.Some? { ChainIff(first, ps[1..], pols, lits, chain.value); }
    if r :| ChainTo(first, ps[1..], pols, lits, r) && t == MkOr(r) { ChainIff(first, ps[1..], pols, lits, r); }
  }

  lemma CheckChain(ps: seq<Term>, pols: seq<bool>, lits: seq<Term>)
    requires |pols| == |lits| == |ps| - 1 >= 1
    ensures Check(CHAIN_RESOLUTION(pols, lits), ps) ==
            match Chain(Literals(ps[0], LeftPivot(pols[0], lits[0])), ps[1..], pols, lits)
            case None => None
            case Some(clause) => Some(MkOr(clause))
  {
  }

  /** A literal that stands further to the left, too, is dropped. */
  lemma {:induction false} LaterRepeatGoes(a: seq<Term>, x: Term, b: seq<Term>, seen: set<Term>)
    requires x in a || x in seen
    ensures WithoutRepeats(a + [x] + b, seen) == WithoutRepeats(a + b, seen)
    decreases |a|
  {
    if a == [] {
      assert a + [x] + b == [x] + b && ([x] + b)[1..] == b && a + b == b;
    } else {
      assert (a + [x] + b)[1..] == a[1..] + [x] + b && (a + b)[1..] == a[1..] + b;
      LaterRepeatGoes(a[1..], x, b, if a[0] in seen then seen else seen + {a[0]});
    }
  }

  lemma {:induction false} NothingRepeated(ls: seq<Term>, seen: set<Term>)
    ensures WithoutRepeats(ls, seen) == ls <==> NoDup(ls) && forall i :: 0 <= i < |ls| ==> ls[i] !in seen
    ensures |WithoutRepeats(ls, seen)| <= |ls|
    ensures |WithoutRepeats(ls, seen)| == |ls| ==> WithoutRepeats(ls, seen) == ls
  {
    if ls != [] {
      NothingRepeated(ls[1..], seen);
      NothingRepeated(ls[1..], seen + {ls[0]});
      assert forall i :: 0 < i < |ls| ==> ls[i] == ls[1..][i - 1];
      if ls[0] !in seen {
        assert WithoutRepeats(ls, seen)[1..] == WithoutRepeats(ls[1..], seen + {ls[0]});
      }
    }
  }

  /** FACTORING is refused without repeats, and otherwise a repeat makes no difference to it. */
  lemma FactoringIs(a: seq<Term>, x: Term, b: seq<Term>)
    ensures Check(FACTORING, [Or(a)]) == None <==> NoDup(a)
    ensures x in a && NoDup(a + b) ==> Check(FACTORING, [Or(a + [x] + b)]) == Some(MkOr(a + b))
    ensures x in a && !NoDup(a + b) ==> Check(FACTORING, [Or(a + [x] + b)]) == Check(FACTORING, [Or(a + b)])
  {
    NothingRepeated(a, {});
    NothingRepeated(a + b, {});
    NothingRepeated(a + [x] + b, {});
    if x in a {
      LaterRepeatGoes(a, x, b, {});
      assert |a + [x] + b| == |a + b| + 1;
    }
  }

  predicate IsLiteralOf(l: Term, c: Term) {
    if c.Or? then l in c.ts else l == c
  }

  /** REORDERING accepts exactly the nodes with the same literals, in any order and multiplicity. */
  lemma ReorderingIff(p: Term, c: Term)
    ensures Check(REORDERING(c), [p]) ==
            if forall l :: IsLiteralOf(l, p) <==> IsLiteralOf(l, c) then Some(c) else None
  {
    assert forall l :: l in ClauseSet(p) <==> IsLiteralOf(l, p);
    assert forall l :: l in ClauseSet(c) <==> IsLiteralOf(l, c);
  }
}
