/** Proof trees over the Boolean rules, their free assumptions, and soundness. */
module ProofSoundness {
  import opened Wrappers
  import opened BooleanRules

  datatype Proof = Step(rule: Rule, children: seq<Proof>)

  /** What a proof concludes, if every step checks. */
  function Conclude(p: Proof): Option<Term>
    decreases p, 1
  {
    match ConcludeAll(p.children)
    case None => None
    case Some(ps) => Check(p.rule, ps)
  }

  function ConcludeAll(ps: seq<Proof>): Option<seq<Term>>
    decreases ps, 0
  {
    if ps == [] then Some([])
    else match (Conclude(ps[0]), ConcludeAll(ps[1..]))
         case (Some(t), Some(ts)) => Some([t] + ts)
         case _ => None
  }

  /** The assumptions that no SCOPE above them binds. */
  function FreeAssumptions(p: Proof): set<Term>
    decreases p, 1
  {
    match p.rule
    case ASSUME(f) => {f}
    case SCOPE(fs) => AllFree(p.children) - Set(fs)
    case _ => AllFree(p.children)
  }

  function AllFree(ps: seq<Proof>): set<Term>
    decreases ps, 0
  {
    if ps == [] then {} else FreeAssumptions(ps[0]) + AllFree(ps[1..])
  }

  // ---------------------------------------------------------------------------
  // Clauses
  // ---------------------------------------------------------------------------

  lemma {:induction false} AnyMember(ts: seq<Term>, v: Valuation)
    ensures AnyHolds(ts, v) <==> exists t :: t in ts && Holds(t, v)
  {
    if ts == [] {
      assert !AnyHolds(ts, v);
    } else {
      AnyMember(ts[1..], v);
      if Holds(ts[0], v) {
        assert ts[0] in ts;
      } else if AnyHolds(ts[1..], v) {
        var t :| t in ts[1..] && Holds(t, v);
        assert t in ts;
      } else {
        forall t | t in ts ensures !Holds(t, v) {
          if t != ts[0] { assert t in ts[1..]; }
        }
      }
    }
  }

  lemma {:induction false} AllMember(ts: seq<Term>, v: Valuation)
    ensures AllHold(ts, v) <==> forall t :: t in ts ==> Holds(t, v)
  {
    if ts == [] {
      assert AllHold(ts, v);
    } else {
      AllMember(ts[1..], v);
      forall t | t in ts ensures AllHold(ts, v) ==> Holds(t, v) {
        if t != ts[0] { assert t in ts[1..]; }
      }
      assert ts[0] in ts;
      if !AllHold(ts, v) && Holds(ts[0], v) {
        var t :| t in ts[1..] && !Holds(t, v);
        assert t in ts;
      }
    }
  }

  /** A clause only depends on its set of literals. */
  lemma SameSet(a: seq<Term>, b: seq<Term>, v: Valuation)
    requires Set(a) == Set(b)
    ensures AnyHolds(a, v) <==> AnyHolds(b, v)
  {
    AnyMember(a, v);
    AnyMember(b, v);
    assert forall t :: t in a <==> t in Set(a);
    assert forall t :: t in b <==> t in Set(b);
  }

  lemma MkOrHolds(ts: seq<Term>, v: Valuation)
    ensures Holds(MkOr(ts), v) <==> AnyHolds(ts, v)
  {
    AnyMember(ts, v);
    if |ts| == 1 { assert ts[0] in ts; }
  }

  lemma MkAndHolds(ts: seq<Term>, v: Valuation)
    ensures Holds(MkAnd(ts), v) <==> AllHold(ts, v)
  {
    AllMember(ts, v);
    if |ts| == 1 { assert ts[0] in ts; }
  }

  lemma LiteralsHold(c: Term, pivot: Term, v: Valuation)
    ensures AnyHolds(Literals(c, pivot), v) <==> Holds(c, v)
  {
    AnyMember([c], v);
    assert [c][0] == c;
  }

  lemma {:induction false} RemoveFirstHolds(ls: seq<Term>, x: Term, v: Valuation)
    requires AnyHolds(ls, v) && !Holds(x, v)
    ensures AnyHolds(RemoveFirst(ls, x), v)
  {
    if ls[0] != x && !Holds(ls[0], v) { RemoveFirstHolds(ls[1..], x, v); }
  }

  lemma {:induction false} RemoveAllHolds(ls: seq<Term>, x: Term, v: Valuation)
    requires AnyHolds(ls, v) && !Holds(x, v)
    ensures AnyHolds(RemoveAll(ls, x), v)
  {
    if ls[0] == x {
      RemoveAllHolds(ls[1..], x, v);
      assert RemoveAll(ls, x) == RemoveAll(ls[1..], x);
    } else if !Holds(ls[0], v) {
      RemoveAllHolds(ls[1..], x, v);
    }
  }

  lemma {:induction false} AnySplit(a: seq<Term>, b: seq<Term>, v: Valuation)
    ensures AnyHolds(a + b, v) <==> AnyHolds(a, v) || AnyHolds(b, v)
  {
    if a == [] {
      assert a + b == b;
    } else {
      assert (a + b)[1..] == a[1..] + b;
      AnySplit(a[1..], b, v);
    }
  }

  lemma {:induction false} ChainHolds(lhs: seq<Term>, cs: seq<Term>, pols: seq<bool>, lits: seq<Term>, v: Valuation)
    requires |cs| == |pols| == |lits| && AnyHolds(lhs, v) && AllHold(cs, v)
    ensures Chain(lhs, cs, pols, lits).Some? ==> AnyHolds(Chain(lhs, cs, pols, lits).value, v)
    decreases |cs|
  {
    if cs != [] {
      var x, y := LeftPivot(pols[0], lits[0]), RightPivot(pols[0], lits[0]);
      var rhs := Literals(cs[0], y);
      LiteralsHold(cs[0], y, v);
      if Holds(x, v) { RemoveFirstHolds(rhs, y, v); } else { RemoveFirstHolds(lhs, x, v); }
      AnySplit(RemoveFirst(lhs, x), RemoveFirst(rhs, y), v);
      ChainHolds(RemoveFirst(lhs, x) + RemoveFirst(rhs, y), cs[1..], pols[1..], lits[1..], v);
    }
  }

  /** Resolution on all occurrences of a pivot, none included, keeps a true clause true. */
  lemma {:induction false} ChainMHolds(lhs: seq<Term>, cs: seq<Term>, pols: seq<bool>, lits: seq<Term>, v: Valuation)
    requires |cs| == |pols| == |lits| && AnyHolds(lhs, v) && AllHold(cs, v)
    ensures AnyHolds(ChainM(lhs, cs, pols, lits), v)
    decreases |cs|
  {
    if cs != [] {
      var x, y := LeftPivot(pols[0], lits[0]), RightPivot(pols[0], lits[0]);
      var rhs := Literals(cs[0], y);
      LiteralsHold(cs[0], y, v);
      if Holds(x, v) { RemoveAllHolds(rhs, y, v); } else { RemoveAllHolds(lhs, x, v); }
      AnySplit(RemoveAll(lhs, x), RemoveAll(rhs, y), v);
      ChainMHolds(RemoveAll(lhs, x) + RemoveAll(rhs, y), cs[1..], pols[1..], lits[1..], v);
    }
  }

  lemma {:induction false} WithoutRepeatsSet(ls: seq<Term>, seen: set<Term>)
    ensures Set(WithoutRepeats(ls, seen)) == Set(ls) - seen
  {
    if ls != [] {
      WithoutRepeatsSet(ls[1..], seen);
      WithoutRepeatsSet(ls[1..], seen + {ls[0]});
      assert Set(ls) == {ls[0]} + Set(ls[1..]);
      if ls[0] !in seen {
        var rest := WithoutRepeats(ls[1..], seen + {ls[0]});
        assert Set([ls[0]] + rest) == {ls[0]} + Set(rest);
      }
    }
  }

  lemma ClauseSetHolds(a: Term, b: Term, v: Valuation)
    requires ClauseSet(a) == ClauseSet(b)
    ensures Holds(a, v) <==> Holds(b, v)
  {
    var la, lb := if a.Or? then a.ts else [a], if b.Or? then b.ts else [b];
    assert Set([a]) == {a} && Set([b]) == {b};
    SameSet(la, lb, v);
    MkOrHolds([a], v);
    MkOrHolds([b], v);
  }

  lemma AcceptedHolds(computed: seq<Term>, c: Term, v: Valuation)
    requires Accepts(computed, c)
    ensures AnyHolds(computed, v) ==> Holds(c, v)
  {
    AnyMember(computed, v);
    if AnyHolds(computed, v) {
      var t :| t in computed && Holds(t, v);
      assert t in Set(computed);
      if |Set(computed)| > 1 { SameSet(computed, c.ts, v); }
    }
  }

  lemma ClauseRuleSound(rule: Rule, ps: seq<Term>, v: Valuation)
    requires CheckClause(rule, ps).Some? && AllHold(ps, v)
    ensures Holds(CheckClause(rule, ps).value, v)
  {
    AllMember(ps, v);
    match rule {
      case RESOLUTION(pol, lit) =>
        assert ps[0] in ps && ps[1] in ps;
        ResolveHolds(ps[0], ps[1], pol, lit, v);
      case CHAIN_RESOLUTION(pols, lits) =>
        var first := Literals(ps[0], LeftPivot(pols[0], lits[0]));
        LiteralsHold(ps[0], LeftPivot(pols[0], lits[0]), v);
        ChainHolds(first, ps[1..], pols, lits, v);
        MkOrHolds(Chain(first, ps[1..], pols, lits).value, v);
      case FACTORING =>
        WithoutRepeatsSet(ps[0].ts, {});
        SameSet(ps[0].ts, WithoutRepeats(ps[0].ts, {}), v);
        MkOrHolds(WithoutRepeats(ps[0].ts, {}), v);
      case REORDERING(c) => ClauseSetHolds(ps[0], c, v);
      case CHAIN_M_RESOLUTION(c, pols, lits) =>
        var first := Literals(ps[0], LeftPivot(pols[0], lits[0]));
        LiteralsHold(ps[0], LeftPivot(pols[0], lits[0]), v);
        AllMember(ps[1..|pols| + 1], v);
        ChainMHolds(first, ps[1..|pols| + 1], pols, lits, v);
        AcceptedHolds(ChainM(first, ps[1..|pols| + 1], pols, lits), c, v);
    }
  }

  lemma ResolveHolds(c1: Term, c2: Term, pol: bool, lit: Term, v: Valuation)
    requires Holds(c1, v) && Holds(c2, v)
    ensures Holds(Resolve(c1, c2, pol, lit), v)
  {
    var x, y := LeftPivot(pol, lit), RightPivot(pol, lit);
    var l, r := Literals(c1, x), Literals(c2, y);
    LiteralsHold(c1, x, v);
    LiteralsHold(c2, y, v);
    if Holds(x, v) { RemoveFirstHolds(r, y, v); } else { RemoveFirstHolds(l, x, v); }
    AnySplit(RemoveFirst(l, x), RemoveFirst(r, y), v);
    MkOrHolds(RemoveFirst(l, x) + RemoveFirst(r, y), v);
  }

  // ---------------------------------------------------------------------------
  // The other rules
  // ---------------------------------------------------------------------------

  lemma NegatedHolds(ts: seq<Term>, v: Valuation)
    ensures AnyHolds(Negated(ts), v) <==> !AllHold(ts, v)
  {
    AnyMember(Negated(ts), v);
    AllMember(ts, v);
    if !AllHold(ts, v) {
      var t :| t in ts && !Holds(t, v);
      var i :| 0 <= i < |ts| && ts[i] == t;
      assert Negated(ts)[i] in Negated(ts) && Holds(Negated(ts)[i], v);
    } else {
      forall t | t in Negated(ts) ensures !Holds(t, v) {
        var i :| 0 <= i < |ts| && Negated(ts)[i] == t;
        assert ts[i] in ts;
      }
    }
  }

  lemma Two(a: Term, b: Term, v: Valuation)
    ensures Holds(Or([a, b]), v) <==> Holds(a, v) || Holds(b, v)
  {
    AnyMember([a, b], v);
    assert Holds(Or([a, b]), v) == AnyHolds([a, b], v);
    assert a in [a, b] && b in [a, b];
  }

  lemma Three(a: Term, b: Term, c: Term, v: Valuation)
    ensures Holds(Or([a, b, c]), v) <==> Holds(a, v) || Holds(b, v) || Holds(c, v)
  {
    AnyMember([a, b, c], v);
    assert Holds(Or([a, b, c]), v) == AnyHolds([a, b, c], v);
    assert a in [a, b, c] && b in [a, b, c] && c in [a, b, c];
  }

  predicate IsNary(rule: Rule) {
    rule.CNF_AND_POS? || rule.CNF_AND_NEG? || rule.CNF_OR_POS? || rule.CNF_OR_NEG?
    || rule.AND_ELIM? || rule.NOT_OR_ELIM? || rule.NOT_AND?
  }

  lemma HeadHolds(t: Term, ts: seq<Term>, v: Valuation)
    ensures AnyHolds([t] + ts, v) <==> Holds(t, v) || AnyHolds(ts, v)
  {
    assert ([t] + ts)[1..] == ts;
  }

  lemma NaryCnfSound(rule: Rule, v: Valuation)
    requires IsNary(rule) && CheckCnf(rule).Some?
    ensures Holds(CheckCnf(rule).value, v)
  {
    var c := CheckCnf(rule).value;
    var f := rule.f;
    if rule.CNF_AND_POS? {
      AllMember(f.ts, v);
      assert f.ts[rule.i] in f.ts;
      Two(Not(f), f.ts[rule.i], v);
    } else if rule.CNF_AND_NEG? {
      NegatedHolds(f.ts, v);
      assert c.ts == [f] + Negated(f.ts);
      HeadHolds(f, Negated(f.ts), v);
    } else if rule.CNF_OR_POS? {
      assert c.ts == [Not(f)] + f.ts;
      HeadHolds(Not(f), f.ts, v);
    } else {
      AnyMember(f.ts, v);
      assert f.ts[rule.i] in f.ts;
      Two(f, Not(f.ts[rule.i]), v);
    }
  }

  lemma CnfRuleSound(rule: Rule, v: Valuation)
    requires CheckCnf(rule).Some?
    ensures Holds(CheckCnf(rule).value, v)
  {
    if IsNary(rule) {
      NaryCnfSound(rule, v);
    } else {
      var c := CheckCnf(rule).value;
      if |c.ts| == 2 {
        Two(c.ts[0], c.ts[1], v);
        assert c == Or([c.ts[0], c.ts[1]]);
      } else {
        Three(c.ts[0], c.ts[1], c.ts[2], v);
        assert c == Or([c.ts[0], c.ts[1], c.ts[2]]);
      }
    }
  }

  lemma NaryElimSound(rule: Rule, p: Term, v: Valuation)
    requires IsNary(rule) && CheckElimOne(rule, p).Some? && Holds(p, v)
    ensures Holds(CheckElimOne(rule, p).value, v)
  {
    if rule.AND_ELIM? {
      AllMember(p.ts, v);
      assert p.ts[rule.i] in p.ts;
    } else if rule.NOT_OR_ELIM? {
      AnyMember(p.t.ts, v);
      assert p.t.ts[rule.i] in p.t.ts;
    } else {
      NegatedHolds(p.t.ts, v);
    }
  }

  /** The rules that take a negated formula apart, or a plain one. */
  lemma ElimOneSound(rule: Rule, p: Term, v: Valuation)
    requires CheckElimOne(rule, p).Some? && Holds(p, v)
    ensures Holds(CheckElimOne(rule, p).value, v)
  {
    var c := CheckElimOne(rule, p).value;
    if IsNary(rule) {
      NaryElimSound(rule, p, v);
    } else if rule.NOT_NOT_ELIM? || rule.NOT_IMPLIES_ELIM1? || rule.NOT_IMPLIES_ELIM2? {
      assert Holds(c, v);
    } else {
      assert c == Or([c.ts[0], c.ts[1]]);
      Two(c.ts[0], c.ts[1], v);
    }
  }

  lemma ElimRuleSound(rule: Rule, ps: seq<Term>, v: Valuation)
    requires CheckElim(rule, ps).Some? && AllHold(ps, v)
    ensures Holds(CheckElim(rule, ps).value, v)
  {
    AllMember(ps, v);
    assert forall i | 0 <= i < |ps| :: Holds(ps[i], v);
    MkAndHolds(ps, v);
    if |ps| == 1 && CheckElimOne(rule, ps[0]).Some? { ElimOneSound(rule, ps[0], v); }
  }

  lemma RuleSound(rule: Rule, ps: seq<Term>, v: Valuation)
    requires !rule.ASSUME? && !rule.SCOPE? && Check(rule, ps).Some? && AllHold(ps, v)
    ensures Holds(Check(rule, ps).value, v)
  {
    if IsClauseRule(rule) { ClauseRuleSound(rule, ps, v); }
    else if ps == [] { CnfRuleSound(rule, v); }
    else { ElimRuleSound(rule, ps, v); }
  }

  // ---------------------------------------------------------------------------
  // Proof trees
  // ---------------------------------------------------------------------------

  /** Whatever makes the free assumptions true makes the conclusion true. */
  lemma {:induction false} Sound(p: Proof, v: Valuation)
    requires Conclude(p).Some?
    requires forall f | f in FreeAssumptions(p) :: Holds(f, v)
    ensures Holds(Conclude(p).value, v)
    decreases p, 1
  {
    var ps := ConcludeAll(p.children).value;
    match p.rule {
      case ASSUME(f) =>
      case SCOPE(fs) =>
        MkAndHolds(fs, v);
        AllMember(fs, v);
        if AllHold(fs, v) {
          assert forall f | f in Set(fs) :: f in fs;
          AllSound(p.children, v);
          assert ps[0] in ps;
          AllMember(ps, v);
        }
      case _ =>
        AllSound(p.children, v);
        RuleSound(p.rule, ps, v);
    }
  }

  lemma {:induction false} AllSound(ps: seq<Proof>, v: Valuation)
    requires ConcludeAll(ps).Some?
    requires forall f | f in AllFree(ps) :: Holds(f, v)
    ensures AllHold(ConcludeAll(ps).value, v)
    decreases ps, 0
  {
    if ps != [] {
      Sound(ps[0], v);
      AllSound(ps[1..], v);
      var ts := ConcludeAll(ps).value;
      assert ts[1..] == ConcludeAll(ps[1..]).value;
    }
  }

  ghost predicate Valid(t: Term) {
    forall v: Valuation :: Holds(t, v)
  }

  /** A proof without free assumptions concludes a valid formula. */
  lemma ClosedProofIsValid(p: Proof)
    requires Conclude(p).Some? && FreeAssumptions(p) == {}
    ensures Valid(Conclude(p).value)
  {
    forall v: Valuation { Sound(p, v); }
  }

  // ---------------------------------------------------------------------------
  // Which assumptions are free
  // ---------------------------------------------------------------------------

  /** Some branch ends in the assumption, and no SCOPE on the way binds it. */
  predicate Assumed(p: Proof, f: Term) {
    if p.rule.ASSUME? then f == p.rule.f
    else
      && !(p.rule.SCOPE? && f in p.rule.fs)
      && exists i :: 0 <= i < |p.children| && Assumed(p.children[i], f)
  }

  lemma {:induction false} FreeIff(p: Proof, f: Term)
    ensures f in FreeAssumptions(p) <==> Assumed(p, f)
    decreases p, 1
  {
    SomeFree(p.children, f);
  }

  lemma {:induction false} SomeFree(ps: seq<Proof>, f: Term)
    ensures f in AllFree(ps) <==> exists i :: 0 <= i < |ps| && Assumed(ps[i], f)
    decreases ps, 0
  {
    if ps != [] {
      FreeIff(ps[0], f);
      SomeFree(ps[1..], f);
      if i :| 0 <= i < |ps| && Assumed(ps[i], f) { assert i > 0 ==> ps[1..][i - 1] == ps[i]; }
      if i :| 0 <= i < |ps[1..]| && Assumed(ps[1..][i], f) { assert ps[i + 1] == ps[1..][i]; }
    }
  }

  /** A proof under assumptions becomes one of the implication, and no assumption is left. */
  lemma Discharged(p: Proof, fs: seq<Term>)
    requires Conclude(p).Some? && FreeAssumptions(p) <= Set(fs) && fs != []
    ensures var q, t, all := Step(SCOPE(fs), [p]), Conclude(p).value, if |fs| == 1 then fs[0] else And(fs);
            && FreeAssumptions(q) == {}
            && Conclude(q) == Some(if t == Bool(false) then Not(all) else Implies(all, t))
  {
    assert [p][1..] == [] && AllFree([]) == {} && AllFree([p]) == FreeAssumptions(p) + AllFree([p][1..]);
    assert ConcludeAll([]) == Some([]) && ConcludeAll([p]) == Some([Conclude(p).value] + []);
    assert [Conclude(p).value] + [] == [Conclude(p).value];
  }
}
