/** What the rules of one connective amount to together: taking a formula apart loses nothing,
    the clauses of the Tseitin transformation define it, and each clause is the one of its
    elimination rule. */
module RuleFamilies {
  import opened Wrappers
  import opened BooleanRules
  import opened ProofSoundness

  // ---------------------------------------------------------------------------
  // Taking formulas apart
  // ---------------------------------------------------------------------------

  function AndElims(n: nat): (r: seq<Rule>)
    ensures |r| == n && forall i :: 0 <= i < n ==> r[i] == AND_ELIM(i)
  {
    seq(n, i requires 0 <= i => AND_ELIM(i))
  }

  function NotOrElims(n: nat): (r: seq<Rule>)
    ensures |r| == n && forall i :: 0 <= i < n ==> r[i] == NOT_OR_ELIM(i)
  {
    seq(n, i requires 0 <= i => NOT_OR_ELIM(i))
  }

  /** The rules for a formula of this shape, if there are any. */
  function ElimRules(p: Term): Option<seq<Rule>> {
    match p
    case And(ts) => Some(AndElims(|ts|))
    case Implies(_, _) => Some([IMPLIES_ELIM])
    case Eq(_, _) => Some([EQUIV_ELIM1, EQUIV_ELIM2])
    case Xor(_, _) => Some([XOR_ELIM1, XOR_ELIM2])
    case Ite(_, _, _) => Some([ITE_ELIM1, ITE_ELIM2])
    case Not(q) =>
      (match q
       case Not(_) => Some([NOT_NOT_ELIM])
       case And(_) => Some([NOT_AND])
       case Or(ts) => Some(NotOrElims(|ts|))
       case Implies(_, _) => Some([NOT_IMPLIES_ELIM1, NOT_IMPLIES_ELIM2])
       case Eq(_, _) => Some([NOT_EQUIV_ELIM1, NOT_EQUIV_ELIM2])
       case Xor(_, _) => Some([NOT_XOR_ELIM1, NOT_XOR_ELIM2])
       case Ite(_, _, _) => Some([NOT_ITE_ELIM1, NOT_ITE_ELIM2])
       case _ => None)
    case _ => None
  }

  /** Whether a rule has one premise that it takes apart. */
  predicate IsElimination(rule: Rule) {
    !IsClauseRule(rule) && !rule.ASSUME? && !rule.SCOPE? && !rule.EQ_RESOLVE? && !rule.MODUS_PONENS?
    && !rule.CONTRA? && !rule.AND_INTRO?
  }

  lemma CheckIsElim(rule: Rule, p: Term)
    requires IsElimination(rule)
    ensures Check(rule, [p]) == CheckElimOne(rule, p)
  {
  }

  /** A rule applies to exactly the premises of its shape. */
  lemma AppliesIff(rule: Rule, p: Term)
    requires IsElimination(rule)
    ensures Check(rule, [p]).Some? <==> ElimRules(p).Some? && rule in ElimRules(p).value
  {
    CheckIsElim(rule, p);
    if rule.AND_ELIM? {
      if p.And? && rule.i < |p.ts| { assert AndElims(|p.ts|)[rule.i] == rule; }
    } else if rule.NOT_OR_ELIM? {
      if p.Not? && p.t.Or? && rule.i < |p.t.ts| { assert NotOrElims(|p.t.ts|)[rule.i] == rule; }
    } else {
      FixedShape(rule, p);
    }
  }

  lemma FixedShape(rule: Rule, p: Term)
    requires IsElimination(rule) && !rule.AND_ELIM? && !rule.NOT_OR_ELIM?
    ensures CheckElimOne(rule, p).Some? <==> ElimRules(p).Some? && rule in ElimRules(p).value
  {
    if p.And? { assert forall i :: 0 <= i < |p.ts| ==> AndElims(|p.ts|)[i] != rule; }
    if p.Not? && p.t.Or? { assert forall i :: 0 <= i < |p.t.ts| ==> NotOrElims(|p.t.ts|)[i] != rule; }
  }

  /** All rules for a formula apply to it, and these are their conclusions, in order. */
  ghost predicate Concluded(p: Term, cs: seq<Term>)
    requires ElimRules(p).Some?
  {
    var rules := ElimRules(p).value;
    |cs| == |rules| && forall i :: 0 <= i < |rules| ==> Check(rules[i], [p]) == Some(cs[i])
  }

  lemma ConcludedAt(p: Term, cs: seq<Term>, i: nat)
    requires ElimRules(p).Some? && Concluded(p, cs) && i < |cs|
    ensures CheckElimOne(ElimRules(p).value[i], p) == Some(cs[i])
  {
    CheckIsElim(ElimRules(p).value[i], p);
  }

  lemma ConcludesAll(p: Term) returns (cs: seq<Term>)
    requires ElimRules(p).Some?
    ensures Concluded(p, cs)
  {
    var rules := ElimRules(p).value;
    forall i | 0 <= i < |rules| ensures Check(rules[i], [p]).Some? { AppliesIff(rules[i], p); }
    cs := seq(|rules|, i requires 0 <= i < |rules| => Check(rules[i], [p]).value);
  }

  /** The conclusions of all rules for a formula hold together exactly when the formula does. */
  lemma TakenApart(p: Term, cs: seq<Term>, v: Valuation)
    requires ElimRules(p).Some? && Concluded(p, cs)
    ensures Holds(p, v) <==> forall i :: 0 <= i < |cs| ==> Holds(cs[i], v)
  {
    var rules := ElimRules(p).value;
    forall i | 0 <= i < |cs|
      ensures CheckElimOne(rules[i], p) == Some(cs[i]) && (Holds(p, v) ==> Holds(cs[i], v))
    {
      ConcludedAt(p, cs, i);
      if Holds(p, v) { ElimOneSound(rules[i], p, v); }
    }
    if forall i :: 0 <= i < |cs| ==> Holds(cs[i], v) { PutBack(p, v); }
  }

  /** Whether the rule's conclusion holds, as far as the rule applies. */
  predicate Gives(rule: Rule, p: Term, v: Valuation) {
    CheckElimOne(rule, p).Some? && Holds(CheckElimOne(rule, p).value, v)
  }

  lemma PutBack(p: Term, v: Valuation)
    requires ElimRules(p).Some?
    requires forall i :: 0 <= i < |ElimRules(p).value| ==> Gives(ElimRules(p).value[i], p, v)
    ensures Holds(p, v)
  {
    var rules := ElimRules(p).value;
    if p.And? {
      AndBack(p, v);
    } else if p.Not? {
      NotBack(p, v);
    } else if p.Implies? {
      assert Gives(rules[0], p, v);
      ImpliesBack(p, v);
    } else {
      PairBack(p, v);
    }
  }

  lemma AndBack(p: Term, v: Valuation)
    requires p.And? && forall i :: 0 <= i < |p.ts| ==> Gives(AndElims(|p.ts|)[i], p, v)
    ensures Holds(p, v)
  {
    AllMember(p.ts, v);
    forall t | t in p.ts ensures Holds(t, v) {
      var i :| 0 <= i < |p.ts| && p.ts[i] == t;
      assert Gives(AndElims(|p.ts|)[i], p, v);
    }
  }

  lemma ImpliesBack(p: Term, v: Valuation)
    requires p.Implies? && Gives(IMPLIES_ELIM, p, v)
    ensures Holds(p, v)
  {
    Two(Not(p.a), p.b', v);
  }

  lemma PairBack(p: Term, v: Valuation)
    requires p.Eq? || p.Xor? || p.Ite?
    requires Gives(ElimRules(p).value[0], p, v) && Gives(ElimRules(p).value[1], p, v)
    ensures Holds(p, v)
  {
    if p.Eq? {
      Two(Not(p.a), p.b', v);
      Two(p.a, Not(p.b'), v);
    } else if p.Xor? {
      Two(p.a, p.b', v);
      Two(Not(p.a), Not(p.b'), v);
    } else {
      Two(Not(p.c), p.a, v);
      Two(p.c, p.b', v);
    }
  }

  lemma NotBack(p: Term, v: Valuation)
    requires p.Not? && ElimRules(p).Some?
    requires forall i :: 0 <= i < |ElimRules(p).value| ==> Gives(ElimRules(p).value[i], p, v)
    ensures Holds(p, v)
  {
    var rules, q := ElimRules(p).value, p.t;
    if q.Or? {
      NotOrBack(p, v);
    } else if q.And? {
      assert Gives(rules[0], p, v);
      NegatedHolds(q.ts, v);
    } else if q.Not? {
      assert Gives(rules[0], p, v);
    } else {
      NotPairBack(p, v);
    }
  }

  lemma NotOrBack(p: Term, v: Valuation)
    requires p.Not? && p.t.Or? && forall i :: 0 <= i < |p.t.ts| ==> Gives(NotOrElims(|p.t.ts|)[i], p, v)
    ensures Holds(p, v)
  {
    AnyMember(p.t.ts, v);
    forall t | t in p.t.ts ensures !Holds(t, v) {
      var i :| 0 <= i < |p.t.ts| && p.t.ts[i] == t;
      assert Gives(NotOrElims(|p.t.ts|)[i], p, v);
    }
  }

  lemma NotPairBack(p: Term, v: Valuation)
    requires p.Not? && (p.t.Implies? || p.t.Eq? || p.t.Xor? || p.t.Ite?)
    requires Gives(ElimRules(p).value[0], p, v) && Gives(ElimRules(p).value[1], p, v)
    ensures Holds(p, v)
  {
    var q := p.t;
    if q.Eq? {
      Two(q.a, q.b', v);
      Two(Not(q.a), Not(q.b'), v);
    } else if q.Xor? {
      Two(q.a, Not(q.b'), v);
      Two(Not(q.a), q.b', v);
    } else if q.Ite? {
      Two(Not(q.c), Not(q.a), v);
      Two(q.c, Not(q.b'), v);
    }
  }

  // ---------------------------------------------------------------------------
  // Which conclusion is which
  // ---------------------------------------------------------------------------

  /** Introducing what was eliminated, child by child, gives the conjunction back. */
  lemma AndElimIntro(ts: seq<Term>, cs: seq<Term>)
    requires |ts| >= 2 && |cs| == |ts|
    requires forall i :: 0 <= i < |ts| ==> Check(AND_ELIM(i), [And(ts)]) == Some(cs[i])
    ensures Check(AND_INTRO, cs) == Some(And(ts))
  {
    forall i | 0 <= i < |ts| ensures cs[i] == ts[i] { CheckIsElim(AND_ELIM(i), And(ts)); }
    assert cs == ts;
  }

  /** The conclusions about a disjunction, and the literals of a negated conjunction,
      contradict the children, each its own. */
  lemma ContradictsChild(ts: seq<Term>, i: nat)
    requires i < |ts|
    ensures var c := Check(NOT_OR_ELIM(i), [Not(Or(ts))]);
            c.Some? && Check(CONTRA, [ts[i], c.value]) == Some(Bool(false))
    ensures var c := Check(NOT_AND, [Not(And(ts))]);
            && c.Some? && c.value.Or? && |c.value.ts| == |ts|
            && Check(CONTRA, [ts[i], c.value.ts[i]]) == Some(Bool(false))
  {
    CheckIsElim(NOT_OR_ELIM(i), Not(Or(ts)));
    CheckIsElim(NOT_AND, Not(And(ts)));
  }

  lemma ContraIff(p: Term, q: Term)
    ensures Check(CONTRA, [p, q]) == (if q == Not(p) then Some(Bool(false)) else None)
  {
  }

  /** From this premise the rule concludes what NOT_AND concludes: not both formulas hold. */
  predicate Excludes(rule: Rule, p: Term, a: Term, b: Term) {
    CheckElimOne(rule, p).Some? && CheckElimOne(rule, p) == CheckElimOne(NOT_AND, Not(And([a, b])))
  }

  lemma IsExcluding(rule: Rule, p: Term, a: Term, b: Term)
    requires CheckElimOne(rule, p) == Some(Or([Not(a), Not(b)]))
    ensures Excludes(rule, p, a, b)
  {
    assert Negated([a, b]) == [Not(a), Not(b)];
  }

  /** Every clause of two literals excludes one case of its operands, which enter in their order;
      an operand enters negated where it holds in that case. */
  lemma EquivalencesExclude(a: Term, b: Term)
    ensures Excludes(IMPLIES_ELIM, Implies(a, Not(b)), a, b)
    ensures Excludes(EQUIV_ELIM1, Eq(a, Not(b)), a, b) && Excludes(EQUIV_ELIM2, Eq(Not(a), b), a, b)
    ensures Excludes(NOT_EQUIV_ELIM1, Not(Eq(Not(a), Not(b))), a, b)
    ensures Excludes(NOT_EQUIV_ELIM2, Not(Eq(a, b)), a, b)
  {
    IsExcluding(IMPLIES_ELIM, Implies(a, Not(b)), a, b);
    IsExcluding(EQUIV_ELIM1, Eq(a, Not(b)), a, b);
    IsExcluding(EQUIV_ELIM2, Eq(Not(a), b), a, b);
    IsExcluding(NOT_EQUIV_ELIM1, Not(Eq(Not(a), Not(b))), a, b);
    IsExcluding(NOT_EQUIV_ELIM2, Not(Eq(a, b)), a, b);
  }

  lemma ExclusiveOrsExclude(a: Term, b: Term)
    ensures Excludes(XOR_ELIM1, Xor(Not(a), Not(b)), a, b) && Excludes(XOR_ELIM2, Xor(a, b), a, b)
    ensures Excludes(NOT_XOR_ELIM1, Not(Xor(Not(a), b)), a, b)
    ensures Excludes(NOT_XOR_ELIM2, Not(Xor(a, Not(b))), a, b)
  {
    IsExcluding(XOR_ELIM1, Xor(Not(a), Not(b)), a, b);
    IsExcluding(XOR_ELIM2, Xor(a, b), a, b);
    IsExcluding(NOT_XOR_ELIM1, Not(Xor(Not(a), b)), a, b);
    IsExcluding(NOT_XOR_ELIM2, Not(Xor(a, Not(b))), a, b);
  }

  lemma ConditionalsExclude(a: Term, b: Term, other: Term)
    ensures Excludes(ITE_ELIM1, Ite(a, Not(b), other), a, b)
    ensures Excludes(ITE_ELIM2, Ite(Not(a), other, Not(b)), a, b)
    ensures Excludes(NOT_ITE_ELIM1, Not(Ite(a, b, other)), a, b)
    ensures Excludes(NOT_ITE_ELIM2, Not(Ite(Not(a), other, b)), a, b)
  {
    IsExcluding(ITE_ELIM1, Ite(a, Not(b), other), a, b);
    IsExcluding(ITE_ELIM2, Ite(Not(a), other, Not(b)), a, b);
    IsExcluding(NOT_ITE_ELIM1, Not(Ite(a, b, other)), a, b);
    IsExcluding(NOT_ITE_ELIM2, Not(Ite(Not(a), other, b)), a, b);
  }

  /** The rules that conclude one side of a negated formula. */
  lemma SidesContradict(a: Term, b: Term)
    ensures CheckElimOne(NOT_IMPLIES_ELIM1, Not(Implies(Not(a), b))) == CheckElimOne(NOT_OR_ELIM(0), Not(Or([a, b])))
    ensures CheckElimOne(NOT_IMPLIES_ELIM2, Not(Implies(a, b))) == CheckElimOne(NOT_OR_ELIM(1), Not(Or([a, b])))
    ensures CheckElimOne(NOT_NOT_ELIM, Not(Not(a))) == CheckElimOne(AND_ELIM(0), And([a, b]))
  {
  }

  // ---------------------------------------------------------------------------
  // Rules that undo each other
  // ---------------------------------------------------------------------------

  /** A conclusion under assumptions comes back from the assumptions and what SCOPE makes of it. */
  lemma ScopeUndone(fs: seq<Term>, p: Term)
    requires fs != []
    ensures var all, scope := Check(AND_INTRO, fs), Check(SCOPE(fs), [p]);
            && all.Some? && scope.Some?
            && Check(if p == Bool(false) then CONTRA else MODUS_PONENS, [all.value, scope.value]) == Some(p)
    ensures Check(SCOPE([]), [p]) == Some(p)
  {
  }

  lemma EqResolveBack(a: Term, b: Term)
    ensures var c := Check(EQ_RESOLVE, [a, Eq(a, b)]);
            c.Some? && Check(EQ_RESOLVE, [c.value, Eq(b, a)]) == Some(a)
  {
  }

  /** Equality resolution and modus ponens refuse a second premise about another formula. */
  lemma PremisesMatch(a: Term, p: Term)
    ensures Check(EQ_RESOLVE, [a, p]).Some? <==> exists b :: p == Eq(a, b)
    ensures Check(MODUS_PONENS, [a, p]).Some? <==> exists b :: p == Implies(a, b)
  {
    if p.Eq? && p.a == a { assert p == Eq(a, p.b'); }
    if p.Implies? && p.a == a { assert p == Implies(a, p.b'); }
  }

  // ---------------------------------------------------------------------------
  // The clauses of the Tseitin transformation
  // ---------------------------------------------------------------------------

  function AndClauses(f: Term, n: nat): (r: seq<Rule>)
    ensures |r| == n && forall i :: 0 <= i < n ==> r[i] == CNF_AND_POS(f, i)
  {
    seq(n, i requires 0 <= i => CNF_AND_POS(f, i))
  }

  function OrClauses(f: Term, n: nat): (r: seq<Rule>)
    ensures |r| == n && forall i :: 0 <= i < n ==> r[i] == CNF_OR_NEG(f, i)
  {
    seq(n, i requires 0 <= i => CNF_OR_NEG(f, i))
  }

  /** The clauses for a formula of this shape. */
  function CnfRules(f: Term): Option<seq<Rule>> {
    match f
    case And(ts) => Some([CNF_AND_NEG(f)] + AndClauses(f, |ts|))
    case Or(ts) => Some([CNF_OR_POS(f)] + OrClauses(f, |ts|))
    case Implies(_, _) => Some([CNF_IMPLIES_POS(f), CNF_IMPLIES_NEG1(f), CNF_IMPLIES_NEG2(f)])
    case Eq(_, _) => Some([CNF_EQUIV_POS1(f), CNF_EQUIV_POS2(f), CNF_EQUIV_NEG1(f), CNF_EQUIV_NEG2(f)])
    case Xor(_, _) => Some([CNF_XOR_POS1(f), CNF_XOR_POS2(f), CNF_XOR_NEG1(f), CNF_XOR_NEG2(f)])
    case Ite(_, _, _) => Some([CNF_ITE_POS1(f), CNF_ITE_POS2(f), CNF_ITE_NEG1(f), CNF_ITE_NEG2(f),
                               CNF_ITE_POS3(f), CNF_ITE_NEG3(f)])
    case _ => None
  }

  /** A literal where the formula `f` itself is taken to be `x`. */
  predicate LiteralHolds(l: Term, f: Term, x: bool, v: Valuation) {
    if l == f then x else if l == Not(f) then !x else Holds(l, v)
  }

  predicate ClauseHolds(c: Term, f: Term, x: bool, v: Valuation)
    requires c.Or?
  {
    exists l :: l in c.ts && LiteralHolds(l, f, x, v)
  }

  /** A child of a formula, plain or negated, is neither the formula nor its negation. */
  lemma ChildApart(t: Term, f: Term, x: bool, v: Valuation)
    requires t < f && !f.Not?
    ensures LiteralHolds(t, f, x, v) == Holds(t, v) && LiteralHolds(Not(t), f, x, v) == !Holds(t, v)
  {
    assert f < Not(f);
  }

  lemma OwnLiterals(f: Term, x: bool, v: Valuation)
    ensures LiteralHolds(f, f, x, v) == x && LiteralHolds(Not(f), f, x, v) == !x
  {
    assert f < Not(f);
  }

  lemma TwoLiterals(a: Term, b: Term, f: Term, x: bool, v: Valuation)
    ensures ClauseHolds(Or([a, b]), f, x, v) <==> LiteralHolds(a, f, x, v) || LiteralHolds(b, f, x, v)
  {
    var ts := [a, b];
    assert a in ts && b in ts;
  }

  lemma ThreeLiterals(a: Term, b: Term, c: Term, f: Term, x: bool, v: Valuation)
    ensures ClauseHolds(Or([a, b, c]), f, x, v) <==>
            LiteralHolds(a, f, x, v) || LiteralHolds(b, f, x, v) || LiteralHolds(c, f, x, v)
  {
    var ts := [a, b, c];
    assert a in ts && b in ts && c in ts;
  }

  lemma CheckIsCnf(rule: Rule)
    requires IsElimination(rule)
    ensures Check(rule, []) == CheckCnf(rule)
  {
  }

  /** All clauses for the formula, in order. */
  ghost predicate Clauses(f: Term, cs: seq<Term>)
    requires CnfRules(f).Some?
  {
    var rules := CnfRules(f).value;
    |cs| == |rules| && forall i :: 0 <= i < |rules| ==> cs[i].Or? && Check(rules[i], []) == Some(cs[i])
  }

  lemma ClauseAt(f: Term, cs: seq<Term>, i: nat)
    requires CnfRules(f).Some? && Clauses(f, cs) && i < |cs|
    ensures cs[i].Or? && CheckCnf(CnfRules(f).value[i]) == Some(cs[i])
  {
    CheckIsCnf(CnfRules(f).value[i]);
  }

  /** At the formula's own value, a clause is what it is. */
  lemma AtOwnValue(c: Term, f: Term, v: Valuation)
    requires c.Or?
    ensures ClauseHolds(c, f, Holds(f, v), v) <==> Holds(c, v)
  {
    AnyMember(c.ts, v);
    assert forall l :: LiteralHolds(l, f, Holds(f, v), v) == Holds(l, v);
    assert Holds(c, v) == AnyHolds(c.ts, v);
    if t :| t in c.ts && Holds(t, v) { assert LiteralHolds(t, f, Holds(f, v), v); }
  }

  /** The clauses for a connective, with the formula itself taken to be `x`, hold together exactly
      when `x` is the value of the formula. */
  lemma ClausesDefine(f: Term, cs: seq<Term>, x: bool, v: Valuation)
    requires CnfRules(f).Some? && Clauses(f, cs)
    ensures x == Holds(f, v) <==> forall i :: 0 <= i < |cs| ==> ClauseHolds(cs[i], f, x, v)
  {
    forall i | 0 <= i < |cs| ensures CheckCnf(CnfRules(f).value[i]) == Some(cs[i]) && cs[i].Or? {
      ClauseAt(f, cs, i);
    }
    if x == Holds(f, v) {
      forall i | 0 <= i < |cs| ensures ClauseHolds(cs[i], f, x, v) {
        CnfRuleSound(CnfRules(f).value[i], v);
        AtOwnValue(cs[i], f, v);
      }
    } else {
      var i := SomeClauseFails(f, x, v);
      ClauseAt(f, cs, i);
    }
  }

  /** The clause fails when the formula is taken to be `x`. */
  predicate Fails(rule: Rule, f: Term, x: bool, v: Valuation) {
    CheckCnf(rule).Some? && CheckCnf(rule).value.Or? && !ClauseHolds(CheckCnf(rule).value, f, x, v)
  }

  lemma SomeClauseFails(f: Term, x: bool, v: Valuation) returns (i: nat)
    requires CnfRules(f).Some? && x != Holds(f, v)
    ensures i < |CnfRules(f).value| && Fails(CnfRules(f).value[i], f, x, v)
  {
    OwnLiterals(f, x, v);
    if f.And? {
      i := AndFails(f, x, v);
    } else if f.Or? {
      i := OrFails(f, x, v);
    } else if f.Implies? {
      i := ImpliesFails(f, x, v);
    } else if f.Ite? {
      i := IteFails(f, x, v);
    } else {
      i := EqualFails(f, x, v);
    }
  }

  lemma AndFails(f: Term, x: bool, v: Valuation) returns (i: nat)
    requires f.And? && x != Holds(f, v)
    ensures i < 1 + |f.ts| && Fails(CnfRules(f).value[i], f, x, v)
  {
    OwnLiterals(f, x, v);
    AllMember(f.ts, v);
    if x {
      var t :| t in f.ts && !Holds(t, v);
      var k :| 0 <= k < |f.ts| && f.ts[k] == t;
      i := 1 + k;
      ChildApart(t, f, x, v);
      TwoLiterals(Not(f), t, f, x, v);
      assert CnfRules(f).value[i] == CNF_AND_POS(f, k);
    } else {
      i := 0;
      var ts := [f] + Negated(f.ts);
      forall l | l in ts ensures !LiteralHolds(l, f, x, v) {
        if l != f {
          var k :| 0 <= k < |f.ts| && l == Negated(f.ts)[k];
          assert f.ts[k] in f.ts;
          ChildApart(f.ts[k], f, x, v);
        }
      }
      assert !ClauseHolds(Or(ts), f, x, v);
    }
  }

  lemma OrFails(f: Term, x: bool, v: Valuation) returns (i: nat)
    requires f.Or? && x != Holds(f, v)
    ensures i < 1 + |f.ts| && Fails(CnfRules(f).value[i], f, x, v)
  {
    OwnLiterals(f, x, v);
    AnyMember(f.ts, v);
    if !x {
      var t :| t in f.ts && Holds(t, v);
      var k :| 0 <= k < |f.ts| && f.ts[k] == t;
      i := 1 + k;
      ChildApart(t, f, x, v);
      TwoLiterals(f, Not(t), f, x, v);
      assert CnfRules(f).value[i] == CNF_OR_NEG(f, k);
    } else {
      i := 0;
      var ts := [Not(f)] + f.ts;
      forall l | l in ts ensures !LiteralHolds(l, f, x, v) {
        if l != Not(f) {
          assert l in f.ts;
          ChildApart(l, f, x, v);
        }
      }
      assert !ClauseHolds(Or(ts), f, x, v);
    }
  }

  lemma ImpliesFails(f: Term, x: bool, v: Valuation) returns (i: nat)
    requires f.Implies? && x != Holds(f, v)
    ensures i < 3 && Fails(CnfRules(f).value[i], f, x, v)
  {
    OwnLiterals(f, x, v);
    ChildApart(f.a, f, x, v);
    ChildApart(f.b', f, x, v);
    ThreeLiterals(Not(f), Not(f.a), f.b', f, x, v);
    TwoLiterals(f, f.a, f, x, v);
    TwoLiterals(f, Not(f.b'), f, x, v);
    i := if x then 0 else if Holds(f.a, v) then 2 else 1;
  }

  /** A clause of the formula's own literal and two on its children fails when all three do. */
  lemma ThreeFail(rule: Rule, own: Term, l: Term, r: Term, f: Term, x: bool, v: Valuation)
    requires CheckCnf(rule) == Some(Or([own, l, r])) && own == if x then Not(f) else f
    requires !LiteralHolds(l, f, x, v) && !LiteralHolds(r, f, x, v)
    ensures Fails(rule, f, x, v)
  {
    OwnLiterals(f, x, v);
    ThreeLiterals(own, l, r, f, x, v);
  }

  lemma EqualFails(f: Term, x: bool, v: Valuation) returns (i: nat)
    requires (f.Eq? || f.Xor?) && x != Holds(f, v)
    ensures i < 4 && Fails(CnfRules(f).value[i], f, x, v)
  {
    if f.Eq? { i := EqFails(f, x, v); } else { i := XorFails(f, x, v); }
  }

  lemma EqFails(f: Term, x: bool, v: Valuation) returns (i: nat)
    requires f.Eq? && x != Holds(f, v)
    ensures i < 4 && Fails(CnfRules(f).value[i], f, x, v)
  {
    ChildApart(f.a, f, x, v);
    ChildApart(f.b', f, x, v);
    if x && Holds(f.a, v) {
      ThreeFail(CNF_EQUIV_POS1(f), Not(f), Not(f.a), f.b', f, x, v);
      i := 0;
    } else if x {
      ThreeFail(CNF_EQUIV_POS2(f), Not(f), f.a, Not(f.b'), f, x, v);
      i := 1;
    } else if Holds(f.a, v) {
      ThreeFail(CNF_EQUIV_NEG2(f), f, Not(f.a), Not(f.b'), f, x, v);
      i := 3;
    } else {
      ThreeFail(CNF_EQUIV_NEG1(f), f, f.a, f.b', f, x, v);
      i := 2;
    }
  }

  lemma XorFails(f: Term, x: bool, v: Valuation) returns (i: nat)
    requires f.Xor? && x != Holds(f, v)
    ensures i < 4 && Fails(CnfRules(f).value[i], f, x, v)
  {
    ChildApart(f.a, f, x, v);
    ChildApart(f.b', f, x, v);
    if x && Holds(f.a, v) {
      ThreeFail(CNF_XOR_POS2(f), Not(f), Not(f.a), Not(f.b'), f, x, v);
      i := 1;
    } else if x {
      ThreeFail(CNF_XOR_POS1(f), Not(f), f.a, f.b', f, x, v);
      i := 0;
    } else if Holds(f.a, v) {
      ThreeFail(CNF_XOR_NEG1(f), f, Not(f.a), f.b', f, x, v);
      i := 2;
    } else {
      ThreeFail(CNF_XOR_NEG2(f), f, f.a, Not(f.b'), f, x, v);
      i := 3;
    }
  }

  lemma IteFails(f: Term, x: bool, v: Valuation) returns (i: nat)
    requires f.Ite? && x != Holds(f, v)
    ensures i < 6 && Fails(CnfRules(f).value[i], f, x, v)
  {
    ChildApart(f.c, f, x, v);
    ChildApart(f.a, f, x, v);
    ChildApart(f.b', f, x, v);
    if x && Holds(f.c, v) {
      ThreeFail(CNF_ITE_POS1(f), Not(f), Not(f.c), f.a, f, x, v);
      i := 0;
    } else if x {
      ThreeFail(CNF_ITE_POS2(f), Not(f), f.c, f.b', f, x, v);
      i := 1;
    } else if Holds(f.c, v) {
      ThreeFail(CNF_ITE_NEG1(f), f, Not(f.c), Not(f.a), f, x, v);
      i := 2;
    } else {
      ThreeFail(CNF_ITE_NEG2(f), f, f.c, Not(f.b'), f, x, v);
      i := 3;
    }
  }

  // ---------------------------------------------------------------------------
  // Clauses and eliminations
  // ---------------------------------------------------------------------------

  /** The elimination rule for the same part of the formula, or of its negation, if there is one. */
  function Twin(rule: Rule): Option<(Rule, bool)> {
    match rule
    case CNF_AND_POS(_, i) => Some((AND_ELIM(i), true))
    case CNF_AND_NEG(_) => Some((NOT_AND, false))
    case CNF_OR_NEG(_, i) => Some((NOT_OR_ELIM(i), false))
    case CNF_IMPLIES_POS(_) => Some((IMPLIES_ELIM, true))
    case CNF_IMPLIES_NEG1(_) => Some((NOT_IMPLIES_ELIM1, false))
    case CNF_IMPLIES_NEG2(_) => Some((NOT_IMPLIES_ELIM2, false))
    case CNF_EQUIV_POS1(_) => Some((EQUIV_ELIM1, true))
    case CNF_EQUIV_POS2(_) => Some((EQUIV_ELIM2, true))
    case CNF_EQUIV_NEG1(_) => Some((NOT_EQUIV_ELIM1, false))
    case CNF_EQUIV_NEG2(_) => Some((NOT_EQUIV_ELIM2, false))
    case CNF_XOR_POS1(_) => Some((XOR_ELIM1, true))
    case CNF_XOR_POS2(_) => Some((XOR_ELIM2, true))
    case CNF_XOR_NEG1(_) => Some((NOT_XOR_ELIM2, false))
    case CNF_XOR_NEG2(_) => Some((NOT_XOR_ELIM1, false))
    case CNF_ITE_POS1(_) => Some((ITE_ELIM1, true))
    case CNF_ITE_POS2(_) => Some((ITE_ELIM2, true))
    case CNF_ITE_NEG1(_) => Some((NOT_ITE_ELIM1, false))
    case CNF_ITE_NEG2(_) => Some((NOT_ITE_ELIM2, false))
    case _ => None
  }

  /** Resolution takes a literal off the head of a clause. */
  lemma HeadResolved(own: Term, rest: seq<Term>, f: Term, plain: bool)
    requires own == if plain then Not(f) else f
    ensures Check(RESOLUTION(!plain, f), [Or([own] + rest), if plain then f else Not(f)]) == Some(MkOr(rest))
  {
    var ts, other := [own] + rest, if plain then f else Not(f);
    assert own < Or(ts) by { assert ts[0] == own; }
    assert Literals(Or(ts), own) == ts && ts[1..] == rest;
    assert Literals(other, other) == [other] && [other][1..] == [];
    assert RemoveFirst(ts, own) == rest && RemoveFirst([other], other) == [];
    assert rest + [] == rest;
  }

  /** Resolved with the formula, or its negation, the clause of a rule is what the elimination
      rule for the same part concludes from it. */
  lemma TwinResolves(rule: Rule, f: Term)
    requires Twin(rule).Some? && rule.f == f && CheckCnf(rule).Some?
    requires rule.CNF_AND_NEG? ==> |f.ts| >= 2
    ensures var (elim, plain) := Twin(rule).value;
            var p := if plain then f else Not(f);
            && Check(RESOLUTION(!plain, f), [CheckCnf(rule).value, p]) == Check(elim, [p])
            && Check(elim, [p]).Some?
  {
    var (elim, plain) := Twin(rule).value;
    var c := CheckCnf(rule).value;
    CheckIsElim(elim, if plain then f else Not(f));
    ClauseOwn(rule, f);
    HeadResolved(c.ts[0], c.ts[1..], f, plain);
    assert c.ts == [c.ts[0]] + c.ts[1..];
    TwinConcludes(rule, f);
  }

  /** Each clause starts with the formula's own literal. */
  lemma ClauseOwn(rule: Rule, f: Term)
    requires Twin(rule).Some? && rule.f == f && CheckCnf(rule).Some?
    ensures var c := CheckCnf(rule).value;
            c.Or? && c.ts != [] && c.ts[0] == if Twin(rule).value.1 then Not(f) else f
  {
  }

  lemma TwinConcludes(rule: Rule, f: Term)
    requires Twin(rule).Some? && rule.f == f && CheckCnf(rule).Some?
    requires rule.CNF_AND_NEG? ==> |f.ts| >= 2
    ensures var (elim, plain) := Twin(rule).value;
            var c := CheckCnf(rule).value;
            c.Or? && c.ts != [] && CheckElimOne(elim, if plain then f else Not(f)) == Some(MkOr(c.ts[1..]))
  {
    if rule.CNF_AND_NEG? {
      assert CheckCnf(rule).value.ts[1..] == Negated(f.ts);
    } else if f.Eq? {
      EqTwin(rule, f);
    } else if f.Xor? {
      XorTwin(rule, f);
    } else if f.Ite? {
      IteTwin(rule, f);
    } else if f.Implies? {
      ImpliesTwin(rule, f);
    } else {
      NaryTwin(rule, f);
    }
  }

  lemma Tails(ts: seq<Term>)
    requires |ts| == 2 || |ts| == 3
    ensures MkOr(ts[1..]) == if |ts| == 2 then ts[1] else Or([ts[1], ts[2]])
  {
    assert |ts| == 3 ==> ts[1..] == [ts[1], ts[2]];
  }

  lemma EqTwin(rule: Rule, f: Term)
    requires Twin(rule).Some? && rule.f == f && CheckCnf(rule).Some? && f.Eq?
    ensures var (elim, plain) := Twin(rule).value;
            var c := CheckCnf(rule).value;
            c.Or? && c.ts != [] && CheckElimOne(elim, if plain then f else Not(f)) == Some(MkOr(c.ts[1..]))
  {
    Tails(CheckCnf(rule).value.ts);
  }

  lemma XorTwin(rule: Rule, f: Term)
    requires Twin(rule).Some? && rule.f == f && CheckCnf(rule).Some? && f.Xor?
    ensures var (elim, plain) := Twin(rule).value;
            var c := CheckCnf(rule).value;
            c.Or? && c.ts != [] && CheckElimOne(elim, if plain then f else Not(f)) == Some(MkOr(c.ts[1..]))
  {
    Tails(CheckCnf(rule).value.ts);
  }

  lemma IteTwin(rule: Rule, f: Term)
    requires Twin(rule).Some? && rule.f == f && CheckCnf(rule).Some? && f.Ite?
    ensures var (elim, plain) := Twin(rule).value;
            var c := CheckCnf(rule).value;
            c.Or? && c.ts != [] && CheckElimOne(elim, if plain then f else Not(f)) == Some(MkOr(c.ts[1..]))
  {
    Tails(CheckCnf(rule).value.ts);
  }

  lemma ImpliesTwin(rule: Rule, f: Term)
    requires Twin(rule).Some? && rule.f == f && CheckCnf(rule).Some? && f.Implies?
    ensures var (elim, plain) := Twin(rule).value;
            var c := CheckCnf(rule).value;
            c.Or? && c.ts != [] && CheckElimOne(elim, if plain then f else Not(f)) == Some(MkOr(c.ts[1..]))
  {
    Tails(CheckCnf(rule).value.ts);
  }

  lemma NaryTwin(rule: Rule, f: Term)
    requires Twin(rule).Some? && rule.f == f && CheckCnf(rule).Some? && (f.And? || f.Or?) && !rule.CNF_AND_NEG?
    ensures var (elim, plain) := Twin(rule).value;
            var c := CheckCnf(rule).value;
            c.Or? && c.ts != [] && CheckElimOne(elim, if plain then f else Not(f)) == Some(MkOr(c.ts[1..]))
  {
    Tails(CheckCnf(rule).value.ts);
  }

  // The clauses without an elimination rule.

  lemma SplitClause(f: Term)
    ensures CheckCnf(SPLIT(f)) == CheckElimOne(XOR_ELIM1, Xor(f, Not(f)))
  {
  }

  lemma OrClause(ts: seq<Term>)
    requires |ts| >= 2
    ensures var c := CheckCnf(CNF_OR_POS(Or(ts)));
            c.Some? && Check(RESOLUTION(false, Or(ts)), [c.value, Or(ts)]) == Some(Or(ts))
  {
    HeadResolved(Not(Or(ts)), ts, Or(ts), true);
  }

  lemma ThirdClauses(f: Term)
    requires f.Ite?
    ensures var c := CheckCnf(CNF_ITE_POS3(f));
            c.Some? && Check(RESOLUTION(false, f), [c.value, f]) == CheckElimOne(XOR_ELIM1, Xor(f.a, f.b'))
    ensures var c := CheckCnf(CNF_ITE_NEG3(f));
            c.Some? && Check(RESOLUTION(true, f), [c.value, Not(f)]) == CheckElimOne(XOR_ELIM2, Xor(f.a, f.b'))
  {
    ThirdResolved(CNF_ITE_POS3(f), f, f.a, f.b', true);
    ThirdResolved(CNF_ITE_NEG3(f), f, Not(f.a), Not(f.b'), false);
  }

  lemma ThirdResolved(rule: Rule, f: Term, l: Term, r: Term, plain: bool)
    requires CheckCnf(rule) == Some(Or([if plain then Not(f) else f, l, r]))
    ensures Check(RESOLUTION(!plain, f), [CheckCnf(rule).value, if plain then f else Not(f)]) == Some(Or([l, r]))
  {
    var own := if plain then Not(f) else f;
    HeadResolved(own, [l, r], f, plain);
    assert [own] + [l, r] == [own, l, r];
  }

  predicate IsTseitin(rule: Rule) {
    rule.CNF_AND_POS? || rule.CNF_AND_NEG? || rule.CNF_OR_POS? || rule.CNF_OR_NEG?
    || rule.CNF_IMPLIES_POS? || rule.CNF_IMPLIES_NEG1? || rule.CNF_IMPLIES_NEG2?
    || rule.CNF_EQUIV_POS1? || rule.CNF_EQUIV_POS2? || rule.CNF_EQUIV_NEG1? || rule.CNF_EQUIV_NEG2?
    || rule.CNF_XOR_POS1? || rule.CNF_XOR_POS2? || rule.CNF_XOR_NEG1? || rule.CNF_XOR_NEG2?
    || rule.CNF_ITE_POS1? || rule.CNF_ITE_POS2? || rule.CNF_ITE_POS3?
    || rule.CNF_ITE_NEG1? || rule.CNF_ITE_NEG2? || rule.CNF_ITE_NEG3?
  }

  /** A clause is given for exactly the formulas of its connective. */
  lemma ClauseIff(rule: Rule)
    requires IsTseitin(rule)
    ensures CheckCnf(rule).Some? <==> CnfRules(rule.f).Some? && rule in CnfRules(rule.f).value
  {
    var f := rule.f;
    if f.And? {
      AndMembers(rule, f, |f.ts|);
    } else if f.Or? {
      OrMembers(rule, f, |f.ts|);
    } else {
      OtherMembers(rule, f);
    }
  }

  lemma AndMembers(rule: Rule, f: Term, n: nat)
    ensures rule in AndClauses(f, n) <==> rule.CNF_AND_POS? && rule.f == f && rule.i < n
    ensures rule in [CNF_AND_NEG(f)] + AndClauses(f, n) <==> rule == CNF_AND_NEG(f) || rule in AndClauses(f, n)
  {
    if rule.CNF_AND_POS? && rule.f == f && rule.i < n { assert AndClauses(f, n)[rule.i] == rule; }
  }

  lemma OrMembers(rule: Rule, f: Term, n: nat)
    ensures rule in OrClauses(f, n) <==> rule.CNF_OR_NEG? && rule.f == f && rule.i < n
    ensures rule in [CNF_OR_POS(f)] + OrClauses(f, n) <==> rule == CNF_OR_POS(f) || rule in OrClauses(f, n)
  {
    if rule.CNF_OR_NEG? && rule.f == f && rule.i < n { assert OrClauses(f, n)[rule.i] == rule; }
  }

  lemma OtherMembers(rule: Rule, f: Term)
    requires IsTseitin(rule) && rule.f == f && !f.And? && !f.Or?
    ensures CheckCnf(rule).Some? <==> CnfRules(f).Some? && rule in CnfRules(f).value
  {
  }
}
