/** Formulas, their value under a valuation, and the inference rules of the Boolean proof
    checker together with ASSUME and SCOPE. */
module BooleanRules {
  import opened Wrappers

  // ---------------------------------------------------------------------------
  // Formulas
  // ---------------------------------------------------------------------------

  datatype Term =
    | Bool(b: bool)
    | Atom(id: nat)
    | Not(t: Term)
    | And(ts: seq<Term>)
    | Or(ts: seq<Term>)
    | Implies(a: Term, b': Term)
    | Xor(a: Term, b': Term)
    | Eq(a: Term, b': Term)
    | Ite(c: Term, a: Term, b': Term)

  type Valuation = nat -> bool

  predicate Holds(t: Term, v: Valuation)
    decreases t, 1
  {
    match t
    case Bool(b) => b
    case Atom(id) => v(id)
    case Not(s) => !Holds(s, v)
    case And(ts) => AllHold(ts, v)
    case Or(ts) => AnyHolds(ts, v)
    case Implies(a, b) => Holds(a, v) ==> Holds(b, v)
    case Xor(a, b) => Holds(a, v) != Holds(b, v)
    case Eq(a, b) => Holds(a, v) == Holds(b, v)
    case Ite(c, a, b) => if Holds(c, v) then Holds(a, v) else Holds(b, v)
  }

  predicate AllHold(ts: seq<Term>, v: Valuation)
    decreases ts, 0
  {
    ts == [] || (Holds(ts[0], v) && AllHold(ts[1..], v))
  }

  predicate AnyHolds(ts: seq<Term>, v: Valuation)
    decreases ts, 0
  {
    ts != [] && (Holds(ts[0], v) || AnyHolds(ts[1..], v))
  }

  function MkOr(ts: seq<Term>): Term {
    if ts == [] then Bool(false) else if |ts| == 1 then ts[0] else Or(ts)
  }

  function MkAnd(ts: seq<Term>): Term {
    if ts == [] then Bool(true) else if |ts| == 1 then ts[0] else And(ts)
  }

  function Negated(ts: seq<Term>): (r: seq<Term>)
    ensures |r| == |ts| && forall i :: 0 <= i < |ts| ==> r[i] == Not(ts[i])
  {
    seq(|ts|, i requires 0 <= i < |ts| => Not(ts[i]))
  }

  // ---------------------------------------------------------------------------
  // Clauses
  // ---------------------------------------------------------------------------

  /** The literals of a node viewed as a clause. An `Or` is a single literal only when it
      is the pivot itself. */
  function Literals(c: Term, pivot: Term): seq<Term> {
    if c.Or? && c != pivot then c.ts else [c]
  }

  function RemoveFirst(ls: seq<Term>, x: Term): seq<Term> {
    if ls == [] then [] else if ls[0] == x then ls[1..] else [ls[0]] + RemoveFirst(ls[1..], x)
  }

  function RemoveAll(ls: seq<Term>, x: Term): seq<Term> {
    if ls == [] then [] else (if ls[0] == x then [] else [ls[0]]) + RemoveAll(ls[1..], x)
  }

  function WithoutRepeats(ls: seq<Term>, seen: set<Term>): seq<Term> {
    if ls == [] then []
    else if ls[0] in seen then WithoutRepeats(ls[1..], seen)
    else [ls[0]] + WithoutRepeats(ls[1..], seen + {ls[0]})
  }

  function Set(ls: seq<Term>): set<Term> {
    set x | x in ls
  }

  /** The literals of a node as REORDERING sees them. */
  function ClauseSet(c: Term): set<Term> {
    if c.Or? then Set(c.ts) else {c}
  }

  /** What is eliminated from the first and from the second clause. */
  function LeftPivot(pol: bool, lit: Term): Term {
    if pol then lit else Not(lit)
  }

  function RightPivot(pol: bool, lit: Term): Term {
    if pol then Not(lit) else lit
  }

  function Resolve(c1: Term, c2: Term, pol: bool, lit: Term): Term {
    var x, y := LeftPivot(pol, lit), RightPivot(pol, lit);
    MkOr(RemoveFirst(Literals(c1, x), x) + RemoveFirst(Literals(c2, y), y))
  }

  /** CHAIN_RESOLUTION from a clause on; a pivot that does not occur aborts the check. */
  function Chain(lhs: seq<Term>, cs: seq<Term>, pols: seq<bool>, lits: seq<Term>): Option<seq<Term>>
    requires |cs| == |pols| == |lits|
    decreases |cs|
  {
    if cs == [] then Some(lhs)
    else
      var x, y := LeftPivot(pols[0], lits[0]), RightPivot(pols[0], lits[0]);
      var rhs := Literals(cs[0], y);
      if x !in lhs || y !in rhs then None
      else Chain(RemoveFirst(lhs, x) + RemoveFirst(rhs, y), cs[1..], pols[1..], lits[1..])
  }

  /** CHAIN_M_RESOLUTION from a clause on: every occurrence of a pivot goes, and there may be none. */
  function ChainM(lhs: seq<Term>, cs: seq<Term>, pols: seq<bool>, lits: seq<Term>): seq<Term>
    requires |cs| == |pols| == |lits|
    decreases |cs|
  {
    if cs == [] then lhs
    else
      var x, y := LeftPivot(pols[0], lits[0]), RightPivot(pols[0], lits[0]);
      ChainM(RemoveAll(lhs, x) + RemoveAll(Literals(cs[0], y), y), cs[1..], pols[1..], lits[1..])
  }

  /** The conclusion has the computed literals, up to order and repetition. */
  predicate Accepts(computed: seq<Term>, conclusion: Term) {
    if Set(computed) == {} then conclusion == Bool(false)
    else if |Set(computed)| == 1 then Set(computed) == {conclusion}
    else conclusion.Or? && Set(conclusion.ts) == Set(computed)
  }

  // ---------------------------------------------------------------------------
  // Rules
  // ---------------------------------------------------------------------------

  /** The rules with their arguments. */
  datatype Rule =
    | ASSUME(f: Term) | SCOPE(fs: seq<Term>)
    | RESOLUTION(pol: bool, lit: Term) | CHAIN_RESOLUTION(pols: seq<bool>, lits: seq<Term>)
    | FACTORING | REORDERING(c: Term) | CHAIN_M_RESOLUTION(c: Term, pols: seq<bool>, lits: seq<Term>)
    | SPLIT(f: Term) | EQ_RESOLVE | MODUS_PONENS | NOT_NOT_ELIM | CONTRA
    | AND_ELIM(i: nat) | AND_INTRO | NOT_OR_ELIM(i: nat)
    | IMPLIES_ELIM | NOT_IMPLIES_ELIM1 | NOT_IMPLIES_ELIM2
    | EQUIV_ELIM1 | EQUIV_ELIM2 | NOT_EQUIV_ELIM1 | NOT_EQUIV_ELIM2
    | XOR_ELIM1 | XOR_ELIM2 | NOT_XOR_ELIM1 | NOT_XOR_ELIM2
    | ITE_ELIM1 | ITE_ELIM2 | NOT_ITE_ELIM1 | NOT_ITE_ELIM2
    | NOT_AND
    | CNF_AND_POS(f: Term, i: nat) | CNF_AND_NEG(f: Term) | CNF_OR_POS(f: Term) | CNF_OR_NEG(f: Term, i: nat)
    | CNF_IMPLIES_POS(f: Term) | CNF_IMPLIES_NEG1(f: Term) | CNF_IMPLIES_NEG2(f: Term)
    | CNF_EQUIV_POS1(f: Term) | CNF_EQUIV_POS2(f: Term) | CNF_EQUIV_NEG1(f: Term) | CNF_EQUIV_NEG2(f: Term)
    | CNF_XOR_POS1(f: Term) | CNF_XOR_POS2(f: Term) | CNF_XOR_NEG1(f: Term) | CNF_XOR_NEG2(f: Term)
    | CNF_ITE_POS1(f: Term) | CNF_ITE_POS2(f: Term) | CNF_ITE_POS3(f: Term)
    | CNF_ITE_NEG1(f: Term) | CNF_ITE_NEG2(f: Term) | CNF_ITE_NEG3(f: Term)

  function When(ok: bool, t: Term): Option<Term> {
    if ok then Some(t) else None
  }

  /** RESOLUTION, FACTORING, REORDERING and the two chains. */
  function CheckClause(rule: Rule, ps: seq<Term>): Option<Term> {
    match rule
    case RESOLUTION(pol, lit) => if |ps| == 2 then Some(Resolve(ps[0], ps[1], pol, lit)) else None
    case CHAIN_RESOLUTION(pols, lits) =>
      if |ps| < 2 || |pols| != |ps| - 1 || |lits| != |ps| - 1 then None
      else (match Chain(Literals(ps[0], LeftPivot(pols[0], lits[0])), ps[1..], pols, lits)
            case None => None
            case Some(clause) => Some(MkOr(clause)))
    case FACTORING =>
      if |ps| != 1 || !ps[0].Or? then None
      else
        var ts := WithoutRepeats(ps[0].ts, {});
        if |ts| == |ps[0].ts| then None else Some(MkOr(ts))
    case REORDERING(c) => if |ps| == 1 && ClauseSet(ps[0]) == ClauseSet(c) then Some(c) else None
    case CHAIN_M_RESOLUTION(c, pols, lits) =>
      if |ps| < 2 || |pols| != |lits| || |pols| == 0 || |ps| <= |pols| then None
      else When(Accepts(ChainM(Literals(ps[0], LeftPivot(pols[0], lits[0])), ps[1..|pols| + 1], pols, lits), c), c)
    case _ => None
  }

  /** The rules with premises that take a connective apart or put one together. */
  function CheckElim(rule: Rule, ps: seq<Term>): Option<Term> {
    match rule
    case EQ_RESOLVE =>
      if |ps| == 2 && ps[1].Eq? && ps[0] == ps[1].a then Some(ps[1].b') else None
    case MODUS_PONENS =>
      if |ps| == 2 && ps[1].Implies? && ps[0] == ps[1].a then Some(ps[1].b') else None
    case CONTRA => if |ps| == 2 && ps[1] == Not(ps[0]) then Some(Bool(false)) else None
    case AND_INTRO => if |ps| >= 1 then Some(MkAnd(ps)) else None
    case _ => if |ps| != 1 then None else CheckElimOne(rule, ps[0])
  }

  function CheckElimOne(rule: Rule, p: Term): Option<Term> {
    match rule
    case NOT_NOT_ELIM => if p.Not? && p.t.Not? then Some(p.t.t) else None
    case AND_ELIM(i) => if p.And? && i < |p.ts| then Some(p.ts[i]) else None
    case NOT_OR_ELIM(i) => if p.Not? && p.t.Or? && i < |p.t.ts| then Some(Not(p.t.ts[i])) else None
    case IMPLIES_ELIM => if p.Implies? then Some(Or([Not(p.a), p.b'])) else None
    case NOT_IMPLIES_ELIM1 => if p.Not? && p.t.Implies? then Some(p.t.a) else None
    case NOT_IMPLIES_ELIM2 => if p.Not? && p.t.Implies? then Some(Not(p.t.b')) else None
    case EQUIV_ELIM1 => if p.Eq? then Some(Or([Not(p.a), p.b'])) else None
    case EQUIV_ELIM2 => if p.Eq? then Some(Or([p.a, Not(p.b')])) else None
    case NOT_EQUIV_ELIM1 => if p.Not? && p.t.Eq? then Some(Or([p.t.a, p.t.b'])) else None
    case NOT_EQUIV_ELIM2 => if p.Not? && p.t.Eq? then Some(Or([Not(p.t.a), Not(p.t.b')])) else None
    case XOR_ELIM1 => if p.Xor? then Some(Or([p.a, p.b'])) else None
    case XOR_ELIM2 => if p.Xor? then Some(Or([Not(p.a), Not(p.b')])) else None
    case NOT_XOR_ELIM1 => if p.Not? && p.t.Xor? then Some(Or([p.t.a, Not(p.t.b')])) else None
    case NOT_XOR_ELIM2 => if p.Not? && p.t.Xor? then Some(Or([Not(p.t.a), p.t.b'])) else None
    case ITE_ELIM1 => if p.Ite? then Some(Or([Not(p.c), p.a])) else None
    case ITE_ELIM2 => if p.Ite? then Some(Or([p.c, p.b'])) else None
    case NOT_ITE_ELIM1 => if p.Not? && p.t.Ite? then Some(Or([Not(p.t.c), Not(p.t.a)])) else None
    case NOT_ITE_ELIM2 => if p.Not? && p.t.Ite? then Some(Or([p.t.c, Not(p.t.b')])) else None
    case NOT_AND => if p.Not? && p.t.And? then Some(Or(Negated(p.t.ts))) else None
    case _ => None
  }

  /** The rules without premises, the clauses of the Tseitin transformation. */
  function CheckCnf(rule: Rule): Option<Term> {
    match rule
    case SPLIT(f) => Some(Or([f, Not(f)]))
    case CNF_AND_POS(f, i) => if f.And? && i < |f.ts| then Some(Or([Not(f), f.ts[i]])) else None
    case CNF_AND_NEG(f) => When(f.And?, Or([f] + if f.And? then Negated(f.ts) else []))
    case CNF_OR_POS(f) => When(f.Or?, Or([Not(f)] + if f.Or? then f.ts else []))
    case CNF_OR_NEG(f, i) => if f.Or? && i < |f.ts| then Some(Or([f, Not(f.ts[i])])) else None
    case CNF_IMPLIES_POS(f) => if f.Implies? then Some(Or([Not(f), Not(f.a), f.b'])) else None
    case CNF_IMPLIES_NEG1(f) => if f.Implies? then Some(Or([f, f.a])) else None
    case CNF_IMPLIES_NEG2(f) => if f.Implies? then Some(Or([f, Not(f.b')])) else None
    case CNF_EQUIV_POS1(f) => if f.Eq? then Some(Or([Not(f), Not(f.a), f.b'])) else None
    case CNF_EQUIV_POS2(f) => if f.Eq? then Some(Or([Not(f), f.a, Not(f.b')])) else None
    case CNF_EQUIV_NEG1(f) => if f.Eq? then Some(Or([f, f.a, f.b'])) else None
    case CNF_EQUIV_NEG2(f) => if f.Eq? then Some(Or([f, Not(f.a), Not(f.b')])) else None
    case CNF_XOR_POS1(f) => if f.Xor? then Some(Or([Not(f), f.a, f.b'])) else None
    case CNF_XOR_POS2(f) => if f.Xor? then Some(Or([Not(f), Not(f.a), Not(f.b')])) else None
    case CNF_XOR_NEG1(f) => if f.Xor? then Some(Or([f, Not(f.a), f.b'])) else None
    case CNF_XOR_NEG2(f) => if f.Xor? then Some(Or([f, f.a, Not(f.b')])) else None
    case CNF_ITE_POS1(f) => if f.Ite? then Some(Or([Not(f), Not(f.c), f.a])) else None
    case CNF_ITE_POS2(f) => if f.Ite? then Some(Or([Not(f), f.c, f.b'])) else None
    case CNF_ITE_POS3(f) => if f.Ite? then Some(Or([Not(f), f.a, f.b'])) else None
    case CNF_ITE_NEG1(f) => if f.Ite? then Some(Or([f, Not(f.c), Not(f.a)])) else None
    case CNF_ITE_NEG2(f) => if f.Ite? then Some(Or([f, f.c, Not(f.b')])) else None
    case CNF_ITE_NEG3(f) => if f.Ite? then Some(Or([f, Not(f.a), Not(f.b')])) else None
    case _ => None
  }

  /** SCOPE: an implication from the arguments, or their negation when the premise is false. */
  function CheckScope(fs: seq<Term>, p: Term): Term {
    if fs == [] then p
    else if p == Bool(false) then Not(MkAnd(fs))
    else Implies(MkAnd(fs), p)
  }

  predicate IsClauseRule(rule: Rule) {
    rule.RESOLUTION? || rule.CHAIN_RESOLUTION? || rule.FACTORING? || rule.REORDERING? || rule.CHAIN_M_RESOLUTION?
  }

  /** What a rule concludes from its premises, if its side conditions are met. */
  function Check(rule: Rule, ps: seq<Term>): Option<Term> {
    match rule
    case ASSUME(f) => When(ps == [], f)
    case SCOPE(fs) => if |ps| == 1 then Some(CheckScope(fs, ps[0])) else None
    case _ =>
      if IsClauseRule(rule) then CheckClause(rule, ps)
      else if ps == [] then CheckCnf(rule)
      else CheckElim(rule, ps)
  }

  // ---------------------------------------------------------------------------
  // The loop of CHAIN_M_RESOLUTION
  // ---------------------------------------------------------------------------

  /** The loop of the checker, one premise at a time, on a clause that it updates. */
  method ComputeChainM(first: seq<Term>, cs: seq<Term>, pols: seq<bool>, lits: seq<Term>) returns (clause: seq<Term>)
    requires |cs| == |pols| == |lits|
    ensures clause == ChainM(first, cs, pols, lits)
  {
    clause := first;
    for i := 0 to |cs|
      invariant ChainM(clause, cs[i..], pols[i..], lits[i..]) == ChainM(first, cs, pols, lits)
    {
      var x, y := LeftPivot(pols[i], lits[i]), RightPivot(pols[i], lits[i]);
      clause := AddExcept(RemoveAll(clause, x), Literals(cs[i], y), y);
      assert cs[i..][1..] == cs[i + 1..] && pols[i..][1..] == pols[i + 1..] && lits[i..][1..] == lits[i + 1..];
    }
  }

  /** The inner loop: adds the literals other than the pivot. */
  method AddExcept(first: seq<Term>, rhs: seq<Term>, y: Term) returns (clause: seq<Term>)
    ensures clause == first + RemoveAll(rhs, y)
  {
    clause := first;
    for j := 0 to |rhs|
      invariant clause == first + RemoveAll(rhs[..j], y)
    {
      RemoveAllSplit(rhs[..j], [rhs[j]], y);
      assert rhs[..j + 1] == rhs[..j] + [rhs[j]];
      if rhs[j] != y {
        clause := clause + [rhs[j]];
      }
    }
    assert rhs[..|rhs|] == rhs;
  }

  lemma {:induction false} RemoveAllSplit(a: seq<Term>, b: seq<Term>, x: Term)
    ensures RemoveAll(a + b, x) == RemoveAll(a, x) + RemoveAll(b, x)
  {
    if a == [] {
      assert a + b == b;
    } else {
      var head := if a[0] == x then [] else [a[0]];
      assert (a + b)[0] == a[0] && (a + b)[1..] == a[1..] + b;
      RemoveAllSplit(a[1..], b, x);
      assert head + (RemoveAll(a[1..], x) + RemoveAll(b, x)) == (head + RemoveAll(a[1..], x)) + RemoveAll(b, x);
    }
  }
}
