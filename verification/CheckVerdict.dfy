/** How the verdict of the check relates to the orders of evaluation C++17 permits, and what
    the braces fix-it does. */
module CheckVerdict {
  import opened Wrappers
  import opened EvaluationOrder
  import opened NodeIdCheck
  import opened Determinism

  // ---------------------------------------------------------------------------
  // Silence
  // ---------------------------------------------------------------------------

  /** The two kinds of node whose race the check does not see: the range test takes `<` and
      `>` for assignments, and the first argument of `mkNode` is left out of the count. */
  predicate Blind(e: Expr, deps: set<string>) {
    || (e.kind.OperatorNode? && (e.kind.op == Less || e.kind.op == Greater)
        && |Args(e)| == 2 && HasCall(Args(e)[0], deps) && HasCall(Args(e)[1], deps))
    || (IsMkNode(e) && HasCall(Args(e)[0], deps) && Count(Args(e)[1..], deps) == 1)
  }

  predicate Sees(e: Expr, deps: set<string>) {
    !Blind(e, deps) && forall i :: 0 <= i < |e.subs| ==> Sees(e.subs[i], deps)
  }

  lemma CountOfTwo(es: seq<Expr>, deps: set<string>)
    requires |es| == 2
    ensures Count(es, deps) > 1 <==> HasCall(es[0], deps) && HasCall(es[1], deps)
  {
    assert es[1..][0] == es[1] && es[1..][1..] == [];
    assert Count(es[1..], deps) == (if HasCall(es[1], deps) then 1 else 0) + Count(es[1..][1..], deps);
  }

  lemma BlindCall(e: Expr, deps: set<string>)
    requires WellFormed(e) && e.kind.CallNode?
    ensures Race(e, deps) && !Flagged(e, deps) <==> Blind(e, deps)
  {
    assert Unordered(e) == Args(e);
  }

  lemma BlindOperator(e: Expr, deps: set<string>)
    requires WellFormed(e) && e.kind.OperatorNode?
    ensures Race(e, deps) && !Flagged(e, deps) <==> Blind(e, deps)
  {
    var op := e.kind.op;
    if op == Operator.Call {
      assert Unordered(e) == Args(e)[1..];
    } else if op == Less || op == Greater {
      assert Unordered(e) == Args(e) && Examined(e) == [];
      CountOfTwo(Args(e), deps);
    } else if DisciplineOf(e.kind) == HeadThenAnyOrder {
      assert Unordered(e) == Args(e) == Examined(e);
    }
  }

  lemma BlindNode(e: Expr, deps: set<string>)
    requires WellFormed(e)
    ensures Race(e, deps) && !Flagged(e, deps) <==> Blind(e, deps)
  {
    if e.kind.CallNode? { BlindCall(e, deps); }
    if e.kind.OperatorNode? { BlindOperator(e, deps); }
  }

  lemma {:induction false} SilentSees(e: Expr, deps: set<string>)
    requires WellFormed(e) && Silent(e, deps)
    ensures RaceFree(e, deps) <==> Sees(e, deps)
    decreases e
  {
    BlindNode(e, deps);
    forall i | 0 <= i < |e.subs| ensures RaceFree(e.subs[i], deps) <==> Sees(e.subs[i], deps) {
      SilentSees(e.subs[i], deps);
    }
  }

  /** Where the check is silent, the expression is deterministic exactly when no node is of
      the two kinds it is blind to. */
  lemma SilenceIsRightIff(e: Expr, deps: set<string>)
    requires WellFormed(e) && Distinct(e) && Silent(e, deps)
    ensures Deterministic(e, deps) <==> Sees(e, deps)
  {
    SilentSees(e, deps);
    DeterministicIffRaceFree(e, deps);
  }

  function Leaf(site: nat): Expr {
    Node(Sequential, site, [])
  }

  /** `f()`, for a function `f` that assigns node ids. */
  function CallF(site: nat): Expr {
    Node(CallNode(Direct("f", "f")), site, [Leaf(site + 1)])
  }

  lemma LeafFacts(site: nat, deps: set<string>)
    ensures var e := Leaf(site);
            WellFormed(e) && Distinct(e) && Sites(e) == {site} && !HasCall(e, deps) && Silent(e, deps)
    ensures Count([], deps) == 0
  {
    assert FindFirst([], deps) == None && Count([], deps) == 0 && Examined(Leaf(site)) == [];
  }

  lemma CallFFacts(site: nat, deps: set<string>)
    requires "f" in deps
    ensures var e := CallF(site);
            WellFormed(e) && Distinct(e) && Sites(e) == {site, site + 1} && HasCall(e, deps) && Silent(e, deps)
  {
    LeafFacts(site + 1, deps);
    Cons(Leaf(site + 1), [], deps);
    assert [Leaf(site + 1)] + [] == [Leaf(site + 1)];
    assert Count([], deps) == 0 && Examined(CallF(site)) == [];
  }

  lemma Cons(a: Expr, rest: seq<Expr>, deps: set<string>)
    ensures SitesOf([a] + rest) == Sites(a) + SitesOf(rest)
    ensures AllDistinct([a] + rest) <==> Distinct(a) && Sites(a) !! SitesOf(rest) && AllDistinct(rest)
    ensures Count([a] + rest, deps) == (if HasCall(a, deps) then 1 else 0) + Count(rest, deps)
  {
    assert ([a] + rest)[1..] == rest;
  }

  /** `f() < f()`, with an overloaded `<`. */
  function LessExample(): Expr {
    Node(OperatorNode(Indirect, Less), 0, [Leaf(1), CallF(2), CallF(4)])
  }

  /** `mkNode(f(), f(), x)`. */
  function MkNodeExample(): Expr {
    Node(CallNode(Direct("mkNode", "mkNode")), 0, [Leaf(1), CallF(2), CallF(4), Leaf(6)])
  }

  /** The children that the examples share: a callee, two calls and what follows them. */
  function ExampleChildren(tail: seq<Expr>): seq<Expr> {
    [Leaf(1)] + ([CallF(2)] + ([CallF(4)] + tail))
  }

  lemma ExampleCalls(tail: seq<Expr>, deps: set<string>)
    requires "f" in deps && (tail == [] || tail == [Leaf(6)])
    ensures var subs := ExampleChildren(tail);
            && Count(subs[1..], deps) == 2 && Count(subs[2..], deps) == 1
            && HasCall(subs[1], deps) && HasCall(subs[2], deps)
  {
    CallFFacts(2, deps);
    CallFFacts(4, deps);
    LeafFacts(6, deps);
    Cons(Leaf(6), [], deps);
    Cons(CallF(4), tail, deps);
    Cons(CallF(2), [CallF(4)] + tail, deps);
    assert [Leaf(6)] + [] == [Leaf(6)];
    assert ExampleChildren(tail)[1..] == [CallF(2)] + ([CallF(4)] + tail);
    assert ExampleChildren(tail)[2..] == [CallF(4)] + tail;
  }

  /** A node with these children is a tree, and silent if it is not itself reported. */
  lemma ExampleTree(e: Expr, tail: seq<Expr>, deps: set<string>)
    requires "f" in deps && (tail == [] || tail == [Leaf(6)])
    requires e.site == 0 && e.subs == ExampleChildren(tail) && Arity(e.kind, |e.subs|)
    ensures WellFormed(e) && Distinct(e) && (Silent(e, deps) <==> !Flagged(e, deps))
  {
    LeafFacts(1, deps);
    CallFFacts(2, deps);
    CallFFacts(4, deps);
    LeafFacts(6, deps);
    ExampleSites(tail, deps);
  }

  lemma ExampleSites(tail: seq<Expr>, deps: set<string>)
    requires "f" in deps && (tail == [] || tail == [Leaf(6)])
    ensures AllDistinct(ExampleChildren(tail)) && 0 !in SitesOf(ExampleChildren(tail))
  {
    LeafFacts(1, deps);
    CallFFacts(2, deps);
    CallFFacts(4, deps);
    LeafFacts(6, deps);
    Cons(Leaf(6), [], deps);
    assert [Leaf(6)] + [] == [Leaf(6)];
    Cons(CallF(4), tail, deps);
    Cons(CallF(2), [CallF(4)] + tail, deps);
    Cons(Leaf(1), [CallF(2)] + ([CallF(4)] + tail), deps);
  }

  lemma LessShape(deps: set<string>)
    requires "f" in deps
    ensures WellFormed(LessExample()) && Distinct(LessExample())
    ensures Silent(LessExample(), deps) && Blind(LessExample(), deps)
  {
    assert LessExample().subs == ExampleChildren([]);
    LessUnseen(deps);
    ExampleTree(LessExample(), [], deps);
  }

  lemma LessUnseen(deps: set<string>)
    requires "f" in deps
    ensures !Flagged(LessExample(), deps) && Blind(LessExample(), deps)
  {
    assert LessExample().subs == ExampleChildren([]);
    ExampleCalls([], deps);
    LessUnexamined();
  }

  lemma LessUnexamined()
    ensures Examined(LessExample()) == []
  {
    assert InAssignmentRange(Less);
  }

  lemma MkNodeShape(deps: set<string>)
    requires "f" in deps
    ensures WellFormed(MkNodeExample()) && Distinct(MkNodeExample())
    ensures Silent(MkNodeExample(), deps) && Blind(MkNodeExample(), deps)
  {
    var e := MkNodeExample();
    assert e.subs == ExampleChildren([Leaf(6)]);
    ExampleCalls([Leaf(6)], deps);
    assert Examined(e) == Args(e)[1..] == e.subs[2..];
    ExampleTree(e, [Leaf(6)], deps);
  }

  /** The check says nothing about either, but their calls can come in two orders. */
  lemma BlindSpots(deps: set<string>)
    requires "f" in deps
    ensures Silent(LessExample(), deps) && !Deterministic(LessExample(), deps)
    ensures Silent(MkNodeExample(), deps) && !Deterministic(MkNodeExample(), deps)
  {
    LessShape(deps);
    MkNodeShape(deps);
    SilenceIsRightIff(LessExample(), deps);
    SilenceIsRightIff(MkNodeExample(), deps);
  }

  // ---------------------------------------------------------------------------
  // Reports
  // ---------------------------------------------------------------------------

  /** The nodes reported although C++17 orders what they evaluate: compound shifts, logical,
      comma, subscript and pointer-to-member operators, and calls through `operator()`
      where all but one of the calls are in the object. */
  predicate Overcautious(e: Expr, deps: set<string>) {
    match e.kind
    case OperatorNode(_, op) =>
      || op in {LessLessEqual, GreaterGreaterEqual, AmpAmp, PipePipe, Comma, ArrowStar, Subscript}
      || (op == Operator.Call && Count(Drop(e.subs, 2), deps) <= 1)
    case BinaryNode(op) => op == PointerToMember
    case _ => false
  }

  lemma FlaggedNode(e: Expr, deps: set<string>)
    requires WellFormed(e) && Flagged(e, deps)
    ensures Race(e, deps) <==> !Overcautious(e, deps)
  {
    if e.kind.CallNode? {
      assert Unordered(e) == Args(e);
    } else if e.kind.OperatorNode? {
      assert DisciplineOf(e.kind) == HeadThenAnyOrder ==> Unordered(e) == Args(e);
    }
  }

  /** At a node without a race, a report comes exactly from an overloaded operator or a pointer
      to member of these kinds with calls in two operands. */
  lemma NeedlessIff(e: Expr, deps: set<string>)
    requires WellFormed(e) && !Race(e, deps)
    ensures Flagged(e, deps) <==>
            || (e.kind.OperatorNode? && TwoFrom(e, 1, deps)
                && e.kind.op in {LessLessEqual, GreaterGreaterEqual, AmpAmp, PipePipe, Comma, ArrowStar, Subscript,
                                 Operator.Call})
            || (e.kind == BinaryNode(PointerToMember) && TwoFrom(e, 0, deps))
  {
    if Flagged(e, deps) { FlaggedNode(e, deps); }
    if e.kind.CallNode? {
      assert Unordered(e) == Args(e);
    } else if e.kind.OperatorNode? {
      OperatorFlagged(e, deps);
    } else {
      OthersFlagged(e, deps);
    }
  }

  predicate FlaggedInside(e: Expr, deps: set<string>) {
    || (Flagged(e, deps) && !Overcautious(e, deps))
    || exists i :: 0 <= i < |e.subs| && FlaggedInside(e.subs[i], deps)
  }

  lemma {:induction false} FlaggedHasRace(e: Expr, deps: set<string>)
    requires WellFormed(e) && FlaggedInside(e, deps)
    ensures !RaceFree(e, deps)
    decreases e
  {
    if Flagged(e, deps) && !Overcautious(e, deps) {
      FlaggedNode(e, deps);
    } else {
      var i :| 0 <= i < |e.subs| && FlaggedInside(e.subs[i], deps);
      FlaggedHasRace(e.subs[i], deps);
    }
  }

  /** A report anywhere in the tree, at a node that is not one of the overcautious kinds, is
      a real one: two permitted evaluations of the whole tree have different traces. */
  lemma ReportsAreReal(e: Expr, deps: set<string>)
    requires WellFormed(e) && Distinct(e) && FlaggedInside(e, deps)
    ensures !Deterministic(e, deps)
  {
    FlaggedHasRace(e, deps);
    DeterministicIffRaceFree(e, deps);
  }

  // ---------------------------------------------------------------------------
  // The fix-it
  // ---------------------------------------------------------------------------

  /** The call with its node arguments wrapped in braces; `list` is the new list's node. */
  function Braced(e: Expr, list: nat): Expr
    requires |e.subs| >= 2
  {
    e.(subs := [e.subs[0], e.subs[1], Node(Sequential, list, e.subs[2..])])
  }

  /** The loop of the fix-it, on expressions instead of their text. */
  method Fix(e: Expr, list: nat) returns (fixed: Expr)
    requires IsMkNode(e)
    ensures fixed == Braced(e, list)
  {
    var nodeArgs := Args(e)[1..];
    var elements: seq<Expr> := [];
    for i := 0 to |nodeArgs|
      invariant elements == nodeArgs[..i]
    {
      elements := elements + [nodeArgs[i]];
    }
    assert elements == e.subs[2..];
    fixed := e.(subs := e.subs[..2] + [Node(Sequential, list, elements)]);
  }

  /** The fixed call is reported again only if its first argument makes calls, too. */
  lemma FixedIsQuietIff(e: Expr, list: nat, deps: set<string>)
    requires IsMkNode(e) && Flagged(e, deps)
    ensures Flagged(Braced(e, list), deps) <==> HasCall(Args(e)[0], deps)
    ensures !Flagged(Braced(e, list).subs[2], deps)
  {
    var b := Braced(e, list);
    assert !IsMkNode(b) && Args(b) == [b.subs[1], b.subs[2]] && Args(e)[1..] == e.subs[2..];
    CountOfTwo(Args(b), deps);
    CountedIsFound(e.subs[2..], deps);
    assert Examined(b.subs[2]) == [];
  }

  lemma {:induction false} CountedIsFound(es: seq<Expr>, deps: set<string>)
    requires Count(es, deps) > 0
    ensures FindFirst(es, deps).Some?
  {
    if !HasCall(es[0], deps) { CountedIsFound(es[1..], deps); }
  }

  /** Where a position of the original call has gone in the fixed one: the node arguments
      are one level further down. */
  function Moved(path: Path, q: Path): Path {
    if path < q && q[|path|] >= 2 then path + [2, q[|path|] - 2] + q[|path| + 1..] else q
  }

  /** Whether the fixed call at `path` takes its first argument before the list. */
  predicate KindFirst(path: Path, s: Schedule) {
    s.order(path, 2) == [0, 1]
  }

  /** The first of `n` arguments before or after all others, which are in order. */
  function KindAround(n: nat, first: bool): seq<nat> {
    if first || n == 0 then Ascending(0, n) else Ascending(1, n) + [0]
  }

  function Translated(path: Path, s: Schedule): Schedule {
    Schedule((q: Path, n: nat) => if q == path then KindAround(n, KindFirst(path, s)) else s.order(Moved(path, q), n),
             (q: Path) => s.picks(Moved(path, q)))
  }

  function TranslatedEnv(path: Path, env: Env): Env {
    Env(env.deps, (q: Path) => env.branch(Moved(path, q)))
  }

  lemma KindAroundIsOrder(n: nat, first: bool)
    ensures IsOrder(KindAround(n, first), n)
  {
    var o := KindAround(n, first);
    forall i | 0 <= i < n ensures i in o {
      assert o[if first then i else if i == 0 then n - 1 else i - 1] == i;
    }
  }

  lemma TranslatedPermitted(path: Path, s: Schedule)
    requires Permitted(s)
    ensures Permitted(Translated(path, s))
  {
    forall q: Path, n: nat ensures IsOrder(Translated(path, s).order(q, n), n) {
      KindAroundIsOrder(n, KindFirst(path, s));
      assert IsOrder(s.order(Moved(path, q), n), n);
    }
  }

  lemma ArgumentMoves(a: Expr, path: Path, env: Env, s: Schedule, i: nat)
    requires i >= 2
    ensures Trace(a, path + [i], TranslatedEnv(path, env), Translated(path, s)) ==
            Trace(a, path + [2] + [i - 2], env, s)
  {
    forall r: Path ensures Moved(path, path + [i] + r) == path + [2] + [i - 2] + r && path + [i] + r != path {
      var q := path + [i] + r;
      assert path < q && q[|path|] == i && q[|path| + 1..] == r;
      assert path + [2, i - 2] + r == path + [2] + [i - 2] + r;
    }
    Local(a, path + [i], TranslatedEnv(path, env), Translated(path, s), path + [2] + [i - 2], env, s);
  }

  /** The callee and the first argument stay where they are. */
  lemma FirstTwoStay(c: Expr, path: Path, env: Env, s: Schedule, i: nat)
    requires i < 2
    ensures Trace(c, path + [i], TranslatedEnv(path, env), Translated(path, s)) == Trace(c, path + [i], env, s)
  {
    forall r: Path ensures Moved(path, path + [i] + r) == path + [i] + r && path + [i] + r != path {
      var q := path + [i] + r;
      assert path < q && q[|path|] == i;
    }
    Local(c, path + [i], TranslatedEnv(path, env), Translated(path, s), path + [i], env, s);
  }

  lemma ArgumentsMove(subs: seq<Expr>, path: Path, env: Env, s: Schedule)
    requires |subs| >= 2
    ensures Traces(subs, path, TranslatedEnv(path, env), Translated(path, s))[2..] ==
            Traces(subs[2..], path + [2], env, s)
  {
    var ts := Traces(subs, path, TranslatedEnv(path, env), Translated(path, s));
    forall i | 0 <= i < |subs| - 2 ensures ts[2..][i] == Traces(subs[2..], path + [2], env, s)[i] {
      ArgumentMoves(subs[2 + i], path, env, s, 2 + i);
    }
  }

  /** Children taken in order, counted from the first and from a later one. */
  lemma {:induction false} ConcatTail(ts: seq<seq<nat>>, fixed: nat, k: nat)
    requires fixed + k <= |ts|
    ensures Concat(ts, Ascending(fixed + k, |ts|)) == Concat(ts[fixed..], Ascending(k, |ts| - fixed))
    decreases |ts| - k
  {
    if fixed + k < |ts| {
      var o1, o2 := Ascending(fixed + k, |ts|), Ascending(k, |ts| - fixed);
      assert o1[1..] == Ascending(fixed + (k + 1), |ts|) && o2[1..] == Ascending(k + 1, |ts| - fixed);
      ConcatTail(ts, fixed, k + 1);
    }
  }

  /** What a list of expressions does when it is evaluated in order. */
  function ListTrace(es: seq<Expr>, path: Path, env: Env, s: Schedule): seq<nat> {
    Concat(Traces(es, path, env, s), Ascending(0, |es|))
  }

  lemma BracesKeepOrder(es: seq<Expr>, list: nat, path: Path, env: Env, s: Schedule)
    ensures Trace(Node(Sequential, list, es), path, env, s) == ListTrace(es, path, env, s)
  {
  }

  /** A call evaluates its callee, and then its arguments as the schedule says. */
  lemma CallTrace(e: Expr, path: Path, env: Env, s: Schedule, order: seq<nat>)
    requires e.kind.CallNode? && |e.subs| == 1 + |order| && s.order(path, |order|) == order
    ensures var ts := Traces(e.subs, path, env, s);
            Trace(e, path, env, s) == ts[0] + Concat(ts, Chosen(1, order)) + Own(e, env.deps)
  {
    var ts := Traces(e.subs, path, env, s);
    ArrangeParts(HeadThenAnyOrder, ts, path, env, s, order);
    ConcatOne(ts, 0);
    assert Ascending(0, 1) == [0];
  }

  lemma ConcatOne(ts: seq<seq<nat>>, i: nat)
    requires i < |ts|
    ensures Concat(ts, [i]) == ts[i]
  {
    assert Concat(ts, [i]) == ts[i] + Concat(ts, []);
  }

  /** The callee, then the first argument and the node arguments, which are in order and not
      parted, one before the other, then the call. */
  function AroundTrace(first: bool, callee: seq<nat>, kind: seq<nat>, nodes: seq<nat>, own: seq<nat>): seq<nat> {
    callee + (if first then kind + nodes else nodes + kind) + own
  }

  /** The fixed call evaluates the callee, and then its node arguments from left to right,
      with nothing between them: the first argument comes before or after all of them. */
  lemma FixedTrace(e: Expr, list: nat, path: Path, env: Env, s: Schedule)
    requires IsMkNode(e) && Permitted(s)
    ensures Trace(Braced(e, list), path, env, s) ==
            AroundTrace(KindFirst(path, s),
                        Trace(e.subs[0], path + [0], env, s),
                        Trace(e.subs[1], path + [1], env, s),
                        ListTrace(e.subs[2..], path + [2], env, s),
                        Own(e, env.deps))
  {
    assert IsOrder(s.order(path, 2), 2);
    BracedCall(e, list, path, env, s);
    BracesKeepOrder(e.subs[2..], list, path + [2], env, s);
    TwoArguments(Traces(Braced(e, list).subs, path, env, s), s.order(path, 2));
  }

  /** Two arguments in either order. */
  lemma TwoArguments(ts: seq<seq<nat>>, order: seq<nat>)
    requires |ts| == 3 && IsOrder(order, 2)
    ensures Concat(ts, Chosen(1, order)) == if order == [0, 1] then ts[1] + ts[2] else ts[2] + ts[1]
  {
    assert order == [0, 1] || order == [1, 0];
    assert Chosen(1, order) == if order == [0, 1] then [1, 2] else [2, 1];
    ConcatTwo(ts, 1, 2);
    ConcatTwo(ts, 2, 1);
  }

  /** The first argument before or after the others, which are in order. */
  lemma AroundArguments(ts: seq<seq<nat>>, first: bool)
    requires |ts| > 2
    ensures var nodes := Concat(ts[2..], Ascending(0, |ts| - 2));
            Concat(ts, Chosen(1, KindAround(|ts| - 1, first))) == if first then ts[1] + nodes else nodes + ts[1]
  {
    ConcatTail(ts, 2, 0);
    ConcatOne(ts, 1);
    ChosenAround(|ts|, first);
    if first {
      ConcatSplit(ts, [1], Ascending(2, |ts|));
    } else {
      ConcatSplit(ts, Ascending(2, |ts|), [1]);
    }
  }

  lemma ChosenAround(n: nat, first: bool)
    requires n > 2
    ensures Chosen(1, KindAround(n - 1, first)) == if first then [1] + Ascending(2, n) else Ascending(2, n) + [1]
  {
  }

  /** Every evaluation of the fixed call is one that the original call permitted: the fix
      removes orders of evaluation and adds none. */
  lemma FixRemovesOrders(e: Expr, list: nat, path: Path, env: Env, s: Schedule)
    requires IsMkNode(e) && Permitted(s)
    ensures Permitted(Translated(path, s))
    ensures Trace(e, path, TranslatedEnv(path, env), Translated(path, s)) == Trace(Braced(e, list), path, env, s)
  {
    TranslatedPermitted(path, s);
    assert IsOrder(s.order(path, 2), 2);
    SameTrace(e, list, path, env, s);
  }

  lemma SameTrace(e: Expr, list: nat, path: Path, env: Env, s: Schedule)
    requires e.kind.CallNode? && |e.subs| > 2 && IsOrder(s.order(path, 2), 2)
    ensures Trace(e, path, TranslatedEnv(path, env), Translated(path, s)) == Trace(Braced(e, list), path, env, s)
  {
    var ts := Traces(e.subs, path, TranslatedEnv(path, env), Translated(path, s));
    var us := Traces(Braced(e, list).subs, path, env, s);
    BracedCall(e, list, path, env, s);
    TranslatedCall(e, path, env, s);
    PartsMove(e, list, path, env, s);
    SameArguments(ts, us, s.order(path, 2));
  }

  lemma BracedCall(e: Expr, list: nat, path: Path, env: Env, s: Schedule)
    requires e.kind.CallNode? && |e.subs| >= 2 && IsOrder(s.order(path, 2), 2)
    ensures var us := Traces(Braced(e, list).subs, path, env, s);
            Trace(Braced(e, list), path, env, s) == us[0] + Concat(us, Chosen(1, s.order(path, 2))) + Own(e, env.deps)
  {
    CallTrace(Braced(e, list), path, env, s, s.order(path, 2));
  }

  lemma TranslatedCall(e: Expr, path: Path, env: Env, s: Schedule)
    requires e.kind.CallNode? && |e.subs| > 2
    ensures var env', s' := TranslatedEnv(path, env), Translated(path, s);
            var ts := Traces(e.subs, path, env', s');
            Trace(e, path, env', s') ==
            ts[0] + Concat(ts, Chosen(1, KindAround(|e.subs| - 1, KindFirst(path, s)))) + Own(e, env.deps)
  {
    CallTrace(e, path, TranslatedEnv(path, env), Translated(path, s), KindAround(|e.subs| - 1, KindFirst(path, s)));
  }

  /** What stays and what moves does the same as before. */
  lemma PartsMove(e: Expr, list: nat, path: Path, env: Env, s: Schedule)
    requires |e.subs| > 2
    ensures var ts := Traces(e.subs, path, TranslatedEnv(path, env), Translated(path, s));
            var us := Traces(Braced(e, list).subs, path, env, s);
            ts[0] == us[0] && ts[1] == us[1] && Concat(ts[2..], Ascending(0, |ts| - 2)) == us[2]
  {
    FirstTwoStay(e.subs[0], path, env, s, 0);
    FirstTwoStay(e.subs[1], path, env, s, 1);
    ArgumentsMove(e.subs, path, env, s);
    BracesKeepOrder(e.subs[2..], list, path + [2], env, s);
  }

  /** The arguments around which the first one stands do together what the list does. */
  lemma SameArguments(ts: seq<seq<nat>>, us: seq<seq<nat>>, order: seq<nat>)
    requires |ts| > 2 && |us| == 3 && IsOrder(order, 2)
    requires ts[1] == us[1] && Concat(ts[2..], Ascending(0, |ts| - 2)) == us[2]
    ensures Concat(ts, Chosen(1, KindAround(|ts| - 1, order == [0, 1]))) == Concat(us, Chosen(1, order))
  {
    AroundArguments(ts, order == [0, 1]);
    TwoArguments(us, order);
  }

  // ---------------------------------------------------------------------------
  // A report too many
  // ---------------------------------------------------------------------------

  /** `f(), f()`, with an overloaded comma. */
  function CommaExample(): Expr {
    Node(OperatorNode(Indirect, Comma), 0, [Leaf(1), CallF(2), CallF(4)])
  }

  lemma CommaShape(deps: set<string>)
    requires "f" in deps
    ensures WellFormed(CommaExample()) && Distinct(CommaExample())
    ensures Count(Args(CommaExample()), deps) == 2
  {
    assert CommaExample().subs == ExampleChildren([]);
    ExampleCalls([], deps);
    ExampleTree(CommaExample(), [], deps);
  }

  lemma CommaExamined()
    ensures Examined(CommaExample()) == Args(CommaExample())
  {
    assert !InAssignmentRange(Comma);
  }

  lemma CommaRaceFree(deps: set<string>)
    ensures RaceFree(CommaExample(), deps)
  {
    var e := CommaExample();
    assert Unordered(e) == [] && !Race(e, deps);
    LeafRaceFree(1, deps);
    CallFRaceFree(2, deps);
    CallFRaceFree(4, deps);
    forall i | 0 <= i < |e.subs| ensures RaceFree(e.subs[i], deps) {
      assert e.subs[i] == if i == 0 then Leaf(1) else if i == 1 then CallF(2) else CallF(4);
    }
  }

  lemma LeafRaceFree(site: nat, deps: set<string>)
    ensures RaceFree(Leaf(site), deps)
  {
    assert !Race(Leaf(site), deps);
  }

  lemma CallFRaceFree(site: nat, deps: set<string>)
    ensures RaceFree(CallF(site), deps)
  {
    LeafRaceFree(site + 1, deps);
    assert Unordered(CallF(site)) == [];
  }

  /** The check reports it, although C++17 evaluates the left operand of a comma first. */
  lemma NeedlessReport(deps: set<string>)
    requires "f" in deps
    ensures Flagged(CommaExample(), deps) && Deterministic(CommaExample(), deps)
  {
    CommaShape(deps);
    CommaExamined();
    CommaRaceFree(deps);
    DeterministicIffRaceFree(CommaExample(), deps);
  }
}
