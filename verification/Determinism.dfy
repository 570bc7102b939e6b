/** When is an expression deterministic, and when does the check say so? */
module Determinism {
  import opened Wrappers
  import opened EvaluationOrder
  import opened NodeIdCheck

  // ---------------------------------------------------------------------------
  // Races
  // ---------------------------------------------------------------------------

  function Drop(es: seq<Expr>, n: nat): seq<Expr> {
    if |es| <= n then [] else es[n..]
  }

  /** The children of a node that C++17 leaves unordered among each other. */
  function Unordered(e: Expr): seq<Expr> {
    UnorderedBy(DisciplineOf(e.kind), e.subs)
  }

  function UnorderedBy(d: Discipline, subs: seq<Expr>): seq<Expr> {
    match d
    case HeadThenAnyOrder => Drop(subs, 1)
    case HeadTwoThenAnyOrder => Drop(subs, 2)
    case AnyOrder => subs
    case Interleaved => subs
    case _ => []
  }

  /** How many children come before the unordered ones. */
  function Fixed(d: Discipline): nat {
    match d case HeadThenAnyOrder => 1 case HeadTwoThenAnyOrder => 2 case _ => 0
  }

  predicate LeavesFree(d: Discipline) {
    d == HeadThenAnyOrder || d == HeadTwoThenAnyOrder || d == AnyOrder || d == Interleaved
  }

  predicate Race(e: Expr, deps: set<string>) {
    Count(Unordered(e), deps) > 1
  }

  predicate RaceFree(e: Expr, deps: set<string>) {
    !Race(e, deps) && forall i :: 0 <= i < |e.subs| ==> RaceFree(e.subs[i], deps)
  }

  // ---------------------------------------------------------------------------
  // Without a race there is one trace
  // ---------------------------------------------------------------------------

  lemma {:induction false} NoCallNoTrace(e: Expr, path: Path, env: Env, s: Schedule)
    requires !HasCall(e, env.deps)
    ensures Trace(e, path, env, s) == []
    decreases e
  {
    forall i | 0 <= i < |e.subs| ensures Trace(e.subs[i], path + [i], env, s) == [] {
      FirstAt(e.subs, i, env.deps);
      NoCallNoTrace(e.subs[i], path + [i], env, s);
    }
    NothingToArrange(DisciplineOf(e.kind), Traces(e.subs, path, env, s), path, env, s);
  }

  lemma {:induction false} FirstAt(es: seq<Expr>, i: nat, deps: set<string>)
    requires i < |es|
    ensures HasCall(es[i], deps) ==> FindFirst(es, deps).Some?
  {
    if i > 0 { FirstAt(es[1..], i - 1, deps); }
  }

  lemma NothingToArrange(d: Discipline, ts: seq<seq<nat>>, path: Path, env: Env, s: Schedule)
    requires forall i | 0 <= i < |ts| :: ts[i] == []
    ensures Arrange(d, ts, path, env, s) == []
  {
    AllEmpty(ts, Sequence(d, |ts|, path, env, s));
  }

  lemma {:induction false} AllEmpty(ts: seq<seq<nat>>, order: seq<nat>)
    requires forall i | 0 <= i < |ts| :: ts[i] == []
    ensures Concat(ts, order) == []
  {
    if order != [] { AllEmpty(ts, order[1..]); }
  }

  lemma {:induction false} ConcatSplit(ts: seq<seq<nat>>, a: seq<nat>, b: seq<nat>)
    ensures Concat(ts, a + b) == Concat(ts, a) + Concat(ts, b)
  {
    if a == [] {
      assert a + b == b;
    } else {
      assert (a + b)[1..] == a[1..] + b;
      ConcatSplit(ts, a[1..], b);
    }
  }

  /** When only child `k` makes calls, its place in the order does not matter. */
  lemma {:induction false} Solo(ts: seq<seq<nat>>, order: seq<nat>, k: nat)
    requires NoDup(order)
    requires forall i | 0 <= i < |order| && order[i] < |ts| :: order[i] == k || ts[order[i]] == []
    ensures Concat(ts, order) == if k in order && k < |ts| then ts[k] else []
  {
    if order != [] { Solo(ts, order[1..], k); }
  }

  lemma {:induction false} AtMostOneCall(es: seq<Expr>, deps: set<string>) returns (d: nat)
    requires Count(es, deps) <= 1
    ensures forall i | 0 <= i < |es| && i != d :: !HasCall(es[i], deps)
  {
    if es == [] {
      d := 0;
    } else if HasCall(es[0], deps) {
      NoneCounted(es[1..], deps);
      d := 0;
    } else {
      var r := AtMostOneCall(es[1..], deps);
      d := r + 1;
      assert forall i | 0 < i < |es| :: es[i] == es[1..][i - 1];
    }
  }

  lemma {:induction false} NoneCounted(es: seq<Expr>, deps: set<string>)
    requires Count(es, deps) == 0
    ensures forall i | 0 <= i < |es| :: !HasCall(es[i], deps)
  {
    if es != [] { NoneCounted(es[1..], deps); }
  }

  /** The part of the order that the schedule chooses. */
  function Chosen(fixed: nat, order: seq<nat>): (r: seq<nat>)
    ensures |r| == |order| && forall i :: 0 <= i < |r| ==> r[i] == fixed + order[i]
  {
    seq(|order|, i requires 0 <= i < |order| => fixed + order[i])
  }

  lemma ChosenOnce(fixed: nat, order: seq<nat>, n: nat, k: nat)
    requires IsOrder(order, n)
    ensures NoDup(Chosen(fixed, order))
    ensures k in Chosen(fixed, order) <==> fixed <= k < fixed + n
  {
    if fixed <= k < fixed + n {
      assert k - fixed in order;
      var i :| 0 <= i < n && order[i] == k - fixed;
      assert Chosen(fixed, order)[i] == k;
    }
  }

  /** From position `fixed` on, only child `k` makes calls. */
  predicate SilentBut(ts: seq<seq<nat>>, fixed: nat, k: nat) {
    forall i | fixed <= i < |ts| :: i == k || ts[i] == []
  }

  /** Children that are left unordered, at most one of which makes calls. */
  lemma FreeOrder(ts: seq<seq<nat>>, fixed: nat, k: nat, o1: seq<nat>, o2: seq<nat>)
    requires fixed <= |ts| && SilentBut(ts, fixed, k)
    requires IsOrder(o1, |ts| - fixed) && IsOrder(o2, |ts| - fixed)
    ensures Concat(ts, Chosen(fixed, o1)) == Concat(ts, Chosen(fixed, o2))
  {
    ChosenOnce(fixed, o1, |ts| - fixed, k);
    ChosenOnce(fixed, o2, |ts| - fixed, k);
    Solo(ts, Chosen(fixed, o1), k);
    Solo(ts, Chosen(fixed, o2), k);
  }

  lemma {:induction false} OneTrace(e: Expr, path: Path, env: Env, s1: Schedule, s2: Schedule)
    requires RaceFree(e, env.deps) && Permitted(s1) && Permitted(s2)
    ensures Trace(e, path, env, s1) == Trace(e, path, env, s2)
    decreases e
  {
    var ts := Traces(e.subs, path, env, s1);
    forall i | 0 <= i < |e.subs| ensures ts[i] == Traces(e.subs, path, env, s2)[i] {
      OneTrace(e.subs[i], path + [i], env, s1, s2);
    }
    assert ts == Traces(e.subs, path, env, s2);
    var k := OneWithCalls(DisciplineOf(e.kind), e.subs, path, env, s1);
    OneArrangement(DisciplineOf(e.kind), ts, k, path, env, s1, s2);
  }

  lemma OneWithCalls(d: Discipline, subs: seq<Expr>, path: Path, env: Env, s: Schedule) returns (k: nat)
    requires Count(UnorderedBy(d, subs), env.deps) <= 1
    ensures LeavesFree(d) ==> SilentBut(Traces(subs, path, env, s), Fixed(d), k)
  {
    var free := UnorderedBy(d, subs);
    k := AtMostOneCall(free, env.deps);
    k := k + Fixed(d);
    if LeavesFree(d) {
      assert free == Drop(subs, Fixed(d));
      forall i | Fixed(d) <= i < |subs| && i != k ensures Traces(subs, path, env, s)[i] == [] {
        assert free[i - Fixed(d)] == subs[i];
        NoCallNoTrace(subs[i], path + [i], env, s);
      }
    }
  }

  /** When at most one of the free children makes calls, their order does not matter. */
  lemma OneArrangement(d: Discipline, ts: seq<seq<nat>>, k: nat, path: Path, env: Env, s1: Schedule, s2: Schedule)
    requires Permitted(s1) && Permitted(s2) && (LeavesFree(d) ==> SilentBut(ts, Fixed(d), k))
    ensures Arrange(d, ts, path, env, s1) == Arrange(d, ts, path, env, s2)
  {
    if LeavesFree(d) && d != Interleaved {
      if Fixed(d) <= |ts| {
        var o1, o2 := s1.order(path, |ts| - Fixed(d)), s2.order(path, |ts| - Fixed(d));
        assert IsOrder(o1, |ts| - Fixed(d)) && IsOrder(o2, |ts| - Fixed(d));
        ArrangeParts(d, ts, path, env, s1, o1);
        ArrangeParts(d, ts, path, env, s2, o2);
        FreeOrder(ts, Fixed(d), k, o1, o2);
      }
    } else if d == Interleaved && |ts| == 2 {
      assert ts[0] == [] || ts[1] == [];
    }
  }

  /** The fixed children, and the others in the order that the schedule gives them. */
  lemma ArrangeParts(d: Discipline, ts: seq<seq<nat>>, path: Path, env: Env, s: Schedule, order: seq<nat>)
    requires LeavesFree(d) && d != Interleaved
    requires Fixed(d) + |order| == |ts| && s.order(path, |order|) == order
    ensures Arrange(d, ts, path, env, s) == Concat(ts, Ascending(0, Fixed(d))) + Concat(ts, Chosen(Fixed(d), order))
  {
    if d == AnyOrder {
      AnyParts(ts, path, env, s, order);
    } else if d == HeadThenAnyOrder {
      HeadParts(ts, path, env, s, order);
    } else {
      HeadTwoParts(ts, path, env, s, order);
    }
  }

  lemma AnyParts(ts: seq<seq<nat>>, path: Path, env: Env, s: Schedule, order: seq<nat>)
    requires |order| == |ts| && s.order(path, |order|) == order
    ensures Arrange(AnyOrder, ts, path, env, s) == Concat(ts, Ascending(0, 0)) + Concat(ts, Chosen(0, order))
  {
    ChosenFromFirst(order);
    ConcatSplit(ts, Ascending(0, 0), Chosen(0, order));
  }

  lemma HeadParts(ts: seq<seq<nat>>, path: Path, env: Env, s: Schedule, order: seq<nat>)
    requires 1 + |order| == |ts| && s.order(path, |order|) == order
    ensures Arrange(HeadThenAnyOrder, ts, path, env, s) ==
            Concat(ts, Ascending(0, 1)) + Concat(ts, Chosen(1, order))
  {
    HeadFirstIs(1, order);
    ConcatSplit(ts, Ascending(0, 1), Chosen(1, order));
  }

  lemma HeadTwoParts(ts: seq<seq<nat>>, path: Path, env: Env, s: Schedule, order: seq<nat>)
    requires 2 + |order| == |ts| && s.order(path, |order|) == order
    ensures Arrange(HeadTwoThenAnyOrder, ts, path, env, s) ==
            Concat(ts, Ascending(0, 2)) + Concat(ts, Chosen(2, order))
  {
    HeadFirstIs(2, order);
    ConcatSplit(ts, Ascending(0, 2), Chosen(2, order));
  }

  lemma HeadFirstIs(fixed: nat, order: seq<nat>)
    ensures HeadFirst(fixed, fixed + |order|, order) == Ascending(0, fixed) + Chosen(fixed, order)
  {
  }

  lemma ChosenFromFirst(order: seq<nat>)
    ensures Ascending(0, 0) + Chosen(0, order) == order
  {
  }

  // ---------------------------------------------------------------------------
  // With a race there are two
  // ---------------------------------------------------------------------------

  /** Two environments and schedules that make the same choices below two positions. */
  ghost predicate Agree(q1: Path, env1: Env, s1: Schedule, q2: Path, env2: Env, s2: Schedule) {
    && env1.deps == env2.deps
    && (forall r: Path :: env1.branch(q1 + r) == env2.branch(q2 + r))
    && (forall r: Path, n: nat :: s1.order(q1 + r, n) == s2.order(q2 + r, n))
    && (forall r: Path :: s1.picks(q1 + r) == s2.picks(q2 + r))
  }

  lemma AgreeBelow(q1: Path, env1: Env, s1: Schedule, q2: Path, env2: Env, s2: Schedule, i: nat)
    requires Agree(q1, env1, s1, q2, env2, s2)
    ensures Agree(q1 + [i], env1, s1, q2 + [i], env2, s2)
  {
    forall r: Path
      ensures env1.branch(q1 + [i] + r) == env2.branch(q2 + [i] + r)
      ensures s1.picks(q1 + [i] + r) == s2.picks(q2 + [i] + r)
      ensures forall n: nat :: s1.order(q1 + [i] + r, n) == s2.order(q2 + [i] + r, n)
    {
      assert q1 + [i] + r == q1 + ([i] + r) && q2 + [i] + r == q2 + ([i] + r);
    }
  }

  /** The trace of an expression depends on the choices below its position alone, and
      moves with them. */
  lemma {:induction false} Local(e: Expr, q1: Path, env1: Env, s1: Schedule, q2: Path, env2: Env, s2: Schedule)
    requires Agree(q1, env1, s1, q2, env2, s2)
    ensures Trace(e, q1, env1, s1) == Trace(e, q2, env2, s2)
    decreases e
  {
    var ts := Traces(e.subs, q1, env1, s1);
    forall i | 0 <= i < |e.subs| ensures ts[i] == Traces(e.subs, q2, env2, s2)[i] {
      AgreeBelow(q1, env1, s1, q2, env2, s2, i);
      Local(e.subs[i], q1 + [i], env1, s1, q2 + [i], env2, s2);
    }
    assert ts == Traces(e.subs, q2, env2, s2);
    AgreeHere(DisciplineOf(e.kind), ts, q1, env1, s1, q2, env2, s2);
  }

  lemma AgreeHere(d: Discipline, ts: seq<seq<nat>>, q1: Path, env1: Env, s1: Schedule,
                  q2: Path, env2: Env, s2: Schedule)
    requires Agree(q1, env1, s1, q2, env2, s2)
    ensures Arrange(d, ts, q1, env1, s1) == Arrange(d, ts, q2, env2, s2)
  {
    assert q1 + [] == q1 && q2 + [] == q2;
  }

  lemma {:induction false} MergeSize(l: seq<nat>, r: seq<nat>, picks: seq<bool>)
    ensures |Merge(l, r, picks)| == |l| + |r|
    ensures forall x :: x in Merge(l, r, picks) ==> x in l || x in r
    decreases |l| + |r|
  {
    if l != [] && r != [] {
      if picks == [] || picks[0] { MergeSize(l[1..], r, if picks == [] then [] else picks[1..]); }
      else { MergeSize(l, r[1..], picks[1..]); }
    }
  }

  lemma {:induction false} MergeLeftFirst(l: seq<nat>, r: seq<nat>)
    ensures Merge(l, r, []) == l + r
    decreases |l|
  {
    if l != [] && r != [] { MergeLeftFirst(l[1..], r); }
  }

  lemma {:induction false} TraceInSites(e: Expr, path: Path, env: Env, s: Schedule)
    ensures forall x :: x in Trace(e, path, env, s) ==> x in Sites(e)
    decreases e
  {
    var ts := Traces(e.subs, path, env, s);
    forall i, x | 0 <= i < |ts| && x in ts[i] ensures x in SitesOf(e.subs) {
      TraceInSites(e.subs[i], path + [i], env, s);
      SitesAt(e.subs, i);
    }
    NothingElse(DisciplineOf(e.kind), ts, path, env, s, SitesOf(e.subs));
  }

  lemma {:induction false} SitesAt(es: seq<Expr>, i: nat)
    requires i < |es|
    ensures Sites(es[i]) <= SitesOf(es)
  {
    if i > 0 { SitesAt(es[1..], i - 1); }
  }

  lemma NothingElse(d: Discipline, ts: seq<seq<nat>>, path: Path, env: Env, s: Schedule, sites: set<nat>)
    requires forall i, x | 0 <= i < |ts| && x in ts[i] :: x in sites
    ensures forall x :: x in Arrange(d, ts, path, env, s) ==> x in sites
  {
    if d == Interleaved && |ts| == 2 {
      MergeSize(ts[0], ts[1], s.picks(path));
    } else {
      ConcatIn(ts, Sequence(d, |ts|, path, env, s), sites);
    }
  }

  lemma {:induction false} ConcatIn(ts: seq<seq<nat>>, order: seq<nat>, sites: set<nat>)
    requires forall i, x | 0 <= i < |ts| && x in ts[i] :: x in sites
    ensures forall x :: x in Concat(ts, order) ==> x in sites
  {
    if order != [] { ConcatIn(ts, order[1..], sites); }
  }

  // Conditions that go towards the calls

  /** A way for the conditions to go that makes every expression with calls make one. */
  function Fire(e: Expr, r: Path, deps: set<string>): bool
    decreases |r|
  {
    if r == [] then e.kind.Conditional? && |e.subs| > 1 ==> HasCall(e.subs[1], deps)
    else r[0] < |e.subs| && Fire(e.subs[r[0]], r[1..], deps)
  }

  ghost predicate Fires(e: Expr, path: Path, env: Env) {
    forall r: Path :: env.branch(path + r) == Fire(e, r, env.deps)
  }

  lemma FiresBelow(e: Expr, path: Path, env: Env, i: nat)
    requires Fires(e, path, env) && i < |e.subs|
    ensures Fires(e.subs[i], path + [i], env)
  {
    forall r: Path ensures env.branch(path + [i] + r) == Fire(e.subs[i], r, env.deps) {
      assert path + [i] + r == path + ([i] + r);
      assert ([i] + r)[1..] == r;
    }
  }

  lemma {:induction false} FirstWhere(es: seq<Expr>, deps: set<string>) returns (d: nat)
    requires FindFirst(es, deps).Some?
    ensures d < |es| && HasCall(es[d], deps)
  {
    if HasCall(es[0], deps) { d := 0; } else { d := FirstWhere(es[1..], deps); d := d + 1; }
  }

  lemma {:induction false} NotEmpty(ts: seq<seq<nat>>, order: seq<nat>, i: nat)
    requires i in order && i < |ts| && ts[i] != []
    ensures Concat(ts, order) != []
  {
    if order[0] != i { NotEmpty(ts, order[1..], i); }
  }

  /** Outside conditionals every child is evaluated exactly once. */
  lemma SequenceCovers(d: Discipline, n: nat, path: Path, env: Env, s: Schedule)
    requires Permitted(s) && d != Choice
    requires d == ShortCircuit ==> env.branch(path)
    ensures NoDup(Sequence(d, n, path, env, s))
    ensures forall i :: 0 <= i < n ==> i in Sequence(d, n, path, env, s)
  {
    var o := Sequence(d, n, path, env, s);
    match d {
      case Reversed => forall i | 0 <= i < n ensures i in o { assert o[n - 1 - i] == i; }
      case HeadThenAnyOrder => HeadFirstCovers(1, n, s.order(path, if n > 1 then n - 1 else 0));
      case HeadTwoThenAnyOrder => HeadFirstCovers(2, n, s.order(path, if n > 2 then n - 2 else 0));
      case AnyOrder => assert IsOrder(s.order(path, n), n);
      case InOrder => AscendingCovers(n);
      case Interleaved => AscendingCovers(n);
      case ShortCircuit => AscendingCovers(n);
    }
  }

  lemma AscendingCovers(n: nat)
    ensures forall i :: 0 <= i < n ==> i in Ascending(0, n)
  {
    forall i | 0 <= i < n ensures i in Ascending(0, n) { assert Ascending(0, n)[i] == i; }
  }

  lemma HeadFirstCovers(fixed: nat, n: nat, order: seq<nat>)
    requires IsOrder(order, if n > fixed then n - fixed else 0)
    ensures NoDup(HeadFirst(fixed, n, order))
    ensures forall i :: 0 <= i < n ==> i in HeadFirst(fixed, n, order)
  {
    var o := HeadFirst(fixed, n, order);
    forall i | 0 <= i < n ensures i in o {
      if n <= fixed || i < fixed {
        assert o[i] == i;
      } else {
        assert i - fixed in order;
        var k :| 0 <= k < |order| && order[k] == i - fixed;
        assert o[fixed + k] == i;
      }
    }
  }

  lemma {:induction false} CallsFire(e: Expr, path: Path, env: Env, s: Schedule)
    requires WellFormed(e) && HasCall(e, env.deps) && Fires(e, path, env) && Permitted(s)
    ensures Trace(e, path, env, s) != []
    decreases e
  {
    if !AssignsId(e.kind, env.deps) {
      var d := ChildWithCall(e, path, env);
      FiresBelow(e, path, env, d);
      CallsFire(e.subs[d], path + [d], env, s);
      ChildShows(DisciplineOf(e.kind), Traces(e.subs, path, env, s), path, env, s, d);
    }
  }

  /** A child with a call that the conditions lead to. */
  lemma ChildWithCall(e: Expr, path: Path, env: Env) returns (d: nat)
    requires WellFormed(e) && HasCall(e, env.deps) && !AssignsId(e.kind, env.deps) && Fires(e, path, env)
    ensures d < |e.subs| && HasCall(e.subs[d], env.deps)
    ensures DisciplineOf(e.kind) == Choice && d > 0 ==> d == if env.branch(path) then 1 else 2
    ensures DisciplineOf(e.kind) == ShortCircuit ==> env.branch(path)
  {
    assert path + [] == path;
    assert env.branch(path) == Fire(e, [], env.deps);
    d := FirstWhere(e.subs, env.deps);
    if e.kind.Conditional? && d > 0 { d := if HasCall(e.subs[1], env.deps) then 1 else 2; }
  }

  lemma ChildShows(d: Discipline, ts: seq<seq<nat>>, path: Path, env: Env, s: Schedule, i: nat)
    requires Permitted(s) && i < |ts| && ts[i] != []
    requires d == Choice && i > 0 ==> i == if env.branch(path) then 1 else 2
    requires d == ShortCircuit ==> env.branch(path)
    ensures Arrange(d, ts, path, env, s) != []
  {
    if d == Interleaved && |ts| == 2 {
      MergeSize(ts[0], ts[1], s.picks(path));
    } else {
      var o := Sequence(d, |ts|, path, env, s);
      if d == Choice {
        assert o[if i == 0 then 0 else 1] == i;
      } else {
        SequenceCovers(d, |ts|, path, env, s);
      }
      NotEmpty(ts, o, i);
    }
  }

  // Two schedules for a race at the root

  const LEFT_FIRST: Schedule := Schedule((p: Path, n: nat) => Ascending(0, n), (p: Path) => [])

  /** `s`, but with the free children of the node at `path` backwards and the right
      operand first where operands overlap. */
  function RightFirstAt(path: Path): Schedule {
    Schedule((p: Path, n: nat) => if p == path then Descending(n) else Ascending(0, n),
             (p: Path) => if p == path then [false] else [])
  }

  lemma LeftFirstPermitted()
    ensures Permitted(LEFT_FIRST)
  {
    forall p: Path, n: nat ensures IsOrder(LEFT_FIRST.order(p, n), n) {
      forall i | 0 <= i < n ensures i in Ascending(0, n) { assert Ascending(0, n)[i] == i; }
    }
  }

  lemma RightFirstPermitted(path: Path)
    ensures Permitted(RightFirstAt(path))
  {
    forall p: Path, n: nat ensures IsOrder(RightFirstAt(path).order(p, n), n) {
      forall i | 0 <= i < n ensures i in Ascending(0, n) && i in Descending(n) {
        assert Ascending(0, n)[i] == i && Descending(n)[n - 1 - i] == i;
      }
    }
  }

  /** The first event comes from the first child, in the order taken, that has events;
      that is at the latest the one at position `m`. */
  lemma {:induction false} FirstEvent(ts: seq<seq<nat>>, order: seq<nat>, m: nat) returns (k: nat)
    requires m < |order| && order[m] < |ts| && ts[order[m]] != []
    ensures k <= m && order[k] < |ts| && Concat(ts, order) != []
    ensures Concat(ts, order)[0] in ts[order[k]]
  {
    if order[0] < |ts| && ts[order[0]] != [] {
      k := 0;
    } else {
      k := FirstEvent(ts, order[1..], m - 1);
      k := k + 1;
    }
  }

  lemma {:induction false} TwoCalls(es: seq<Expr>, deps: set<string>) returns (a: nat, b: nat)
    requires Count(es, deps) > 1
    ensures a < b < |es| && HasCall(es[a], deps) && HasCall(es[b], deps)
  {
    if HasCall(es[0], deps) {
      a := 0;
      b := OneCall(es[1..], deps);
      b := b + 1;
    } else {
      a, b := TwoCalls(es[1..], deps);
      a, b := a + 1, b + 1;
    }
  }

  lemma {:induction false} OneCall(es: seq<Expr>, deps: set<string>) returns (a: nat)
    requires Count(es, deps) > 0
    ensures a < |es| && HasCall(es[a], deps)
  {
    if HasCall(es[0], deps) { a := 0; } else { a := OneCall(es[1..], deps); a := a + 1; }
  }

  /** No event is in two traces. */
  ghost predicate Apart(ts: seq<seq<nat>>) {
    forall i, j, x | 0 <= i < j < |ts| && x in ts[i] :: x !in ts[j]
  }

  lemma TracesApart(es: seq<Expr>, path: Path, env: Env, s: Schedule)
    requires AllDistinct(es)
    ensures Apart(Traces(es, path, env, s))
  {
    var ts := Traces(es, path, env, s);
    forall i, j, x | 0 <= i < j < |ts| && x in ts[i] ensures x !in ts[j] {
      TraceInSites(es[i], path + [i], env, s);
      TraceInSites(es[j], path + [j], env, s);
      DistinctApart(es, i, j);
    }
  }

  /** Two children with events, taken forwards and backwards, start with different events. */
  lemma ForwardsAndBackwards(ts: seq<seq<nat>>, fixed: nat, a: nat, b: nat)
    requires Apart(ts) && fixed <= a < b < |ts| && ts[a] != [] && ts[b] != []
    ensures var n := |ts| - fixed;
            var t1, t2 := Concat(ts, Chosen(fixed, Ascending(0, n))), Concat(ts, Chosen(fixed, Descending(n)));
            t1 != [] && t2 != [] && t1[0] != t2[0]
  {
    var i := FirstForwards(ts, fixed, a);
    var j := FirstBackwards(ts, fixed, b);
  }

  lemma FirstForwards(ts: seq<seq<nat>>, fixed: nat, a: nat) returns (i: nat)
    requires fixed <= a < |ts| && ts[a] != []
    ensures i <= a
    ensures var t := Concat(ts, Chosen(fixed, Ascending(0, |ts| - fixed))); t != [] && t[0] in ts[i]
  {
    var o := Chosen(fixed, Ascending(0, |ts| - fixed));
    assert o[a - fixed] == a;
    var k := FirstEvent(ts, o, a - fixed);
    i := o[k];
  }

  lemma FirstBackwards(ts: seq<seq<nat>>, fixed: nat, b: nat) returns (j: nat)
    requires fixed <= b < |ts| && ts[b] != []
    ensures b <= j < |ts|
    ensures var t := Concat(ts, Chosen(fixed, Descending(|ts| - fixed))); t != [] && t[0] in ts[j]
  {
    var o := Chosen(fixed, Descending(|ts| - fixed));
    assert o[|ts| - 1 - b] == b;
    var k := FirstEvent(ts, o, |ts| - 1 - b);
    j := o[k];
  }

  /** Below the node the two schedules do not differ. */
  lemma SameBelow(es: seq<Expr>, path: Path, env: Env)
    ensures Traces(es, path, env, LEFT_FIRST) == Traces(es, path, env, RightFirstAt(path))
  {
    forall i | 0 <= i < |es|
      ensures Traces(es, path, env, LEFT_FIRST)[i] == Traces(es, path, env, RightFirstAt(path))[i]
    {
      forall r: Path ensures path + [i] + r != path { assert |path + [i] + r| > |path|; }
      Local(es[i], path + [i], env, LEFT_FIRST, path + [i], env, RightFirstAt(path));
    }
  }

  lemma RacingChildren(d: Discipline, subs: seq<Expr>, deps: set<string>) returns (a: nat, b: nat)
    requires Count(UnorderedBy(d, subs), deps) > 1
    ensures LeavesFree(d)
    ensures Fixed(d) <= a < b < |subs| && HasCall(subs[a], deps) && HasCall(subs[b], deps)
  {
    a, b := TwoCalls(UnorderedBy(d, subs), deps);
    assert UnorderedBy(d, subs) == Drop(subs, Fixed(d));
    a, b := Fixed(d) + a, Fixed(d) + b;
  }

  /** A race at the root shows when all calls fire. */
  lemma RaceShows(e: Expr, path: Path, env: Env)
    requires WellFormed(e) && Distinct(e) && Race(e, env.deps) && Fires(e, path, env)
    ensures Trace(e, path, env, LEFT_FIRST) != Trace(e, path, env, RightFirstAt(path))
  {
    var a, b := RacingFire(e, path, env);
    Operands(e);
    TracesApart(e.subs, path, env, LEFT_FIRST);
    SameBelow(e.subs, path, env);
    ChildrenShow(DisciplineOf(e.kind), Traces(e.subs, path, env, LEFT_FIRST), path, env, a, b);
    ArrangementShows(e, path, env, LEFT_FIRST, RightFirstAt(path));
  }

  lemma ArrangementShows(e: Expr, path: Path, env: Env, s1: Schedule, s2: Schedule)
    requires Arrange(DisciplineOf(e.kind), Traces(e.subs, path, env, s1), path, env, s1) !=
             Arrange(DisciplineOf(e.kind), Traces(e.subs, path, env, s2), path, env, s2)
    ensures Trace(e, path, env, s1) != Trace(e, path, env, s2)
  {
    CancelRight(Arrange(DisciplineOf(e.kind), Traces(e.subs, path, env, s1), path, env, s1),
                Arrange(DisciplineOf(e.kind), Traces(e.subs, path, env, s2), path, env, s2), Own(e, env.deps));
  }

  /** Two children that race, and whose calls fire. */
  lemma RacingFire(e: Expr, path: Path, env: Env) returns (a: nat, b: nat)
    requires WellFormed(e) && Race(e, env.deps) && Fires(e, path, env)
    ensures LeavesFree(DisciplineOf(e.kind)) && Fixed(DisciplineOf(e.kind)) <= a < b < |e.subs|
    ensures var ts := Traces(e.subs, path, env, LEFT_FIRST); ts[a] != [] && ts[b] != []
  {
    a, b := RacingChildren(DisciplineOf(e.kind), e.subs, env.deps);
    LeftFirstPermitted();
    FiresBelow(e, path, env, a);
    FiresBelow(e, path, env, b);
    CallsFire(e.subs[a], path + [a], env, LEFT_FIRST);
    CallsFire(e.subs[b], path + [b], env, LEFT_FIRST);
  }

  lemma ChildrenShow(d: Discipline, ts: seq<seq<nat>>, path: Path, env: Env, a: nat, b: nat)
    requires LeavesFree(d) && (d == Interleaved ==> |ts| == 2) && Apart(ts) && Fixed(d) <= a < b < |ts|
    requires ts[a] != [] && ts[b] != []
    ensures Arrange(d, ts, path, env, LEFT_FIRST) != Arrange(d, ts, path, env, RightFirstAt(path))
  {
    if d == Interleaved {
      OperandsShow(ts[0], ts[1]);
    } else {
      FreeChildrenShow(d, ts, path, env, LEFT_FIRST, RightFirstAt(path), a, b);
    }
  }

  /** Free children that are taken forwards by one schedule and backwards by the other. */
  lemma FreeChildrenShow(d: Discipline, ts: seq<seq<nat>>, path: Path, env: Env, s1: Schedule, s2: Schedule,
                         a: nat, b: nat)
    requires LeavesFree(d) && d != Interleaved && Apart(ts) && Fixed(d) <= a < b < |ts|
    requires ts[a] != [] && ts[b] != []
    requires s1.order(path, |ts| - Fixed(d)) == Ascending(0, |ts| - Fixed(d))
    requires s2.order(path, |ts| - Fixed(d)) == Descending(|ts| - Fixed(d))
    ensures Arrange(d, ts, path, env, s1) != Arrange(d, ts, path, env, s2)
  {
    var fixed, n := Fixed(d), |ts| - Fixed(d);
    ForwardsAndBackwards(ts, fixed, a, b);
    ArrangeParts(d, ts, path, env, s1, Ascending(0, n));
    ArrangeParts(d, ts, path, env, s2, Descending(n));
    PartsDiffer(Concat(ts, Ascending(0, fixed)),
                Concat(ts, Chosen(fixed, Ascending(0, n))), Concat(ts, Chosen(fixed, Descending(n))));
  }

  lemma OperandsShow(l: seq<nat>, r: seq<nat>)
    requires l != [] && r != [] && forall x | x in l :: x !in r
    ensures Merge(l, r, []) != Merge(l, r, [false])
  {
    assert l[0] in l && r[0] in r;
    assert Merge(l, r, [])[0] == l[0] && Merge(l, r, [false])[0] == r[0];
  }

  lemma PartsDiffer(head: seq<nat>, t1: seq<nat>, t2: seq<nat>)
    requires t1 != [] && t2 != [] && t1[0] != t2[0]
    ensures head + t1 != head + t2
  {
    assert (head + t1)[|head|] == t1[0] && (head + t2)[|head|] == t2[0];
  }

  // A race further down

  /** The choices of `inner` at and below `at`, and the plainest ones elsewhere. */
  function Graft(at: Path, inner: Schedule): Schedule {
    Schedule((q: Path, n: nat) => if at <= q then inner.order(q, n) else Ascending(0, n),
             (q: Path) => if at <= q then inner.picks(q) else [])
  }

  /** Conditions that lead from `path` to its child `i`, and below it go as `inner` says. */
  function Lead(path: Path, i: nat, inner: Path -> bool): Path -> bool {
    (q: Path) => if path + [i] <= q then inner(q) else i != 2
  }

  lemma GraftPermitted(at: Path, inner: Schedule)
    requires Permitted(inner)
    ensures Permitted(Graft(at, inner))
  {
    LeftFirstPermitted();
    forall q: Path, n: nat ensures IsOrder(Graft(at, inner).order(q, n), n) {
      assert IsOrder(LEFT_FIRST.order(q, n), n) && IsOrder(inner.order(q, n), n);
    }
  }

  /** If one child has another trace, and is evaluated once, it shows. */
  lemma {:induction false} OneDiffers(ts: seq<seq<nat>>, order: seq<nat>, i: nat, t: seq<nat>)
    requires NoDup(order) && i in order && i < |ts| && ts[i] != t
    ensures Concat(ts, order) != Concat(ts[i := t], order)
  {
    if order[0] == i {
      Elsewhere(ts, order[1..], i, t);
      CancelRight(ts[i], t, Concat(ts, order[1..]));
    } else {
      OneDiffers(ts, order[1..], i, t);
      CancelLeft(if order[0] < |ts| then ts[order[0]] else [],
                 Concat(ts, order[1..]), Concat(ts[i := t], order[1..]));
    }
  }

  lemma {:induction false} Elsewhere(ts: seq<seq<nat>>, order: seq<nat>, i: nat, t: seq<nat>)
    requires i !in order && i < |ts|
    ensures Concat(ts, order) == Concat(ts[i := t], order)
  {
    if order != [] { Elsewhere(ts, order[1..], i, t); }
  }

  lemma CancelRight(a: seq<nat>, b: seq<nat>, c: seq<nat>)
    ensures a + c == b + c ==> a == b
  {
    if a + c == b + c {
      assert a == (a + c)[..|a|] && b == (b + c)[..|b|];
    }
  }

  lemma CancelLeft(c: seq<nat>, a: seq<nat>, b: seq<nat>)
    ensures c + a == c + b ==> a == b
  {
    if c + a == c + b {
      assert a == (c + a)[|c|..] && b == (c + b)[|c|..];
    }
  }

  lemma {:induction false} Fired(e: Expr, path: Path, deps: set<string>) returns (branch: Path -> bool)
    ensures Fires(e, path, Env(deps, branch))
  {
    branch := (q: Path) => path <= q && Fire(e, q[|path|..], deps);
    forall r: Path ensures branch(path + r) == Fire(e, r, deps) {
      assert (path + r)[|path|..] == r;
    }
  }

  /** A race anywhere gives two permitted evaluations with different traces. */
  lemma {:induction false} TwoTraces(e: Expr, path: Path, deps: set<string>)
    returns (branch: Path -> bool, s1: Schedule, s2: Schedule)
    requires WellFormed(e) && Distinct(e) && !RaceFree(e, deps)
    ensures Permitted(s1) && Permitted(s2)
    ensures Trace(e, path, Env(deps, branch), s1) != Trace(e, path, Env(deps, branch), s2)
    decreases e
  {
    if Race(e, deps) {
      branch := Fired(e, path, deps);
      s1, s2 := LEFT_FIRST, RightFirstAt(path);
      LeftFirstPermitted();
      RightFirstPermitted(path);
      RaceShows(e, path, Env(deps, branch));
    } else {
      var i :| 0 <= i < |e.subs| && !RaceFree(e.subs[i], deps);
      DistinctAt(e.subs, i);
      var b, t1, t2 := TwoTraces(e.subs[i], path + [i], deps);
      Operands(e);
      var t;
      branch, s1, s2, t := Grafted(DisciplineOf(e.kind), e.subs, path, deps, i, b, t1, t2);
      ChildDiffers(DisciplineOf(e.kind), e.subs, path, Env(deps, branch), s1, s2, i, t);
      ArrangementShows(e, path, Env(deps, branch), s1, s2);
    }
  }

  lemma Operands(e: Expr)
    requires WellFormed(e)
    ensures DisciplineOf(e.kind) == Choice ==> |e.subs| == 3
    ensures DisciplineOf(e.kind) == ShortCircuit || DisciplineOf(e.kind) == Interleaved ==> |e.subs| == 2
  {
  }

  /** The schedules differ at child `i` alone, which has the trace `t` under the second. */
  ghost predicate DifferAt(d: Discipline, es: seq<Expr>, path: Path, env: Env, s1: Schedule, s2: Schedule,
                           i: nat, t: seq<nat>) {
    var ts, o := Traces(es, path, env, s1), Sequence(d, |es|, path, env, s1);
    && i < |es| && ts[i] != t && Traces(es, path, env, s2) == ts[i := t]
    && o == Sequence(d, |es|, path, env, s2) && NoDup(o) && i in o
    && s1.picks(path) == [] && s2.picks(path) == []
  }

  lemma Grafted(d: Discipline, es: seq<Expr>, path: Path, deps: set<string>, i: nat, b: Path -> bool,
                t1: Schedule, t2: Schedule)
    returns (branch: Path -> bool, s1: Schedule, s2: Schedule, t: seq<nat>)
    requires i < |es| && Permitted(t1) && Permitted(t2)
    requires (d == Choice ==> |es| == 3) && (d == ShortCircuit ==> |es| == 2)
    requires Trace(es[i], path + [i], Env(deps, b), t1) != Trace(es[i], path + [i], Env(deps, b), t2)
    ensures Permitted(s1) && Permitted(s2)
    ensures DifferAt(d, es, path, Env(deps, branch), s1, s2, i, t)
  {
    branch, s1, s2 := Lead(path, i, b), Graft(path + [i], t1), Graft(path + [i], t2);
    GraftPermitted(path + [i], t1);
    GraftPermitted(path + [i], t2);
    t := OnlyChildDiffers(es, path, deps, i, b, t1, t2);
    LeadsToChild(d, |es|, path, Env(deps, branch), i, t1, t2);
  }

  lemma ChildDiffers(d: Discipline, es: seq<Expr>, path: Path, env: Env, s1: Schedule, s2: Schedule,
                     i: nat, t: seq<nat>)
    requires DifferAt(d, es, path, env, s1, s2, i, t)
    ensures Arrange(d, Traces(es, path, env, s1), path, env, s1) !=
            Arrange(d, Traces(es, path, env, s2), path, env, s2)
  {
    var ts := Traces(es, path, env, s1);
    OneDiffers(ts, Sequence(d, |es|, path, env, s1), i, t);
    OneByOne(d, ts, path, env, s1);
    OneByOne(d, ts[i := t], path, env, s2);
  }

  /** Above the child both schedules are the same, and they come to it once. */
  lemma LeadsToChild(d: Discipline, n: nat, path: Path, env: Env, i: nat, t1: Schedule, t2: Schedule)
    requires i < n && (d == Choice ==> n == 3) && Permitted(t1) && env.branch(path) == (i != 2)
    requires d == ShortCircuit ==> n == 2
    ensures var s1, s2 := Graft(path + [i], t1), Graft(path + [i], t2);
            var o := Sequence(d, n, path, env, s1);
            && o == Sequence(d, n, path, env, s2) && NoDup(o) && i in o
            && s1.picks(path) == [] && s2.picks(path) == []
  {
    var s1, s2 := Graft(path + [i], t1), Graft(path + [i], t2);
    GraftPermitted(path + [i], t1);
    assert !(path + [i] <= path);
    assert forall n :: s1.order(path, n) == s2.order(path, n);
    if d == Choice {
      var o := Sequence(d, n, path, env, s1);
      assert o[if i == 0 then 0 else 1] == i;
    } else {
      SequenceCovers(d, n, path, env, s1);
    }
  }

  lemma OnlyChildDiffers(es: seq<Expr>, path: Path, deps: set<string>, i: nat, b: Path -> bool,
                         t1: Schedule, t2: Schedule) returns (t: seq<nat>)
    requires i < |es|
    requires Trace(es[i], path + [i], Env(deps, b), t1) != Trace(es[i], path + [i], Env(deps, b), t2)
    ensures var env := Env(deps, Lead(path, i, b));
            var ts := Traces(es, path, env, Graft(path + [i], t1));
            ts[i] != t && Traces(es, path, env, Graft(path + [i], t2)) == ts[i := t]
  {
    var env, s1, s2 := Env(deps, Lead(path, i, b)), Graft(path + [i], t1), Graft(path + [i], t2);
    t := Trace(es[i], path + [i], env, s2);
    Local(es[i], path + [i], env, s1, path + [i], Env(deps, b), t1);
    Local(es[i], path + [i], env, s2, path + [i], Env(deps, b), t2);
    forall j | 0 <= j < |es| && j != i
      ensures Traces(es, path, env, s1)[j] == Traces(es, path, env, s2)[j]
    {
      forall r: Path ensures !(path + [i] <= path + [j] + r) {
        assert (path + [j] + r)[|path|] == j && (path + [i])[|path|] == i;
      }
      Local(es[j], path + [j], env, s1, path + [j], env, s2);
    }
    assert Traces(es, path, env, s2)[i] == t;
  }

  /** When operands that overlap are taken left first, every node runs its children one by one. */
  lemma OneByOne(d: Discipline, ts: seq<seq<nat>>, path: Path, env: Env, s: Schedule)
    requires s.picks(path) == []
    ensures Arrange(d, ts, path, env, s) == Concat(ts, Sequence(d, |ts|, path, env, s))
  {
    if d == Interleaved && |ts| == 2 {
      MergeLeftFirst(ts[0], ts[1]);
      ConcatTwo(ts, 0, 1);
      assert Ascending(0, 2) == [0, 1];
    }
  }

  lemma ConcatTwo(ts: seq<seq<nat>>, i: nat, j: nat)
    requires i < |ts| && j < |ts|
    ensures Concat(ts, [i, j]) == ts[i] + ts[j]
  {
    assert [i, j][1..] == [j] && [j][1..] == [];
    assert Concat(ts, [j]) == ts[j] + Concat(ts, []);
  }

  /** An expression is deterministic exactly when no node has two calls in children that
      C++17 leaves unordered. */
  lemma DeterministicIffRaceFree(e: Expr, deps: set<string>)
    requires WellFormed(e) && Distinct(e)
    ensures Deterministic(e, deps) <==> RaceFree(e, deps)
  {
    if RaceFree(e, deps) {
      forall branch, s1, s2 | Permitted(s1) && Permitted(s2)
        ensures Trace(e, [], Env(deps, branch), s1) == Trace(e, [], Env(deps, branch), s2)
      {
        OneTrace(e, [], Env(deps, branch), s1, s2);
      }
    } else {
      var branch, s1, s2 := TwoTraces(e, [], deps);
      assert Trace(e, [], Env(deps, branch), s1) != Trace(e, [], Env(deps, branch), s2);
    }
  }

  // ---------------------------------------------------------------------------
  // The orders, node by node
  // ---------------------------------------------------------------------------

  /** `t` has the events of `l` and of `r`, each in their order. */
  predicate Interleaves(t: seq<nat>, l: seq<nat>, r: seq<nat>)
    decreases |t|
  {
    if t == [] then l == [] && r == []
    else
      || (l != [] && t[0] == l[0] && Interleaves(t[1..], l[1..], r))
      || (r != [] && t[0] == r[0] && Interleaves(t[1..], l, r[1..]))
  }

  lemma {:induction false} MergeInterleaves(l: seq<nat>, r: seq<nat>, picks: seq<bool>)
    ensures Interleaves(Merge(l, r, picks), l, r)
    decreases |l| + |r|
  {
    if l == [] || r == [] {
      OneSide(l + r, l == []);
      assert l == [] ==> l + r == r;
      assert r == [] ==> l + r == l;
    } else if picks == [] || picks[0] {
      MergeInterleaves(l[1..], r, if picks == [] then [] else picks[1..]);
    } else {
      MergeInterleaves(l, r[1..], picks[1..]);
    }
  }

  lemma {:induction false} OneSide(t: seq<nat>, right: bool)
    ensures if right then Interleaves(t, [], t) else Interleaves(t, t, [])
  {
    if t != [] { OneSide(t[1..], right); }
  }

  lemma {:induction false} OnlyOneSide(t: seq<nat>, l: seq<nat>, r: seq<nat>)
    requires Interleaves(t, l, r)
    ensures l == [] ==> t == r
    ensures r == [] ==> t == l
    decreases |t|
  {
    if t != [] {
      if l != [] && t[0] == l[0] && Interleaves(t[1..], l[1..], r) {
        OnlyOneSide(t[1..], l[1..], r);
      } else {
        OnlyOneSide(t[1..], l, r[1..]);
      }
    }
  }

  lemma {:induction false} PicksFor(t: seq<nat>, l: seq<nat>, r: seq<nat>) returns (picks: seq<bool>)
    requires Interleaves(t, l, r)
    ensures Merge(l, r, picks) == t
    decreases |t|
  {
    if l == [] || r == [] {
      OnlyOneSide(t, l, r);
      picks := [];
    } else if t[0] == l[0] && Interleaves(t[1..], l[1..], r) {
      var rest := PicksFor(t[1..], l[1..], r);
      picks := [true] + rest;
      assert picks[1..] == rest;
    } else {
      var rest := PicksFor(t[1..], l, r[1..]);
      picks := [false] + rest;
      assert picks[1..] == rest;
    }
  }

  /** Operands that overlap can be interleaved in every way, and in no other. */
  lemma MergeIff(t: seq<nat>, l: seq<nat>, r: seq<nat>)
    ensures Interleaves(t, l, r) <==> exists picks :: Merge(l, r, picks) == t
  {
    if Interleaves(t, l, r) { var picks := PicksFor(t, l, r); }
    if picks :| Merge(l, r, picks) == t { MergeInterleaves(l, r, picks); }
  }

  /** Every order of the free children, and every choice between overlapping operands, is one of
      a permitted schedule. */
  lemma ScheduleFor(path: Path, order: seq<nat>, picks: seq<bool>) returns (s: Schedule)
    requires IsOrder(order, |order|)
    ensures Permitted(s) && s.order(path, |order|) == order && s.picks(path) == picks
  {
    s := Schedule((p: Path, n: nat) => if p == path && n == |order| then order else Ascending(0, n),
                  (p: Path) => picks);
    LeftFirstPermitted();
    forall p: Path, n: nat ensures IsOrder(s.order(p, n), n) { assert IsOrder(LEFT_FIRST.order(p, n), n); }
  }

  lemma UpTwo(ts: seq<seq<nat>>)
    requires |ts| == 2
    ensures Concat(ts, Ascending(0, 2)) == ts[0] + ts[1] && Concat(ts, Descending(2)) == ts[1] + ts[0]
  {
    ConcatTwo(ts, 0, 1);
    ConcatTwo(ts, 1, 0);
    assert Ascending(0, 2) == [0, 1] && Descending(2) == [1, 0];
  }

  lemma ThreeDown(ts: seq<seq<nat>>)
    requires |ts| == 3
    ensures Concat(ts, Descending(3)) == ts[2] + ts[1] + ts[0]
  {
    assert Descending(3) == [2] + [1, 0];
    ConcatSplit(ts, [2], [1, 0]);
    ConcatTwo(ts, 1, 0);
    assert Concat(ts, [2]) == ts[2] + Concat(ts, []);
    assert ts[2] + (ts[1] + ts[0]) == ts[2] + ts[1] + ts[0];
  }

  /** The right operand of an assignment comes before the left. */
  lemma RightBeforeLeft(ts: seq<seq<nat>>, path: Path, env: Env, s: Schedule)
    requires |ts| == 2
    ensures Arrange(DisciplineOf(BinaryNode(Assignment)), ts, path, env, s) == ts[1] + ts[0]
  {
    UpTwo(ts);
  }

  /** That of an overloaded one, too; the name of the operator comes last. */
  lemma OverloadedAssignment(callee: Callee, op: Operator, ts: seq<seq<nat>>, path: Path, env: Env, s: Schedule)
    requires |ts| == 3 && IsAssignment(op)
    ensures Arrange(DisciplineOf(OperatorNode(callee, op)), ts, path, env, s) == ts[2] + ts[1] + ts[0]
  {
    ThreeDown(ts);
  }

  /** Shifts, commas and pointers to members go from left to right. */
  lemma LeftBeforeRight(op: BinaryOperator, ts: seq<seq<nat>>, path: Path, env: Env, s: Schedule)
    requires |ts| == 2 && (op == Shift || op == CommaOp || op == PointerToMember)
    ensures Arrange(DisciplineOf(BinaryNode(op)), ts, path, env, s) == ts[0] + ts[1]
  {
    UpTwo(ts);
  }

  /** The left operand of a logical operator decides whether the right one is evaluated. */
  lemma LeftDecides(op: BinaryOperator, ts: seq<seq<nat>>, path: Path, env: Env, s: Schedule)
    requires |ts| == 2 && (op == LogicalAnd || op == LogicalOr)
    ensures Arrange(DisciplineOf(BinaryNode(op)), ts, path, env, s) == ts[0] + if env.branch(path) then ts[1] else []
  {
    UpTwo(ts);
    assert Concat(ts, [0]) == ts[0] + Concat(ts, []);
  }

  /** The condition decides which of the other parts is evaluated after it. */
  lemma ConditionDecides(ts: seq<seq<nat>>, path: Path, env: Env, s: Schedule)
    requires |ts| == 3
    ensures Arrange(DisciplineOf(Conditional), ts, path, env, s) ==
            ts[0] + if env.branch(path) then ts[1] else ts[2]
  {
    if env.branch(path) { ConcatTwo(ts, 0, 1); } else { ConcatTwo(ts, 0, 2); }
  }

  /** A call assigns its own id after everything in it has been evaluated. */
  lemma CallComesLast(e: Expr, path: Path, env: Env, s: Schedule)
    requires AssignsId(e.kind, env.deps)
    ensures var t := Trace(e, path, env, s);
            && t != [] && t[|t| - 1] == e.site
            && t[..|t| - 1] == Arrange(DisciplineOf(e.kind), Traces(e.subs, path, env, s), path, env, s)
  {
  }
}
