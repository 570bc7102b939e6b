/** The static check for node-id determinism: the search for id-assigning calls, the two
    tests for several of them, what is reported at each node, and the braces fix-it. */
module NodeIdCheck {
  import opened Wrappers
  import opened EvaluationOrder

  // ---------------------------------------------------------------------------
  // Searching
  // ---------------------------------------------------------------------------

  /** The first id-assigning call in an expression, callers before what they contain. */
  function FindCall(e: Expr, deps: set<string>): Option<nat>
    decreases e, 1
  {
    if AssignsId(e.kind, deps) then Some(e.site) else FindFirst(e.subs, deps)
  }

  function FindFirst(es: seq<Expr>, deps: set<string>): Option<nat>
    decreases es, 0
  {
    if es == [] then None
    else match FindCall(es[0], deps)
         case Some(site) => Some(site)
         case None => FindFirst(es[1..], deps)
  }

  predicate HasCall(e: Expr, deps: set<string>) {
    FindCall(e, deps).Some?
  }

  /** How many of the expressions contain an id-assigning call. */
  function Count(es: seq<Expr>, deps: set<string>): nat {
    if es == [] then 0 else (if HasCall(es[0], deps) then 1 else 0) + Count(es[1..], deps)
  }

  /** The functions that an expression calls by name, in any of its parts. */
  function Called(e: Expr): set<string>
    decreases e, 1
  {
    CalledIn(e.subs)
    + if (e.kind.CallNode? || e.kind.OperatorNode?) && e.kind.callee.Direct? then {e.kind.callee.qualified} else {}
  }

  function CalledIn(es: seq<Expr>): set<string>
    decreases es, 0
  {
    if es == [] then {} else Called(es[0]) + CalledIn(es[1..])
  }

  /** The search finds a call exactly when a part of the expression calls one of the functions. */
  lemma {:induction false} HasCallIff(e: Expr, deps: set<string>)
    ensures HasCall(e, deps) <==> Called(e) * deps != {}
    decreases e, 1
  {
    FindFirstIff(e.subs, deps);
    if AssignsId(e.kind, deps) { assert e.kind.callee.qualified in Called(e) * deps; }
    assert CalledIn(e.subs) * deps <= Called(e) * deps;
  }

  lemma {:induction false} FindFirstIff(es: seq<Expr>, deps: set<string>)
    ensures FindFirst(es, deps).Some? <==> CalledIn(es) * deps != {}
    decreases es, 0
  {
    if es != [] {
      HasCallIff(es[0], deps);
      FindFirstIff(es[1..], deps);
      assert CalledIn(es) * deps == (Called(es[0]) * deps) + (CalledIn(es[1..]) * deps);
    }
  }

  // ---------------------------------------------------------------------------
  // The two tests
  // ---------------------------------------------------------------------------

  /** Two of the children from position `k` on contain a call. */
  ghost predicate TwoFrom(e: Expr, k: nat, deps: set<string>) {
    exists i, j :: k <= i < j < |e.subs| && HasCall(e.subs[i], deps) && HasCall(e.subs[j], deps)
  }

  lemma {:induction false} SomeCounted(es: seq<Expr>, deps: set<string>)
    ensures Count(es, deps) > 0 <==> exists i :: 0 <= i < |es| && HasCall(es[i], deps)
  {
    if es != [] {
      SomeCounted(es[1..], deps);
      if i :| 0 <= i < |es| && HasCall(es[i], deps) { assert i > 0 ==> es[1..][i - 1] == es[i]; }
    }
  }

  lemma {:induction false} TwoCounted(es: seq<Expr>, deps: set<string>)
    ensures Count(es, deps) > 1 <==>
            exists i, j :: 0 <= i < j < |es| && HasCall(es[i], deps) && HasCall(es[j], deps)
  {
    if es != [] {
      var rest := es[1..];
      TwoCounted(rest, deps);
      SomeCounted(rest, deps);
      if i, j :| 0 <= i < j < |es| && HasCall(es[i], deps) && HasCall(es[j], deps) {
        assert rest[j - 1] == es[j] && (i > 0 ==> rest[i - 1] == es[i]);
      }
      if i, j :| 0 <= i < j < |rest| && HasCall(rest[i], deps) && HasCall(rest[j], deps) {
        assert es[i + 1] == rest[i] && es[j + 1] == rest[j];
      }
      if HasCall(es[0], deps) {
        if j :| 0 <= j < |rest| && HasCall(rest[j], deps) { assert es[j + 1] == rest[j]; }
      }
    }
  }

  lemma TwoFromCounted(e: Expr, k: nat, deps: set<string>)
    requires k <= |e.subs|
    ensures TwoFrom(e, k, deps) <==> Count(e.subs[k..], deps) > 1
  {
    var tail := e.subs[k..];
    TwoCounted(tail, deps);
    if i, j :| k <= i < j < |e.subs| && HasCall(e.subs[i], deps) && HasCall(e.subs[j], deps) {
      assert tail[i - k] == e.subs[i] && tail[j - k] == e.subs[j];
    }
    if i, j :| 0 <= i < j < |tail| && HasCall(tail[i], deps) && HasCall(tail[j], deps) {
      assert e.subs[i + k] == tail[i] && e.subs[j + k] == tail[j];
    }
  }

  lemma {:induction false} CountSplit(a: seq<Expr>, b: seq<Expr>, deps: set<string>)
    ensures Count(a + b, deps) == Count(a, deps) + Count(b, deps)
  {
    if a == [] {
      assert a + b == b;
    } else {
      assert (a + b)[1..] == a[1..] + b;
      CountSplit(a[1..], b, deps);
    }
  }

  /** The counter with its early exit decides whether more than one expression has a call. */
  method HasMultiple(es: seq<Expr>, deps: set<string>) returns (multiple: bool)
    ensures multiple <==> Count(es, deps) > 1
  {
    var count := 0;
    for i := 0 to |es|
      invariant count == Count(es[..i], deps) <= 1
    {
      CountSplit(es[..i], [es[i]], deps);
      assert es[..i + 1] == es[..i] + [es[i]];
      if HasCall(es[i], deps) {
        count := count + 1;
      }
      if count > 1 {
        CountSplit(es[..i + 1], es[i + 1..], deps);
        assert es == es[..i + 1] + es[i + 1..];
        return true;
      }
    }
    assert es[..|es|] == es;
    return false;
  }

  /** All nodes of a tree, and the assumption that they are distinct nodes. */
  function Sites(e: Expr): set<nat>
    decreases e, 1
  {
    {e.site} + SitesOf(e.subs)
  }

  function SitesOf(es: seq<Expr>): set<nat>
    decreases es, 0
  {
    if es == [] then {} else Sites(es[0]) + SitesOf(es[1..])
  }

  predicate Distinct(e: Expr)
    decreases e, 1
  {
    e.site !in SitesOf(e.subs) && AllDistinct(e.subs)
  }

  predicate AllDistinct(es: seq<Expr>)
    decreases es, 0
  {
    es == [] || (Distinct(es[0]) && Sites(es[0]) !! SitesOf(es[1..]) && AllDistinct(es[1..]))
  }

  lemma {:induction false} DistinctAt(es: seq<Expr>, i: nat)
    requires AllDistinct(es) && i < |es|
    ensures Distinct(es[i]) && Sites(es[i]) <= SitesOf(es)
  {
    if i > 0 { DistinctAt(es[1..], i - 1); }
  }

  lemma {:induction false} DistinctApart(es: seq<Expr>, i: nat, j: nat)
    requires AllDistinct(es) && i < j < |es|
    ensures Sites(es[i]) !! Sites(es[j])
  {
    if i > 0 { DistinctApart(es[1..], i - 1, j - 1); } else { DistinctAt(es[1..], j - 1); }
  }

  lemma {:induction false} FoundInside(e: Expr, deps: set<string>)
    ensures HasCall(e, deps) ==> FindCall(e, deps).value in Sites(e)
    decreases e, 1
  {
    if !AssignsId(e.kind, deps) { FirstInside(e.subs, deps); }
  }

  lemma {:induction false} FirstInside(es: seq<Expr>, deps: set<string>)
    ensures FindFirst(es, deps).Some? ==> FindFirst(es, deps).value in SitesOf(es)
    decreases es, 0
  {
    if es != [] {
      FoundInside(es[0], deps);
      FirstInside(es[1..], deps);
    }
  }

  function FoundSites(es: seq<Expr>, deps: set<string>): set<nat> {
    if es == [] then {}
    else (match FindCall(es[0], deps) case Some(site) => {site} case None => {}) + FoundSites(es[1..], deps)
  }

  lemma {:induction false} FoundSitesInside(es: seq<Expr>, deps: set<string>)
    ensures FoundSites(es, deps) <= SitesOf(es)
  {
    if es != [] {
      FoundInside(es[0], deps);
      FoundSitesInside(es[1..], deps);
    }
  }

  /** In a tree each expression contributes its own call, so the size of the set is the count. */
  lemma {:induction false} FoundSitesCount(es: seq<Expr>, deps: set<string>)
    requires AllDistinct(es)
    ensures |FoundSites(es, deps)| == Count(es, deps)
  {
    if es != [] {
      FoundInside(es[0], deps);
      FoundSitesInside(es[1..], deps);
      FoundSitesCount(es[1..], deps);
      if HasCall(es[0], deps) {
        var site := FindCall(es[0], deps).value;
        assert site !in FoundSites(es[1..], deps);
        assert |{site} + FoundSites(es[1..], deps)| == 1 + |FoundSites(es[1..], deps)|;
      } else {
        assert {} + FoundSites(es[1..], deps) == FoundSites(es[1..], deps);
      }
    }
  }

  lemma {:induction false} FoundSitesSplit(a: seq<Expr>, b: seq<Expr>, deps: set<string>)
    ensures FoundSites(a + b, deps) == FoundSites(a, deps) + FoundSites(b, deps)
  {
    if a == [] {
      assert a + b == b;
    } else {
      assert (a + b)[1..] == a[1..] + b;
      FoundSitesSplit(a[1..], b, deps);
    }
  }

  /** The set of calls found decides the same question as the counter. */
  method VerifySequencing(es: seq<Expr>, deps: set<string>) returns (report: bool)
    requires AllDistinct(es)
    ensures report <==> Count(es, deps) > 1
  {
    var found: set<nat> := {};
    for i := 0 to |es|
      invariant found == FoundSites(es[..i], deps)
    {
      FoundSitesSplit(es[..i], [es[i]], deps);
      assert es[..i + 1] == es[..i] + [es[i]];
      match FindCall(es[i], deps) {
        case Some(site) => found := found + {site};
        case None =>
      }
    }
    assert es[..|es|] == es;
    FoundSitesCount(es, deps);
    report := |found| > 1;
  }

  // ---------------------------------------------------------------------------
  // What is reported at one node
  // ---------------------------------------------------------------------------

  function Args(e: Expr): seq<Expr> {
    if e.subs == [] then [] else e.subs[1..]
  }

  predicate IsMkNode(e: Expr) {
    e.kind.CallNode? && e.kind.callee.Direct? && e.kind.callee.name == "mkNode" && |Args(e)| > 2
  }

  /** The range test that is meant to select the assignment operators. */
  predicate InAssignmentRange(op: Operator) {
    Rank(Equal) <= Rank(op) <= Rank(PipeEqual)
  }

  /** The expressions among which more than one call makes the check report the node. */
  function Examined(e: Expr): seq<Expr> {
    match e.kind
    case CallNode(_) => if IsMkNode(e) then Args(e)[1..] else Args(e)
    case OperatorNode(_, op) =>
      if InAssignmentRange(op) || op == LessLess || op == GreaterGreater then [] else Args(e)
    case ConstructNode(braced) => if braced then [] else e.subs
    case BinaryNode(op) => if op == Unsequenced || op == PointerToMember then e.subs else []
    case _ => []
  }

  predicate Flagged(e: Expr, deps: set<string>) {
    Count(Examined(e), deps) > 1
  }

  predicate Silent(e: Expr, deps: set<string>) {
    !Flagged(e, deps) && forall i :: 0 <= i < |e.subs| ==> Silent(e.subs[i], deps)
  }

  lemma CallFlagged(e: Expr, deps: set<string>)
    requires WellFormed(e) && e.kind.CallNode?
    ensures Flagged(e, deps) <==>
            TwoFrom(e, if e.kind.callee.Direct? && e.kind.callee.name == "mkNode" && |e.subs| > 3 then 2 else 1, deps)
  {
    TwoFromCounted(e, 1, deps);
    if IsMkNode(e) {
      TwoFromCounted(e, 2, deps);
      assert Args(e)[1..] == e.subs[2..];
    }
  }

  lemma OperatorFlagged(e: Expr, deps: set<string>)
    requires WellFormed(e) && e.kind.OperatorNode?
    ensures Flagged(e, deps) <==>
            TwoFrom(e, 1, deps)
            && e.kind.op !in {Equal, Less, Greater, PlusEqual, MinusEqual, StarEqual, SlashEqual, PercentEqual,
                              CaretEqual, AmpEqual, PipeEqual, LessLess, GreaterGreater}
  {
    TwoFromCounted(e, 1, deps);
    RangeIs(e.kind.op);
  }

  lemma RangeIs(op: Operator)
    ensures InAssignmentRange(op) <==>
            op in {Equal, Less, Greater, PlusEqual, MinusEqual, StarEqual, SlashEqual, PercentEqual, CaretEqual,
                   AmpEqual, PipeEqual}
  {
  }

  lemma OthersFlagged(e: Expr, deps: set<string>)
    requires WellFormed(e) && !e.kind.CallNode? && !e.kind.OperatorNode?
    ensures Flagged(e, deps) <==>
            TwoFrom(e, 0, deps)
            && e.kind in {ConstructNode(false), BinaryNode(Unsequenced), BinaryNode(PointerToMember)}
  {
    TwoFromCounted(e, 0, deps);
    assert e.subs[0..] == e.subs;
  }

  datatype Report = Nothing | Plain | UseBraces

  /** Whether an overloaded operator is reported. */
  method CheckOperator(e: Expr, deps: set<string>) returns (report: bool)
    requires WellFormed(e) && Distinct(e) && e.kind.OperatorNode?
    ensures report <==> Flagged(e, deps)
    ensures report <==>
            TwoFrom(e, 1, deps)
            && e.kind.op !in {Equal, Less, Greater, PlusEqual, MinusEqual, StarEqual, SlashEqual, PercentEqual,
                              CaretEqual, AmpEqual, PipeEqual, LessLess, GreaterGreater}
  {
    OperatorFlagged(e, deps);
    var op := e.kind.op;
    report := false;
    if InAssignmentRange(op) {
      DistinctAt(e.subs, 1);
      DistinctAt(e.subs, 2);
      var right := VerifySequencing([Args(e)[1]], deps);
      var left := VerifySequencing([Args(e)[0]], deps);
      report := right || left;
    } else if op != LessLess && op != GreaterGreater {
      report := VerifySequencing(Args(e), deps);
    }
  }

  /** Whether a built-in binary operator is reported. */
  method CheckBinary(e: Expr, deps: set<string>) returns (report: bool)
    requires WellFormed(e) && Distinct(e) && e.kind.BinaryNode?
    ensures report <==> Flagged(e, deps)
    ensures report <==> TwoFrom(e, 0, deps) && (e.kind.operator == Unsequenced || e.kind.operator == PointerToMember)
  {
    OthersFlagged(e, deps);
    var op := e.kind.operator;
    report := false;
    if op == Assignment {
      DistinctAt(e.subs, 1);
      var left := VerifySequencing([e.subs[0]], deps);
      var right := VerifySequencing([e.subs[1]], deps);
      report := left || right;
    } else if op == Unsequenced || op == PointerToMember {
      report := VerifySequencing(e.subs, deps);
    }
  }

  /** The callback of the matchers, on one node of the syntax tree. */
  method Check(e: Expr, deps: set<string>) returns (r: Report)
    requires WellFormed(e) && Distinct(e)
    ensures r != Nothing <==> Flagged(e, deps)
    ensures r == UseBraces <==> IsMkNode(e) && Flagged(e, deps)
    ensures e.kind.CallNode? ==>
              var makes := e.kind.callee.Direct? && e.kind.callee.name == "mkNode" && |e.subs| > 3;
              r == if !TwoFrom(e, if makes then 2 else 1, deps) then Nothing else if makes then UseBraces else Plain
    ensures e.kind.ConstructNode? ==> r == if TwoFrom(e, 0, deps) && !e.kind.braced then Plain else Nothing
  {
    if e.kind.CallNode? { CallFlagged(e, deps); }
    if e.kind.ConstructNode? { OthersFlagged(e, deps); }
    r := Nothing;
    var report := false;
    match e.kind {
      case CallNode(_) =>
        if IsMkNode(e) {
          var multiple := HasMultiple(Args(e)[1..], deps);
          if multiple { r := UseBraces; }
          return;
        }
        report := VerifySequencing(Args(e), deps);
      case OperatorNode(_, _) => report := CheckOperator(e, deps);
      case ConstructNode(braced) =>
        if !braced {
          report := VerifySequencing(e.subs, deps);
        }
      case BinaryNode(_) => report := CheckBinary(e, deps);
      case _ =>
    }
    if report { r := Plain; }
  }
}
