/** C++ expression trees and the orders in which C++17 (ISO/IEC 14882:2017) lets an
    implementation evaluate them, observed through the calls that assign node ids. */
module EvaluationOrder {
  // ---------------------------------------------------------------------------
  // Expressions
  // ---------------------------------------------------------------------------

  /** The overloadable operators, in the order in which Clang enumerates them. */
  datatype Operator =
    | Plus | Minus | Star | Slash | Percent | Caret | Amp | Pipe | Tilde | Exclaim
    | Equal | Less | Greater
    | PlusEqual | MinusEqual | StarEqual | SlashEqual | PercentEqual | CaretEqual | AmpEqual | PipeEqual
    | LessLess | GreaterGreater | LessLessEqual | GreaterGreaterEqual
    | EqualEqual | ExclaimEqual | LessEqual | GreaterEqual | Spaceship
    | AmpAmp | PipePipe | PlusPlus | MinusMinus | Comma | ArrowStar | Arrow | Call | Subscript

  function Rank(op: Operator): nat {
    match op
    case Plus => 0 case Minus => 1 case Star => 2 case Slash => 3 case Percent => 4 case Caret => 5
    case Amp => 6 case Pipe => 7 case Tilde => 8 case Exclaim => 9
    case Equal => 10 case Less => 11 case Greater => 12
    case PlusEqual => 13 case MinusEqual => 14 case StarEqual => 15 case SlashEqual => 16
    case PercentEqual => 17 case CaretEqual => 18 case AmpEqual => 19 case PipeEqual => 20
    case LessLess => 21 case GreaterGreater => 22 case LessLessEqual => 23 case GreaterGreaterEqual => 24
    case EqualEqual => 25 case ExclaimEqual => 26 case LessEqual => 27 case GreaterEqual => 28 case Spaceship => 29
    case AmpAmp => 30 case PipePipe => 31 case PlusPlus => 32 case MinusMinus => 33 case Comma => 34
    case ArrowStar => 35 case Arrow => 36 case Call => 37 case Subscript => 38
  }

  /** The built-in binary operators, as far as they differ in sequencing. */
  datatype BinaryOperator = Unsequenced | Assignment | LogicalAnd | LogicalOr | CommaOp | Shift | PointerToMember

  /** The function a call names, if it names one. */
  datatype Callee = Indirect | Direct(qualified: string, name: string)

  /** `CallNode` and `OperatorNode` have the callee expression as their first child and
      the arguments after it; a `Conditional` has its condition, then, and else parts.
      `Sequential` stands for braced lists, casts and unary operators. */
  datatype Kind =
    | CallNode(callee: Callee)
    | OperatorNode(callee: Callee, op: Operator)
    | ConstructNode(braced: bool)
    | BinaryNode(operator: BinaryOperator)
    | Conditional
    | Sequential

  /** `site` identifies the node, as its address does in the syntax tree. */
  datatype Expr = Node(kind: Kind, site: nat, subs: seq<Expr>)

  /** How many children a node of the syntax tree has. */
  predicate Arity(kind: Kind, n: nat) {
    match kind
    case CallNode(_) => n >= 1
    case OperatorNode(_, op) =>
      if IsAssignment(op) || op == Less || op == Greater then n == 3 else n >= 2
    case BinaryNode(_) => n == 2
    case Conditional => n == 3
    case _ => true
  }

  /** The callee of an operator call is a bare reference to the operator function. */
  predicate WellFormed(e: Expr) {
    && Arity(e.kind, |e.subs|)
    && (e.kind.OperatorNode? ==> e.subs[0].kind == Sequential && e.subs[0].subs == [])
    && forall i :: 0 <= i < |e.subs| ==> WellFormed(e.subs[i])
  }

  predicate IsAssignment(op: Operator) {
    op in {Equal, PlusEqual, MinusEqual, StarEqual, SlashEqual, PercentEqual, CaretEqual, AmpEqual, PipeEqual,
           LessLessEqual, GreaterGreaterEqual}
  }

  // ---------------------------------------------------------------------------
  // The order rules
  // ---------------------------------------------------------------------------

  /** How the children of a node are sequenced. `HeadThen...` evaluates the first child
      before the others. `AnyOrder` children are indeterminately sequenced: they may be
      taken in any order but do not overlap. `Interleaved` ones may overlap. */
  datatype Discipline = InOrder | Reversed | HeadThenAnyOrder | HeadTwoThenAnyOrder | AnyOrder
                      | Interleaved | ShortCircuit | Choice

  /** Sections 8.2.2 (calls), 8.8 (shift), 8.18 (assignment), 8.14 and 8.15 (logical), 8.16
      (conditional), 8.19 (comma), 8.5 (pointer to member), 8.2.1 (subscript), 11.6.4
      (braced lists) and 16.3.1.2 (operators keep the built-in order). */
  function DisciplineOf(kind: Kind): Discipline {
    match kind
    case CallNode(_) => HeadThenAnyOrder
    case OperatorNode(_, op) =>
      if IsAssignment(op) then Reversed
      else if op in {LessLess, GreaterGreater, AmpAmp, PipePipe, Comma, ArrowStar, Subscript} then InOrder
      else if op == Operator.Call then HeadTwoThenAnyOrder
      else HeadThenAnyOrder
    case ConstructNode(braced) => if braced then InOrder else AnyOrder
    case BinaryNode(op) =>
      (match op
       case Unsequenced => Interleaved
       case Assignment => Reversed
       case LogicalAnd => ShortCircuit
       case LogicalOr => ShortCircuit
       case _ => InOrder)
    case Conditional => Choice
    case Sequential => InOrder
  }

  // ---------------------------------------------------------------------------
  // Evaluation
  // ---------------------------------------------------------------------------

  /** A position in the tree: the child indices on the way from the root. */
  type Path = seq<nat>

  /** What an evaluation depends on besides its order: the functions that assign node ids,
      and at each branching node which way the condition goes. */
  datatype Env = Env(deps: set<string>, branch: Path -> bool)

  /** The choices an implementation makes: at each node an order of `n` children, and for
      operands that overlap, which of the two takes the next step. */
  datatype Schedule = Schedule(order: (Path, nat) -> seq<nat>, picks: Path -> seq<bool>)

  ghost predicate IsOrder(order: seq<nat>, n: nat) {
    && |order| == n
    && (forall i :: 0 <= i < n ==> i in order)
    && (forall i :: 0 <= i < n ==> order[i] < n)
    && (forall i, j :: 0 <= i < j < n ==> order[i] != order[j])
  }

  ghost predicate Permitted(s: Schedule) {
    forall p, n :: IsOrder(s.order(p, n), n)
  }

  predicate AssignsId(kind: Kind, deps: set<string>) {
    (kind.CallNode? || kind.OperatorNode?) && kind.callee.Direct? && kind.callee.qualified in deps
  }

  function Ascending(from: nat, to: nat): (r: seq<nat>)
    requires from <= to
    ensures |r| == to - from && forall i :: 0 <= i < |r| ==> r[i] == from + i
  {
    seq(to - from, i requires 0 <= i => from + i)
  }

  function Descending(n: nat): (r: seq<nat>)
    ensures |r| == n && forall i :: 0 <= i < n ==> r[i] == n - 1 - i
  {
    seq(n, i requires 0 <= i < n => n - 1 - i)
  }

  /** The first `fixed` children in order, and then the others as the schedule says. */
  function HeadFirst(fixed: nat, n: nat, order: seq<nat>): seq<nat> {
    if n <= fixed then Ascending(0, n)
    else Ascending(0, fixed) + seq(|order|, i requires 0 <= i < |order| => fixed + order[i])
  }

  /** The children that are evaluated, in the order in which they are. */
  function Sequence(d: Discipline, n: nat, path: Path, env: Env, s: Schedule): seq<nat> {
    match d
    case InOrder => Ascending(0, n)
    case Reversed => Descending(n)
    case HeadThenAnyOrder => HeadFirst(1, n, s.order(path, if n > 1 then n - 1 else 0))
    case HeadTwoThenAnyOrder => HeadFirst(2, n, s.order(path, if n > 2 then n - 2 else 0))
    case AnyOrder => s.order(path, n)
    case Interleaved => Ascending(0, n)
    case ShortCircuit => if env.branch(path) then Ascending(0, n) else [0]
    case Choice => if env.branch(path) then [0, 1] else [0, 2]
  }

  /** Two traces merged step by step, the left one first when nothing is picked. */
  function Merge(l: seq<nat>, r: seq<nat>, picks: seq<bool>): seq<nat>
    decreases |l| + |r|
  {
    if l == [] then r
    else if r == [] then l
    else if picks == [] || picks[0] then [l[0]] + Merge(l[1..], r, if picks == [] then [] else picks[1..])
    else [r[0]] + Merge(l, r[1..], picks[1..])
  }

  /** What the children do, taken in the given order. */
  function Concat(ts: seq<seq<nat>>, order: seq<nat>): seq<nat> {
    if order == [] then []
    else (if order[0] < |ts| then ts[order[0]] else []) + Concat(ts, order[1..])
  }

  /** What a node's children do together, from what each of them does. */
  function Arrange(d: Discipline, ts: seq<seq<nat>>, path: Path, env: Env, s: Schedule): seq<nat> {
    if d == Interleaved && |ts| == 2 then Merge(ts[0], ts[1], s.picks(path))
    else Concat(ts, Sequence(d, |ts|, path, env, s))
  }

  /** The call itself, if it assigns an id. */
  function Own(e: Expr, deps: set<string>): seq<nat> {
    if AssignsId(e.kind, deps) then [e.site] else []
  }

  /** The sites of the id-assigning calls, in the order in which they are made. */
  function Trace(e: Expr, path: Path, env: Env, s: Schedule): seq<nat>
    decreases e, 1
  {
    Arrange(DisciplineOf(e.kind), Traces(e.subs, path, env, s), path, env, s) + Own(e, env.deps)
  }

  /** The traces of the children of the node at `path`. */
  function Traces(es: seq<Expr>, path: Path, env: Env, s: Schedule): (ts: seq<seq<nat>>)
    ensures |ts| == |es|
    decreases es, 0
  {
    seq(|es|, i requires 0 <= i < |es| => Trace(es[i], path + [i], env, s))
  }

  /** Every permitted order of evaluation makes the id-assigning calls in the same order,
      whichever way the conditions go. */
  ghost predicate Deterministic(e: Expr, deps: set<string>) {
    forall branch, s1, s2 | Permitted(s1) && Permitted(s2) ::
      Trace(e, [], Env(deps, branch), s1) == Trace(e, [], Env(deps, branch), s2)
  }
}
