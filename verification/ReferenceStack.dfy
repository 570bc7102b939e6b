/** The reference model of a context-dependent map: a stack of association lists, one
    for each open scope, in order of first insertion. Push duplicates the top,
    insertion and assignment change the top alone, pop drops it, clear empties all.
    The map as implemented is shown to agree with it in every run. */
module ReferenceStack {
  import opened Wrappers
  import opened SaveChain

  type Entries<K, V> = seq<(K, V)>

  datatype Op<K, V> = Push | Pop | Insert(k: K, v: V) | Index(k: K) | Assign(k: K, v: V) | Clear

  // ---------------------------------------------------------------------------
  // The reference
  // ---------------------------------------------------------------------------

  predicate HasEntry<K(==), V>(es: Entries<K, V>, k: K) {
    exists i :: 0 <= i < |es| && es[i].0 == k
  }

  /** Overwrites the entry of `k` in place, or appends one. */
  function Put<K(==), V>(es: Entries<K, V>, k: K, v: V): Entries<K, V> {
    if es == [] then [(k, v)]
    else if es[0].0 == k then [(k, v)] + es[1..]
    else [es[0]] + Put(es[1..], k, v)
  }

  function RefStep<K(==), V>(stack: seq<Entries<K, V>>, op: Op<K, V>, default: V): seq<Entries<K, V>>
    requires stack != []
  {
    var below, top := stack[..|stack| - 1], stack[|stack| - 1];
    match op
    case Push => stack + [top]
    case Pop => below
    case Insert(k, v) => below + [Put(top, k, v)]
    case Index(k) => if HasEntry(top, k) then stack else below + [Put(top, k, default)]
    case Assign(k, v) => below + [Put(top, k, v)]
    case Clear => seq(|stack|, _ => [])
  }

  /** A run never pops the bottom scope; `depth` counts the scopes above it. */
  predicate Legal<K, V>(ops: seq<Op<K, V>>, depth: nat) {
    ops == [] ||
    match ops[0]
    case Push => Legal(ops[1..], depth + 1)
    case Pop => depth > 0 && Legal(ops[1..], depth - 1)
    case _ => Legal(ops[1..], depth)
  }

  function RefRun<K(==), V>(stack: seq<Entries<K, V>>, ops: seq<Op<K, V>>, default: V): seq<Entries<K, V>>
    requires stack != [] && Legal(ops, |stack| - 1)
    decreases |ops|
  {
    if ops == [] then stack else RefRun(RefStep(stack, ops[0], default), ops[1..], default)
  }

  // ---------------------------------------------------------------------------
  // The implementation
  // ---------------------------------------------------------------------------

  function Step<K(==), V>(s: State<K, V>, op: Op<K, V>, default: V): State<K, V>
    requires op.Pop? ==> s.top > 0
  {
    match op
    case Push => PushState(s)
    case Pop => PopState(s)
    case Insert(k, v) => InsertState(s, k, v)
    case Index(k) => IndexState(s, k, default)
    case Assign(k, v) => AssignState(s, k, v, default)
    case Clear => ClearState(s)
  }

  function Run<K(==), V>(s: State<K, V>, ops: seq<Op<K, V>>, default: V): State<K, V>
    requires Legal(ops, s.top)
    decreases |ops|
  {
    if ops == [] then s else Run(Step(s, ops[0], default), ops[1..], default)
  }

  /** What is visible when `level` is the top scope. */
  function VisibleAt<K, V>(cells: seq<Cell<K, V>>, level: nat): Entries<K, V> {
    if cells == [] then []
    else
      (if cells[0].born <= level then [(cells[0].key, ValueAt(cells[0], level))] else [])
      + VisibleAt(cells[1..], level)
  }

  function Stack<K, V>(s: State<K, V>): (stack: seq<Entries<K, V>>)
    ensures |stack| == s.top + 1
  {
    seq(s.top + 1, j requires 0 <= j => VisibleAt(s.cells, j))
  }

  // ---------------------------------------------------------------------------
  // Each operation refines the reference
  // ---------------------------------------------------------------------------

  lemma {:induction false} VisibleAppend<K, V>(a: seq<Cell<K, V>>, b: seq<Cell<K, V>>, level: nat)
    ensures VisibleAt(a + b, level) == VisibleAt(a, level) + VisibleAt(b, level)
  {
    if a == [] {
      assert a + b == b;
    } else {
      var head := if a[0].born <= level then [(a[0].key, ValueAt(a[0], level))] else [];
      assert (a + b)[0] == a[0] && (a + b)[1..] == a[1..] + b;
      VisibleAppend(a[1..], b, level);
      assert head + (VisibleAt(a[1..], level) + VisibleAt(b, level)) ==
             (head + VisibleAt(a[1..], level)) + VisibleAt(b, level);
    }
  }

  lemma {:induction false} VisibleAfterPop<K, V>(cells: seq<Cell<K, V>>, top: nat, level: nat)
    requires level < top
    requires forall i :: 0 <= i < |cells| ==> WellSaved(cells[i], top)
    ensures VisibleAt(PopCells(cells, top), level) == VisibleAt(cells, level)
  {
    if cells != [] {
      PopCellRemovesAtBirth(cells[0], top);
      VisibleAfterPop(cells[1..], top, level);
      match PopCell(cells[0], top) {
        case None =>
          assert PopCells(cells, top) == PopCells(cells[1..], top);
        case Some(p) =>
          assert ([p] + PopCells(cells[1..], top))[1..] == PopCells(cells[1..], top);
      }
    }
  }

  /** Popping drops the top of the stack and restores every lower level. */
  lemma PopRefines<K, V>(s: State<K, V>)
    requires Inv(s) && s.top > 0
    ensures Stack(PopState(s)) == Stack(s)[..s.top]
  {
    InvAt(s);
    forall j | 0 <= j < s.top ensures VisibleAt(PopCells(s.cells, s.top), j) == VisibleAt(s.cells, j) {
      VisibleAfterPop(s.cells, s.top, j);
    }
  }

  lemma {:induction false} VisibleAboveTop<K, V>(cells: seq<Cell<K, V>>, top: nat)
    requires forall i :: 0 <= i < |cells| ==> WellSaved(cells[i], top)
    ensures VisibleAt(cells, top + 1) == VisibleAt(cells, top)
  {
    if cells != [] { VisibleAboveTop(cells[1..], top); }
  }

  lemma PushRefines<K, V>(s: State<K, V>)
    requires Inv(s)
    ensures Stack(PushState(s)) == Stack(s) + [Stack(s)[s.top]]
  {
    InvAt(s);
    VisibleAboveTop(s.cells, s.top);
  }

  lemma SetCellBelow<K, V>(c: Cell<K, V>, v: V, top: nat, level: nat)
    requires WellSaved(c, top) && level < top && c.born <= level
    ensures ValueAt(SetCell(c, v, top), level) == ValueAt(c, level)
  {
    if c.level < top {
      assert Undo(SetCell(c, v, top)) == c;
    } else {
      assert Undo(SetCell(c, v, top)) == Undo(c);
    }
  }

  /** Writing an element is seen at the top level alone. */
  lemma {:induction false} VisibleAfterSet<K, V>(cells: seq<Cell<K, V>>, k: K, v: V, top: nat, level: nat)
    requires level <= top && (level == top ==> HasKey(cells, k))
    requires forall i :: 0 <= i < |cells| ==> WellSaved(cells[i], top)
    ensures VisibleAt(SetKey(cells, k, v, top), level) ==
            if level == top then Put(VisibleAt(cells, level), k, v) else VisibleAt(cells, level)
  {
    if cells != [] {
      var c, r := cells[0], SetKey(cells, k, v, top);
      if c.key == k {
        assert r[1..] == cells[1..];
        if level == top {
          assert VisibleAt(cells, level)[1..] == VisibleAt(cells[1..], level);
        } else if c.born <= level {
          SetCellBelow(c, v, top, level);
        }
      } else {
        assert r[1..] == SetKey(cells[1..], k, v, top);
        if level == top { assert HasKey(cells[1..], k); }
        VisibleAfterSet(cells[1..], k, v, top, level);
        if level == top {
          assert VisibleAt(cells, level)[1..] == VisibleAt(cells[1..], level);
        }
      }
    }
  }

  lemma {:induction false} PutAbsent<K, V>(es: Entries<K, V>, k: K, v: V)
    requires !HasEntry(es, k)
    ensures Put(es, k, v) == es + [(k, v)]
  {
    if es != [] {
      assert es[0].0 != k;
      PutAbsent(es[1..], k, v);
    }
  }

  /** At the top level every element is visible. */
  lemma {:induction false} VisibleAtTop<K, V>(cells: seq<Cell<K, V>>, top: nat)
    requires forall i :: 0 <= i < |cells| ==> WellSaved(cells[i], top)
    ensures |VisibleAt(cells, top)| == |cells|
    ensures forall i :: 0 <= i < |cells| ==> VisibleAt(cells, top)[i] == (cells[i].key, cells[i].data)
  {
    if cells != [] {
      ValueAtTop(cells[0], top);
      VisibleAtTop(cells[1..], top);
    }
  }

  lemma ValueAtTop<K, V>(c: Cell<K, V>, top: nat)
    requires WellSaved(c, top)
    ensures c.born <= top && ValueAt(c, top) == c.data
  {
  }

  lemma TopHasKey<K, V>(cells: seq<Cell<K, V>>, k: K, top: nat)
    requires forall i :: 0 <= i < |cells| ==> WellSaved(cells[i], top)
    ensures HasEntry(VisibleAt(cells, top), k) <==> HasKey(cells, k)
  {
    VisibleAtTop(cells, top);
    if HasKey(cells, k) {
      var i :| 0 <= i < |cells| && cells[i].key == k;
      assert VisibleAt(cells, top)[i].0 == k;
    }
  }

  lemma AddRefines<K, V>(s: State<K, V>, k: K, v: V)
    requires Inv(s) && !HasKey(s.cells, k)
    ensures Stack(s.(cells := s.cells + [NewCell(k, v, s.top)])) ==
            Stack(s)[..s.top] + [Put(Stack(s)[s.top], k, v)]
  {
    InvAt(s);
    var n := NewCell(k, v, s.top);
    forall j | 0 <= j <= s.top
      ensures VisibleAt(s.cells + [n], j) ==
              VisibleAt(s.cells, j) + if j == s.top then [(k, v)] else []
    {
      VisibleAppend(s.cells, [n], j);
      assert VisibleAt([n][1..], j) == [];
    }
    TopHasKey(s.cells, k, s.top);
    PutAbsent(VisibleAt(s.cells, s.top), k, v);
    var r := Stack(s.(cells := s.cells + [n]));
    assert forall j | 0 <= j < s.top :: r[j] == VisibleAt(s.cells, j) + [] == Stack(s)[j];
  }

  lemma SetRefines<K, V>(s: State<K, V>, k: K, v: V)
    requires Inv(s) && HasKey(s.cells, k)
    ensures Stack(s.(cells := SetKey(s.cells, k, v, s.top))) ==
            Stack(s)[..s.top] + [Put(Stack(s)[s.top], k, v)]
  {
    InvAt(s);
    forall j | 0 <= j <= s.top
      ensures VisibleAt(SetKey(s.cells, k, v, s.top), j) ==
              if j == s.top then Put(VisibleAt(s.cells, j), k, v) else VisibleAt(s.cells, j)
    {
      VisibleAfterSet(s.cells, k, v, s.top, j);
    }
  }

  lemma {:induction false} VisibleOfNothing<K, V>(s: State<K, V>)
    ensures Stack(ClearState(s)) == seq(s.top + 1, _ => [])
  {
    forall j | 0 <= j <= s.top ensures VisibleAt<K, V>([], j) == [] {}
  }

  lemma {:induction false} PutTwice<K, V>(es: Entries<K, V>, k: K, v: V, w: V)
    ensures Put(Put(es, k, v), k, w) == Put(es, k, w)
  {
    if es != [] && es[0].0 != k {
      PutTwice(es[1..], k, v, w);
      assert ([es[0]] + Put(es[1..], k, v))[1..] == Put(es[1..], k, v);
    } else if es != [] {
      assert ([(k, v)] + es[1..])[1..] == es[1..];
    }
  }

  lemma StepRefines<K, V>(s: State<K, V>, op: Op<K, V>, default: V)
    requires Inv(s) && (op.Pop? ==> s.top > 0)
    ensures Stack(Step(s, op, default)) == RefStep(Stack(s), op, default)
  {
    InvAt(s);
    match op {
      case Push => PushRefines(s);
      case Pop => PopRefines(s);
      case Clear => VisibleOfNothing(s);
      case Insert(k, v) =>
        if HasKey(s.cells, k) { SetRefines(s, k, v); } else { AddRefines(s, k, v); }
      case Index(k) =>
        TopHasKey(s.cells, k, s.top);
        if !HasKey(s.cells, k) { AddRefines(s, k, default); }
      case Assign(k, v) =>
        if HasKey(s.cells, k) { SetRefines(s, k, v); }
        else {
          var i := IndexState(s, k, default);
          AddRefines(s, k, default);
          AddKeepsInv(s, k, default);
          assert i.cells[|s.cells|].key == k;
          SetRefines(i, k, v);
          PutTwice(Stack(s)[s.top], k, default, v);
        }
    }
  }

  // ---------------------------------------------------------------------------
  // Each operation keeps the invariant
  // ---------------------------------------------------------------------------

  lemma AddKeepsInv<K, V>(s: State<K, V>, k: K, v: V)
    requires Inv(s) && !HasKey(s.cells, k)
    ensures Inv(s.(cells := s.cells + [NewCell(k, v, s.top)]))
  {
    InvAt(s);
    NewCellWellSaved(k, v, s.top);
  }

  lemma {:induction false} SetKeyShape<K, V>(cells: seq<Cell<K, V>>, k: K, v: V, top: nat)
    ensures |SetKey(cells, k, v, top)| == |cells|
    ensures forall i :: 0 <= i < |cells| ==>
              SetKey(cells, k, v, top)[i] == cells[i] || SetKey(cells, k, v, top)[i] == SetCell(cells[i], v, top)
  {
    if cells != [] { SetKeyShape(cells[1..], k, v, top); }
  }

  lemma {:induction false} SetKeyAt<K, V>(cells: seq<Cell<K, V>>, i: nat, v: V, top: nat)
    requires i < |cells| && forall a, b :: 0 <= a < b < |cells| ==> cells[a].key != cells[b].key
    ensures SetKey(cells, cells[i].key, v, top) == cells[i := SetCell(cells[i], v, top)]
  {
    if i > 0 { SetKeyAt(cells[1..], i - 1, v, top); }
  }

  /** How many elements were inserted below level `top`. */
  function Older<K, V>(cells: seq<Cell<K, V>>, top: nat): nat {
    if cells == [] then 0 else (if cells[0].born < top then 1 else 0) + Older(cells[1..], top)
  }

  /** In a list whose insertion levels never decrease the older elements come first. */
  lemma {:induction false} OlderIsPrefix<K, V>(cells: seq<Cell<K, V>>, top: nat)
    requires forall i, j :: 0 <= i < j < |cells| ==> cells[i].born <= cells[j].born
    ensures Older(cells, top) <= |cells|
    ensures forall i :: 0 <= i < |cells| ==> (cells[i].born < top <==> i < Older(cells, top))
  {
    if cells != [] {
      OlderIsPrefix(cells[1..], top);
      if cells[0].born >= top && |cells| > 1 {
        assert !(cells[1..][0].born < top);
      }
      forall i | 0 < i < |cells| ensures cells[i].born < top <==> i < Older(cells, top) {
        assert cells[1..][i - 1] == cells[i];
      }
    }
  }

  /** A pop removes exactly the elements inserted in the popped scope, a suffix of the
      list, and restores the others where they are. */
  lemma {:induction false} PopCellsShape<K, V>(cells: seq<Cell<K, V>>, top: nat)
    requires top > 0
    requires forall i :: 0 <= i < |cells| ==> WellSaved(cells[i], top)
    requires forall i, j :: 0 <= i < j < |cells| ==> cells[i].born <= cells[j].born
    ensures |PopCells(cells, top)| == Older(cells, top) <= |cells|
    ensures forall i :: 0 <= i < Older(cells, top) ==> PopCell(cells[i], top) == Some(PopCells(cells, top)[i])
  {
    if cells != [] {
      PopCellRemovesAtBirth(cells[0], top);
      PopCellsShape(cells[1..], top);
      OlderIsPrefix(cells, top);
    }
  }

  /** Replacing elements by well-formed ones of the same keys and births, and cutting
      off a suffix, keeps the order of keys and births. */
  lemma SameShapeKeepsInv<K, V>(cells: seq<Cell<K, V>>, r: seq<Cell<K, V>>, top: nat)
    requires |r| <= |cells|
    requires forall i :: 0 <= i < |r| ==> r[i].key == cells[i].key && r[i].born == cells[i].born
    requires forall i :: 0 <= i < |r| ==> WellSaved(r[i], top)
    requires forall i, j :: 0 <= i < j < |cells| ==> cells[i].key != cells[j].key
    requires forall i, j :: 0 <= i < j < |cells| ==> cells[i].born <= cells[j].born
    ensures Inv(State(top, r))
  {
  }

  lemma PopKeepsInv<K, V>(s: State<K, V>)
    requires Inv(s) && s.top > 0
    ensures Inv(PopState(s))
  {
    InvAt(s);
    var r := PopCells(s.cells, s.top);
    PopCellsShape(s.cells, s.top);
    forall i | 0 <= i < |r|
      ensures WellSaved(r[i], s.top - 1) && r[i].key == s.cells[i].key && r[i].born == s.cells[i].born
    {
      PopCellRemovesAtBirth(s.cells[i], s.top);
      assert PopCell(s.cells[i], s.top) == Some(r[i]);
    }
    SameShapeKeepsInv(s.cells, r, s.top - 1);
  }

  lemma SetKeepsInv<K, V>(s: State<K, V>, k: K, v: V)
    requires Inv(s)
    ensures Inv(s.(cells := SetKey(s.cells, k, v, s.top)))
  {
    InvAt(s);
    var r := SetKey(s.cells, k, v, s.top);
    SetKeyShape(s.cells, k, v, s.top);
    forall i | 0 <= i < |r|
      ensures WellSaved(r[i], s.top) && r[i].key == s.cells[i].key && r[i].born == s.cells[i].born
    {
      SetCellKeepsChain(s.cells[i], v, s.top);
    }
    SameShapeKeepsInv(s.cells, r, s.top);
  }

  lemma StepKeepsInv<K, V>(s: State<K, V>, op: Op<K, V>, default: V)
    requires Inv(s) && (op.Pop? ==> s.top > 0)
    ensures Inv(Step(s, op, default))
  {
    InvAt(s);
    match op {
      case Push => PushKeepsInv(s);
      case Clear =>
      case Pop => PopKeepsInv(s);
      case Insert(k, v) =>
        if HasKey(s.cells, k) { SetKeepsInv(s, k, v); } else { AddKeepsInv(s, k, v); }
      case Index(k) =>
        if !HasKey(s.cells, k) { AddKeepsInv(s, k, default); }
      case Assign(k, v) =>
        if !HasKey(s.cells, k) { AddKeepsInv(s, k, default); }
        SetKeepsInv(IndexState(s, k, default), k, v);
    }
  }

  lemma PushKeepsInv<K, V>(s: State<K, V>)
    requires Inv(s)
    ensures Inv(PushState(s))
  {
    InvAt(s);
    forall i | 0 <= i < |s.cells| ensures WellSaved(s.cells[i], s.top + 1) {}
  }

  // ---------------------------------------------------------------------------
  // Runs
  // ---------------------------------------------------------------------------

  /** Every run of the implementation shows, at every level, exactly the reference. */
  lemma {:induction false} RunRefines<K, V>(s: State<K, V>, ops: seq<Op<K, V>>, default: V)
    requires Inv(s) && Legal(ops, s.top)
    ensures Inv(Run(s, ops, default))
    ensures Stack(Run(s, ops, default)) == RefRun(Stack(s), ops, default)
    decreases |ops|
  {
    InvAt(s);
    if ops != [] {
      StepKeepsInv(s, ops[0], default);
      StepRefines(s, ops[0], default);
      RunRefines(Step(s, ops[0], default), ops[1..], default);
    }
  }

  // ---------------------------------------------------------------------------
  // Pop is the exact inverse of everything since the matching push
  // ---------------------------------------------------------------------------

  predicate NoClear<K, V>(ops: seq<Op<K, V>>) {
    forall i :: 0 <= i < |ops| ==> !ops[i].Clear?
  }

  /** `popto`: pop down to the given level. */
  function PopTo<K, V>(s: State<K, V>, level: nat): State<K, V>
    requires level <= s.top
    decreases s.top
  {
    if s.top == level then s else PopTo(PopState(s), level)
  }

  lemma {:induction false} PopAfterPush<K, V>(cells: seq<Cell<K, V>>, top: nat)
    requires forall i :: 0 <= i < |cells| ==> WellSaved(cells[i], top)
    ensures PopCells(cells, top + 1) == cells
  {
    if cells != [] { PopAfterPush(cells[1..], top); }
  }

  lemma {:induction false} PopAfterSet<K, V>(cells: seq<Cell<K, V>>, k: K, v: V, top: nat)
    requires top > 0 && forall i :: 0 <= i < |cells| ==> WellSaved(cells[i], top)
    ensures PopCells(SetKey(cells, k, v, top), top) == PopCells(cells, top)
  {
    if cells != [] {
      var c, r := cells[0], SetKey(cells, k, v, top);
      if c.key == k {
        assert r[1..] == cells[1..];
        if c.level < top { assert Undo(SetCell(c, v, top)) == c; }
      } else {
        assert r[1..] == SetKey(cells[1..], k, v, top);
        PopAfterSet(cells[1..], k, v, top);
      }
    }
  }

  lemma {:induction false} PopAfterAdd<K, V>(cells: seq<Cell<K, V>>, k: K, v: V, top: nat)
    requires top > 0
    ensures PopCells(cells + [NewCell(k, v, top)], top) == PopCells(cells, top)
  {
    var n := NewCell(k, v, top);
    if cells == [] {
      assert PopCells([n], top) == PopCells([n][1..], top);
    } else {
      assert (cells + [n])[1..] == cells[1..] + [n];
      PopAfterAdd(cells[1..], k, v, top);
    }
  }

  /** Whatever is written or inserted in a scope above level 0 vanishes when it is popped. */
  lemma WritesVanish<K, V>(s: State<K, V>, op: Op<K, V>, default: V)
    requires Inv(s) && s.top > 0 && (op.Insert? || op.Index? || op.Assign?)
    ensures PopState(Step(s, op, default)) == PopState(s)
  {
    InvAt(s);
    match op {
      case Index(k) => PopAfterAdd(s.cells, k, default, s.top);
      case Insert(k, v) =>
        PopAfterAdd(s.cells, k, v, s.top);
        PopAfterSet(s.cells, k, v, s.top);
      case Assign(k, v) =>
        var i := IndexState(s, k, default);
        PopAfterAdd(s.cells, k, default, s.top);
        StepKeepsInv(s, Index(k), default);
        PopAfterSet(i.cells, k, v, s.top);
    }
  }

  /** A step that stays above a level does not change what popping to that level gives. */
  lemma StepAbove<K, V>(s: State<K, V>, op: Op<K, V>, default: V, level: nat)
    requires Inv(s) && level < s.top && !op.Clear? && (op.Pop? ==> level < s.top - 1)
    ensures var t := Step(s, op, default); level < t.top && PopTo(t, level) == PopTo(s, level)
  {
    InvAt(s);
    if op.Push? {
      PopAfterPush(s.cells, s.top);
    } else if !op.Pop? {
      WritesVanish(s, op, default);
    }
  }

  lemma {:induction false} RunAbove<K, V>(s: State<K, V>, ops: seq<Op<K, V>>, default: V, level: nat)
    requires Inv(s) && level < s.top && Legal(ops, s.top - level - 1) && NoClear(ops)
    ensures Legal(ops, s.top)
    ensures level < Run(s, ops, default).top
    ensures PopTo(Run(s, ops, default), level) == PopTo(s, level)
    decreases |ops|
  {
    if ops != [] {
      StepKeepsInv(s, ops[0], default);
      StepAbove(s, ops[0], default, level);
      RunAbove(Step(s, ops[0], default), ops[1..], default, level);
    }
  }

  /** A pop returns the map to the very state it had at the matching push: the same
      elements in the same order with the same data and the same save chains,
      whatever was done in between apart from `clear`. */
  lemma PopUndoesScope<K, V>(s: State<K, V>, mid: seq<Op<K, V>>, default: V)
    requires Inv(s) && Legal(mid, 0) && NoClear(mid)
    ensures Legal(mid, s.top + 1)
    ensures var end := Run(PushState(s), mid, default);
            end.top == s.top + 1 ==> PopState(end) == s
  {
    InvAt(s);
    PushKeepsInv(s);
    RunAbove(PushState(s), mid, default, s.top);
    PopAfterPush(s.cells, s.top);
    var end := Run(PushState(s), mid, default);
    if end.top == s.top + 1 {
      OneDown(end);
      OneDown(PushState(s));
    }
  }

  lemma OneDown<K, V>(s: State<K, V>)
    requires s.top > 0
    ensures PopTo(s, s.top - 1) == PopState(s)
  {
    assert PopTo(PopState(s), s.top - 1) == PopState(s);
  }

  /** Popping several scopes at once cuts the stack back to the given level. */
  lemma {:induction false} PopToRefines<K, V>(s: State<K, V>, level: nat)
    requires Inv(s) && level <= s.top
    ensures Inv(PopTo(s, level)) && Stack(PopTo(s, level)) == Stack(s)[..level + 1]
    decreases s.top
  {
    InvAt(s);
    if level < s.top {
      PopKeepsInv(s);
      PopRefines(s);
      PopToRefines(PopState(s), level);
    }
  }

  // ---------------------------------------------------------------------------
  // The order of the list
  // ---------------------------------------------------------------------------

  function EntryKeys<K, V>(es: Entries<K, V>): seq<K> {
    seq(|es|, i requires 0 <= i < |es| => es[i].0)
  }

  /** What a level shows is a prefix of the list: the elements inserted up to it, in
      order of insertion, so each level's keys are a prefix of the next level's. */
  lemma {:induction false} LevelIsPrefix<K, V>(cells: seq<Cell<K, V>>, level: nat)
    requires forall i, j :: 0 <= i < j < |cells| ==> cells[i].born <= cells[j].born
    ensures Older(cells, level + 1) <= |cells|
    ensures EntryKeys(VisibleAt(cells, level)) == CellKeys(cells)[..Older(cells, level + 1)]
  {
    if cells != [] {
      var c, n := cells[0], Older(cells, level + 1);
      LevelIsPrefix(cells[1..], level);
      OlderIsPrefix(cells, level + 1);
      if c.born <= level {
        assert CellKeys(cells)[..n] == [c.key] + CellKeys(cells[1..])[..n - 1];
        assert EntryKeys(VisibleAt(cells, level)) == [c.key] + EntryKeys(VisibleAt(cells[1..], level));
      } else {
        assert n == 0;
        assert VisibleAt(cells, level) == VisibleAt(cells[1..], level);
      }
    }
  }

  // ---------------------------------------------------------------------------
  // The reference, entry by entry
  // ---------------------------------------------------------------------------

  /** With distinct keys, `Put` changes the entry of the key in place, or appends it. */
  lemma {:induction false} PutIs<K, V>(es: Entries<K, V>, k: K, v: V)
    requires forall i, j :: 0 <= i < j < |es| ==> es[i].0 != es[j].0
    ensures !HasEntry(es, k) ==> Put(es, k, v) == es + [(k, v)]
    ensures HasEntry(es, k) ==> |Put(es, k, v)| == |es|
    ensures HasEntry(es, k) ==>
              forall i :: 0 <= i < |es| ==> Put(es, k, v)[i] == if es[i].0 == k then (k, v) else es[i]
  {
    if !HasEntry(es, k) {
      PutAbsent(es, k, v);
    } else if es[0].0 != k {
      var i :| 0 <= i < |es| && es[i].0 == k;
      assert es[1..][i - 1].0 == k;
      PutIs(es[1..], k, v);
      assert forall j :: 0 < j < |es| ==> es[j] == es[1..][j - 1];
    }
  }

  /** The operations of the reference, with distinct keys on top: all but push and pop keep the
      lower maps, a new key is the last, and a key that is there keeps its place. */
  lemma RefStepIs<K, V>(stack: seq<Entries<K, V>>, op: Op<K, V>, default: V)
    requires stack != [] && var top := stack[|stack| - 1]; forall i, j :: 0 <= i < j < |top| ==> top[i].0 != top[j].0
    ensures var n := |stack| - 1;
            var top, next := stack[n], RefStep(stack, op, default);
            match op {
              case Push => next == stack + [top]
              case Pop => next == stack[..n]
              case Clear => |next| == |stack| && forall j :: 0 <= j <= n ==> next[j] == []
              case Index(k) =>
                |next| == |stack| && next[..n] == stack[..n]
                && next[n] == if HasEntry(top, k) then top else top + [(k, default)]
              case _ =>
                && |next| == |stack| && next[..n] == stack[..n]
                && (!HasEntry(top, op.k) ==> next[n] == top + [(op.k, op.v)])
                && (HasEntry(top, op.k) ==>
                      |next[n]| == |top|
                      && forall i :: 0 <= i < |top| ==> next[n][i] == if top[i].0 == op.k then (op.k, op.v) else top[i])
            }
  {
    if op.Insert? || op.Assign? { PutIs(stack[|stack| - 1], op.k, op.v); }
    if op.Index? { PutIs(stack[|stack| - 1], op.k, default); }
  }
}
