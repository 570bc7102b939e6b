/** The state of a context-dependent hash map as a value: the elements in list
    order, each with its chain of saved copies, and the level of the top scope.
    The functions below say what every operation does to that value; the class
    `CDHashMap` is proved to compute them on the heap. */
module SaveChain {
  import opened Wrappers

  /** A saved copy of an element. `mapped` is false for the copy whose map
      pointer is null, which makes a later restore remove the element. */
  datatype Saved<V> = Saved(level: nat, mapped: bool, data: V)

  /** One element. `level` is the level of the scope the current version belongs
      to, `saves` its older versions, oldest first, and `born` the level of the
      scope in which the key was inserted (a history variable). */
  datatype Cell<K, V> = Cell(key: K, data: V, level: nat, born: nat, saves: seq<Saved<V>>)

  datatype State<K, V> = State(top: nat, cells: seq<Cell<K, V>>)

  // ---------------------------------------------------------------------------
  // The versions of one element
  // ---------------------------------------------------------------------------

  predicate HasLevel<V>(saves: seq<Saved<V>>, level: nat) {
    exists i :: 0 <= i < |saves| && saves[i].level == level
  }

  lemma HasLevelSplit<V>(saves: seq<Saved<V>>, level: nat)
    requires saves != []
    ensures HasLevel(saves, level) <==>
            saves[|saves| - 1].level == level || HasLevel(saves[..|saves| - 1], level)
  {
    if i :| 0 <= i < |saves| - 1 && saves[i].level == level {
      assert saves[..|saves| - 1][i].level == level;
    }
  }

  predicate HasVersion<K, V>(c: Cell<K, V>, level: nat) {
    c.level == level || HasLevel(c.saves, level)
  }

  /** At most one version per scope, in ascending order and reaching down to level 0.
      The oldest copy, and no other, lacks the map pointer, and it does so exactly
      when the key was inserted above level 0; all later versions are not older
      than the insertion. */
  ghost predicate WellSaved<K, V>(c: Cell<K, V>, top: nat) {
    && c.born <= c.level <= top
    && (forall i, j :: 0 <= i < j < |c.saves| ==> c.saves[i].level < c.saves[j].level)
    && (forall i :: 0 <= i < |c.saves| ==> c.saves[i].level < c.level)
    && (forall i :: 0 <= i < |c.saves| ==> (c.saves[i].mapped <==> i > 0 || c.born == 0))
    && (forall i :: 0 < i < |c.saves| ==> c.born <= c.saves[i].level)
    && (if c.saves == [] then c.level == 0 else c.saves[0].level == 0)
    && HasVersion(c, c.born)
  }

  /** The element one version back. */
  function Undo<K, V>(c: Cell<K, V>): Cell<K, V>
    requires c.saves != []
  {
    var last := c.saves[|c.saves| - 1];
    c.(data := last.data, level := last.level, saves := c.saves[..|c.saves| - 1])
  }

  /** Whether restoring the element takes it out of the map. */
  predicate Removes<K, V>(c: Cell<K, V>) {
    c.saves != [] && !c.saves[|c.saves| - 1].mapped
  }

  /** The element after a restore: data comes back only from a copy that has a map pointer. */
  function Restored<K, V>(c: Cell<K, V>): Cell<K, V>
  {
    if c.saves == [] then c else if Removes(c) then Undo(c).(data := c.data) else Undo(c)
  }

  /** Restoring goes back to the latest record; the data stay when the record has no map pointer. */
  lemma TopRecord<K, V>(c: Cell<K, V>)
    requires c.saves != []
    ensures var n := |c.saves| - 1;
            var p, bare := c.saves[n], c.(level := c.saves[n].level, saves := c.saves[..n]);
            && (Removes(c) <==> !p.mapped)
            && Restored(c) == bare.(data := if p.mapped then p.data else c.data)
            && Undo(c).(data := c.data) == bare
  {
  }

  /** The data the element holds when `level` is the top scope. */
  function ValueAt<K, V>(c: Cell<K, V>, level: nat): V
    decreases |c.saves|
  {
    if c.level <= level || c.saves == [] then c.data else ValueAt(Undo(c), level)
  }

  /** `makeCurrent`: save a copy unless the element already belongs to the top scope. */
  function MakeCurrent<K, V>(c: Cell<K, V>, top: nat, mapped: bool): Cell<K, V> {
    if c.level == top then c
    else c.(level := top, saves := c.saves + [Saved(c.level, mapped, c.data)])
  }

  function SetCell<K, V>(c: Cell<K, V>, v: V, top: nat): Cell<K, V> {
    MakeCurrent(c, top, true).(data := v)
  }

  /** The inserting constructor: a bottom-scope element without a map pointer, made current. */
  function NewCell<K, V>(k: K, v: V, top: nat): Cell<K, V> {
    MakeCurrent(Cell(k, v, 0, top, []), top, false)
  }

  /** What the pop of scope `top` leaves of an element; `None` when it removes it. */
  function PopCell<K, V>(c: Cell<K, V>, top: nat): Option<Cell<K, V>> {
    if c.level != top || c.saves == [] then Some(c)
    else if c.saves[|c.saves| - 1].mapped then Some(Undo(c))
    else None
  }

  // ---------------------------------------------------------------------------
  // The operations on the whole map
  // ---------------------------------------------------------------------------

  function PopCells<K, V>(cells: seq<Cell<K, V>>, top: nat): seq<Cell<K, V>> {
    if cells == [] then []
    else (match PopCell(cells[0], top) case None => [] case Some(c) => [c]) + PopCells(cells[1..], top)
  }

  predicate HasKey<K(==), V>(cells: seq<Cell<K, V>>, k: K) {
    exists i :: 0 <= i < |cells| && cells[i].key == k
  }

  /** `set` on the element stored under `k`. */
  function SetKey<K(==), V>(cells: seq<Cell<K, V>>, k: K, v: V, top: nat): seq<Cell<K, V>> {
    if cells == [] then []
    else if cells[0].key == k then [SetCell(cells[0], v, top)] + cells[1..]
    else [cells[0]] + SetKey(cells[1..], k, v, top)
  }

  function PushState<K, V>(s: State<K, V>): State<K, V> {
    s.(top := s.top + 1)
  }

  function PopState<K, V>(s: State<K, V>): State<K, V>
    requires s.top > 0
  {
    State(s.top - 1, PopCells(s.cells, s.top))
  }

  function InsertState<K(==), V>(s: State<K, V>, k: K, v: V): State<K, V> {
    if HasKey(s.cells, k) then s.(cells := SetKey(s.cells, k, v, s.top))
    else s.(cells := s.cells + [NewCell(k, v, s.top)])
  }

  /** `operator[]`: a missing key is inserted with the default data. */
  function IndexState<K(==), V>(s: State<K, V>, k: K, default: V): State<K, V> {
    if HasKey(s.cells, k) then s else s.(cells := s.cells + [NewCell(k, default, s.top)])
  }

  function AssignState<K(==), V>(s: State<K, V>, k: K, v: V, default: V): State<K, V> {
    var i := IndexState(s, k, default);
    i.(cells := SetKey(i.cells, k, v, i.top))
  }

  function ClearState<K, V>(s: State<K, V>): State<K, V> {
    s.(cells := [])
  }

  function CellKeys<K, V>(cells: seq<Cell<K, V>>): seq<K> {
    seq(|cells|, i requires 0 <= i < |cells| => cells[i].key)
  }

  function Births<K, V>(cells: seq<Cell<K, V>>): seq<nat> {
    seq(|cells|, i requires 0 <= i < |cells| => cells[i].born)
  }

  ghost predicate Ascending(s: seq<nat>) {
    forall i, j :: 0 <= i < j < |s| ==> s[i] <= s[j]
  }

  /** What every reachable state keeps: well-formed save chains, distinct keys,
      and insertion levels that never decrease along the list. */
  ghost predicate Inv<K, V>(s: State<K, V>) {
    && (forall c | c in s.cells :: WellSaved(c, s.top))
    && NoDup(CellKeys(s.cells))
    && Ascending(Births(s.cells))
  }

  /** The invariant, position by position. */
  lemma InvAt<K, V>(s: State<K, V>)
    requires Inv(s)
    ensures forall i :: 0 <= i < |s.cells| ==> WellSaved(s.cells[i], s.top)
    ensures forall i, j :: 0 <= i < j < |s.cells| ==> s.cells[i].key != s.cells[j].key
    ensures forall i, j :: 0 <= i < j < |s.cells| ==> s.cells[i].born <= s.cells[j].born
  {
    forall i, j | 0 <= i < j < |s.cells|
      ensures s.cells[i].key != s.cells[j].key && s.cells[i].born <= s.cells[j].born
    {
      assert CellKeys(s.cells)[i] != CellKeys(s.cells)[j];
      assert Births(s.cells)[i] <= Births(s.cells)[j];
    }
  }

  // ---------------------------------------------------------------------------
  // Lemmas about one element
  // ---------------------------------------------------------------------------

  /** Insertion gives a well-formed chain. The constructor sets the data twice, but
      only its first `makeCurrent` saves a copy. */
  lemma NewCellWellSaved<K, V>(k: K, v: V, top: nat)
    ensures WellSaved(NewCell(k, v, top), top)
    ensures SetCell(NewCell(k, v, top), v, top) == NewCell(k, v, top)
    ensures forall j: nat :: HasVersion(NewCell(k, v, top), j) <==> j == 0 || j == top
  {
    if top > 0 { assert NewCell(k, v, top).saves[0].level == 0; }
  }

  /** Writing keeps the chain well formed and gives it a version in the top scope. */
  lemma SetCellKeepsChain<K, V>(c: Cell<K, V>, v: V, top: nat)
    requires WellSaved(c, top)
    ensures WellSaved(SetCell(c, v, top), top)
    ensures forall j: nat :: HasVersion(SetCell(c, v, top), j) <==> HasVersion(c, j) || j == top
  {
    var s := SetCell(c, v, top);
    if c.level != top {
      assert s.saves[..|c.saves|] == c.saves;
      forall j: nat ensures HasVersion(s, j) <==> HasVersion(c, j) || j == top {
        HasLevelSplit(s.saves, j);
      }
    }
  }

  /** The pop that removes an element is the pop of the scope that inserted it, and no
      other; every other pop leaves a well-formed chain without a version in the
      popped scope and with the data the element had below. */
  lemma PopCellRemovesAtBirth<K, V>(c: Cell<K, V>, top: nat)
    requires WellSaved(c, top) && top > 0
    ensures PopCell(c, top).None? <==> c.born == top
    ensures PopCell(c, top).Some? ==>
              var p := PopCell(c, top).value;
              && WellSaved(p, top - 1) && p.key == c.key && p.born == c.born
              && p.data == ValueAt(c, top - 1)
              && (forall j: nat :: HasVersion(p, j) <==> HasVersion(c, j) && j != top)
              && (forall j: nat | j < top :: ValueAt(p, j) == ValueAt(c, j))
  {
    if c.level == top {
      var n := |c.saves|;
      assert c.saves[n - 1].level < top;
      if c.saves[n - 1].mapped {
        UndoWellSaved(c, top);
        UndoVersions(c, top);
      } else {
        assert n == 1;
      }
    }
  }

  /** Back at a version with a map pointer the chain is well formed, and so is the data. */
  lemma UndoWellSaved<K, V>(c: Cell<K, V>, top: nat)
    requires WellSaved(c, top) && c.level == top > 0 && c.saves != [] && c.saves[|c.saves| - 1].mapped
    ensures var p := Undo(c);
            && p.level < top && p.born == c.born && p.data == ValueAt(c, top - 1)
            && WellSaved(p, top - 1) && forall j: nat | j < top :: ValueAt(p, j) == ValueAt(c, j)
  {
    var p, n := Undo(c), |c.saves|;
    assert forall i :: 0 <= i < n - 1 ==> p.saves[i] == c.saves[i];
    UndoVersions(c, top);
    assert c.born < top;
  }

  lemma UndoVersions<K, V>(c: Cell<K, V>, top: nat)
    requires WellSaved(c, top) && c.level == top && c.saves != []
    ensures forall j: nat :: HasVersion(Undo(c), j) <==> HasVersion(c, j) && j != top
  {
    var p, n := Undo(c), |c.saves|;
    forall j: nat ensures HasVersion(p, j) <==> HasVersion(c, j) && j != top {
      HasLevelSplit(c.saves, j);
      assert HasLevel(c.saves, j) ==> j < top;
    }
  }

  lemma NoVersionAbove<K, V>(c: Cell<K, V>, top: nat)
    requires WellSaved(c, top)
    ensures forall j: nat | j > top :: !HasVersion(c, j)
  {
  }

  /** An element inserted in the top scope has one saved copy, the one without a map. */
  lemma BornAtTop<K, V>(c: Cell<K, V>, top: nat)
    requires WellSaved(c, top) && c.born == top > 0
    ensures c.level == top && |c.saves| == 1 && c.saves[0].level == 0 && !c.saves[0].mapped
    ensures forall j: nat :: HasVersion(c, j) <==> j == 0 || j == top
  {
    assert c.saves != [] ==> c.saves[|c.saves| - 1].level < c.level;
  }

  /** Restoring an element of the popped scope does what the pop asks for. */
  lemma RestoredIsPop<K, V>(c: Cell<K, V>, top: nat)
    requires WellSaved(c, top) && top > 0
    ensures c.level == top ==> c.saves != [] && c.saves[|c.saves| - 1].level < top
    ensures c.level == top && Removes(c) <==> c.born == top
    ensures c.born < top ==> PopCell(c, top) == Some(if c.level == top then Restored(c) else c)
  {
    PopCellRemovesAtBirth(c, top);
  }
}
