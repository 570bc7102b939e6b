/** The context-dependent hash map on the heap: scopes with their chains of objects to
    restore, elements with save records and ring pointers, and the table. Every
    method is proved to compute the function of `SaveChain` of the same name. */
module CDHashMaps {
  import opened Wrappers
  import opened SaveChain
  import opened ReferenceStack

  // ---------------------------------------------------------------------------
  // Sequences without repetition
  // ---------------------------------------------------------------------------

  /** `s` without `x`. */
  function Without<T(==)>(s: seq<T>, x: T): (r: seq<T>)
    ensures r == Keep(s, {x})
  {
    if s == [] then [] else (if s[0] == x then [] else [s[0]]) + Without(s[1..], x)
  }

  /** `s` without the members of `dead`, in order. */
  ghost function Keep<T>(s: seq<T>, dead: set<T>): seq<T> {
    if s == [] then [] else (if s[0] in dead then [] else [s[0]]) + Keep(s[1..], dead)
  }

  lemma {:induction false} KeepMembers<T>(s: seq<T>, dead: set<T>)
    ensures forall x | x in Keep(s, dead) :: x in s && x !in dead
    ensures forall x | x in s && x !in dead :: x in Keep(s, dead)
  {
    if s != [] { KeepMembers(s[1..], dead); }
  }

  lemma {:induction false} KeepNone<T>(s: seq<T>, dead: set<T>)
    requires forall i :: 0 <= i < |s| ==> s[i] in dead
    ensures Keep(s, dead) == []
  {
    if s != [] { KeepNone(s[1..], dead); }
  }

  lemma {:induction false} KeepKeep<T>(s: seq<T>, dead: set<T>, more: set<T>)
    ensures Keep(Keep(s, dead), more) == Keep(s, dead + more)
  {
    if s != [] {
      KeepKeep(s[1..], dead, more);
      if s[0] in dead {
        assert Keep(s, dead) == Keep(s[1..], dead);
      } else {
        assert Keep(s, dead)[0] == s[0] && Keep(s, dead)[1..] == Keep(s[1..], dead);
      }
    }
  }

  lemma {:induction false} KeepAll<T>(s: seq<T>)
    ensures Keep(s, {}) == s
  {
    if s != [] { KeepAll(s[1..]); }
  }

  /** Keeping all but one element shifts the later ones down by one. */
  lemma {:induction false} KeepOthers<T>(s: seq<T>, k: nat)
    requires NoDup(s) && k < |s|
    ensures NoDup(Keep(s, {s[k]})) && |Keep(s, {s[k]})| == |s| - 1
    ensures forall i :: 0 <= i < |s| - 1 ==> Keep(s, {s[k]})[i] == s[Skip(i, k)]
  {
    if k > 0 {
      KeepOthers(s[1..], k - 1);
      assert Keep(s, {s[k]}) == [s[0]] + Keep(s[1..], {s[k]});
    } else {
      KeepWithout(s[1..], {}, s[0]);
      KeepAll(s[1..]);
      assert {} + {s[0]} == {s[0]};
    }
  }

  lemma {:induction false} KeepWithout<T>(s: seq<T>, dead: set<T>, x: T)
    requires x !in s
    ensures Keep(s, dead + {x}) == Keep(s, dead)
  {
    if s != [] { KeepWithout(s[1..], dead, x); }
  }

  /** When the dead are the elements from position `n` on, a prefix is kept. */
  lemma {:induction false} KeepPrefix<T>(s: seq<T>, dead: set<T>, n: nat)
    requires n <= |s| && forall i :: 0 <= i < |s| ==> (s[i] in dead <==> i >= n)
    ensures Keep(s, dead) == s[..n]
  {
    if s != [] {
      var m := if n == 0 then 0 else n - 1;
      forall i | 0 <= i < |s[1..]| ensures s[1..][i] in dead <==> i >= m { assert s[1..][i] == s[i + 1]; }
      KeepPrefix(s[1..], dead, m);
      assert n > 0 ==> s[..n] == [s[0]] + s[1..][..m];
    }
  }

  lemma OneMore<T>(s: seq<T>, n: nat)
    requires n < |s|
    ensures s[..n + 1] == s[..n] + [s[n]]
  {
  }

  ghost function Elems<T>(s: seq<T>): set<T> {
    set x | x in s
  }

  /** `chain` lists, in any order, the elements whose current version is in scope `top`. */
  ghost predicate ChainOf<E, K, V>(chain: seq<E>, r: seq<E>, cells: seq<Cell<K, V>>, top: nat)
    requires |cells| == |r|
  {
    && NoDup(chain)
    && (forall k | 0 <= k < |r| :: r[k] in chain <==> cells[k].level == top)
    && (forall i | 0 <= i < |chain| :: chain[i] in r)
  }

  lemma ElemsNext<T>(s: seq<T>, n: nat)
    requires n < |s|
    ensures Elems(s[..n + 1]) == Elems(s[..n]) + {s[n]}
    ensures NoDup(s) ==> s[n] !in Elems(s[..n])
  {
  }

  /** An element of the popped scope has a copy to go back to, and one that the pop
      takes out of the map is back in the bottom scope. */
  predicate Restorable<K, V>(c: Cell<K, V>, top: nat) {
    c.level == top ==>
      && c.saves != []
      && (Removes(c) ==> Restored(c).level == 0 && Restored(c).saves == [])
  }

  lemma {:induction false} DistinctCount<T>(s: seq<T>)
    requires NoDup(s)
    ensures |Elems(s)| == |s|
  {
    if s == [] {
      assert Elems(s) == {};
    } else {
      DistinctCount(s[1..]);
      assert s[0] !in s[1..];
      assert Elems(s) == {s[0]} + Elems(s[1..]);
    }
  }

  /** The chain of scope `j` lists, once each, the elements that have a version in it. */
  ghost predicate ChainMatches<E, K, V>(chain: seq<E>, r: seq<E>, cells: seq<Cell<K, V>>, j: nat)
    requires |cells| == |r|
  {
    && NoDup(chain)
    && (forall i | 0 <= i < |chain| :: chain[i] in r)
    && (forall k | 0 <= k < |r| :: r[k] in chain <==> HasVersion(cells[k], j))
  }

  ghost predicate ChainsMatch<E, K, V>(scopes: seq<seq<E>>, r: seq<E>, cells: seq<Cell<K, V>>)
    requires |cells| == |r|
  {
    forall j: nat | j < |scopes| :: ChainMatches(scopes[j], r, cells, j)
  }

  /** What remains of the ring after a scope's elements have been restored. */
  lemma PoppedRing<E, K, V>(r: seq<E>, cells: seq<Cell<K, V>>, gone: seq<E>, top: nat)
    requires |cells| == |r| && NoDup(r) && top > 0 && Inv(State(top, cells))
    requires forall k | 0 <= k < |r| :: r[k] in gone <==> cells[k].level == top && Removes(cells[k])
    requires forall i | 0 <= i < |gone| :: gone[i] in r
    ensures var n := |PopCells(cells, top)|;
            && n <= |r| && Keep(r, Elems(gone)) == r[..n] && Elems(gone) == Elems(r[n..])
            && (forall k | 0 <= k < |r| :: r[k] in gone <==> n <= k)
            && (forall k | 0 <= k < n ::
                  PopCells(cells, top)[k] == if cells[k].level == top then Restored(cells[k]) else cells[k])
            && (forall k | n <= k < |r| ::
                  cells[k].born == cells[k].level == top
                  && Restored(cells[k]).level == 0 && Restored(cells[k]).saves == [])
  {
    InvAt(State(top, cells));
    OlderIsPrefix(cells, top);
    PopCellsShape(cells, top);
    var n := Older(cells, top);
    forall k | 0 <= k < |r|
      ensures r[k] in gone <==> n <= k
      ensures k < n ==> PopCell(cells[k], top) == Some(if cells[k].level == top then Restored(cells[k]) else cells[k])
      ensures n <= k ==>
                && cells[k].born == cells[k].level == top
                && Restored(cells[k]).level == 0 && Restored(cells[k]).saves == []
    {
      PoppedAt(cells[k], top);
    }
    KeptRing(r, gone, n);
  }

  lemma PoppedAt<K, V>(c: Cell<K, V>, top: nat)
    requires WellSaved(c, top) && top > 0
    ensures c.level == top && Removes(c) <==> c.born == top
    ensures c.born < top ==> PopCell(c, top) == Some(if c.level == top then Restored(c) else c)
    ensures c.born >= top ==>
              c.born == c.level == top && Restored(c).level == 0 && Restored(c).saves == []
  {
    RestoredIsPop(c, top);
    if c.born >= top { BornAtTop(c, top); }
  }

  lemma KeptRing<E>(r: seq<E>, gone: seq<E>, n: nat)
    requires n <= |r| && (forall k | 0 <= k < |r| :: r[k] in gone <==> n <= k)
    requires forall i | 0 <= i < |gone| :: gone[i] in r
    ensures Keep(r, Elems(gone)) == r[..n] && Elems(gone) == Elems(r[n..])
  {
    KeepPrefix(r, Elems(gone), n);
    forall x | x in gone ensures x in r[n..] {
      var k :| 0 <= k < |r| && r[k] == x;
      assert r[n..][k - n] == x;
    }
    forall k | n <= k < |r| ensures r[k] in gone { }
    forall x | x in r[n..] ensures x in gone {
      var k :| 0 <= k < |r[n..]| && r[n..][k] == x;
      assert r[n + k] == x;
    }
  }

  lemma AllRestorable<K, V>(cells: seq<Cell<K, V>>, top: nat)
    requires top > 0 && Inv(State(top, cells))
    ensures forall k | 0 <= k < |cells| :: Restorable(cells[k], top)
  {
    InvAt(State(top, cells));
    forall k | 0 <= k < |cells| ensures Restorable(cells[k], top) {
      RestoredIsPop(cells[k], top);
      if cells[k].born == top { BornAtTop(cells[k], top); }
    }
  }

  /** The chain of the top scope is what its destruction expects; the others still match. */
  lemma ChainsBelow<E, K, V>(scopes: seq<seq<E>>, r: seq<E>, cells: seq<Cell<K, V>>)
    requires |cells| == |r| && |scopes| > 1 && ChainsMatch(scopes, r, cells)
    requires Inv(State(|scopes| - 1, cells))
    ensures ChainsMatch(scopes[..|scopes| - 1], r, cells)
    ensures ChainOf(scopes[|scopes| - 1], r, cells, |scopes| - 1)
  {
    var top := |scopes| - 1;
    InvAt(State(top, cells));
    forall k | 0 <= k < |r| ensures r[k] in scopes[top] <==> cells[k].level == top {
      assert forall i | 0 <= i < |cells[k].saves| :: cells[k].saves[i].level < top;
    }
  }

  lemma KeepOneLess<T>(r: seq<T>, garbage: seq<T>, e: T)
    ensures Keep(r, Elems(garbage + [e])) == Keep(Keep(r, Elems(garbage)), {e})
    ensures garbage + [] == garbage
  {
    KeepKeep(r, Elems(garbage), {e});
    assert Elems(garbage + [e]) == Elems(garbage) + {e};
  }

  /** What is left of a chain when the elements behind a position are deleted. */
  lemma KeptInPrefix<E>(chain: seq<E>, r: seq<E>, n: nat)
    requires n <= |r| && NoDup(r) && NoDup(chain) && forall i | 0 <= i < |chain| :: chain[i] in r
    ensures var after := Keep(chain, Elems(r[n..]));
            && NoDup(after) && (forall i | 0 <= i < |after| :: after[i] in r[..n])
            && forall k | 0 <= k < n :: r[k] in after <==> r[k] in chain
  {
    var gone := Elems(r[n..]);
    KeepMembers(chain, gone);
    KeepNoDup(chain, gone);
    forall k | 0 <= k < |r| ensures r[k] in gone <==> n <= k {
      if n <= k { assert r[n..][k - n] == r[k]; }
    }
    var after := Keep(chain, gone);
    forall i | 0 <= i < |after| ensures after[i] in r[..n] {
      assert after[i] in after;
      var k :| 0 <= k < |r| && r[k] == after[i];
      assert r[..n][k] == after[i];
    }
  }

  /** An element of the list is still in the chain of a lower scope exactly when it
      survives the pop with a version there. */
  lemma ChainAfterPop<E, K, V>(chain: seq<E>, r: seq<E>, cells: seq<Cell<K, V>>, popped: seq<Cell<K, V>>, j: nat)
    requires |popped| <= |cells| == |r| && NoDup(r) && ChainMatches(chain, r, cells, j)
    requires forall k | 0 <= k < |popped| :: HasVersion(popped[k], j) <==> HasVersion(cells[k], j)
    requires j > 0 ==> forall k | |popped| <= k < |r| :: !HasVersion(cells[k], j)
    ensures ChainMatches(if j == 0 then Keep(chain, Elems(r[|popped|..])) else chain, r[..|popped|], popped, j)
  {
    var n := |popped|;
    assert forall k | 0 <= k < n :: r[..n][k] == r[k];
    if j == 0 {
      KeptInPrefix(chain, r, n);
    } else {
      forall i | 0 <= i < |chain| ensures chain[i] in r[..n] {
        var k :| 0 <= k < |r| && r[k] == chain[i];
        assert chain[i] in chain;
        assert r[..n][k] == chain[i];
      }
    }
  }

  lemma {:induction false} KeepNoDup<T>(s: seq<T>, dead: set<T>)
    requires NoDup(s)
    ensures NoDup(Keep(s, dead))
  {
    if s != [] {
      KeepNoDup(s[1..], dead);
      KeepMembers(s[1..], dead);
    }
  }

  /** After a pop the bottom chain has lost the deleted elements, and every chain matches. */
  lemma ChainsAfterPop<E, K, V>(scopes: seq<seq<E>>, r: seq<E>, cells: seq<Cell<K, V>>, top: nat)
    requires |cells| == |r| && NoDup(r) && |scopes| == top > 0
    requires Inv(State(top, cells)) && ChainsMatch(scopes, r, cells)
    ensures var popped := PopCells(cells, top);
            && |popped| <= |r|
            && ChainsMatch(scopes[0 := Keep(scopes[0], Elems(r[|popped|..]))], r[..|popped|], popped)
  {
    InvAt(State(top, cells));
    PopCellsShape(cells, top);
    OlderIsPrefix(cells, top);
    var popped, n := PopCells(cells, top), Older(cells, top);
    var after := scopes[0 := Keep(scopes[0], Elems(r[n..]))];
    forall j: nat | j < top ensures ChainMatches(after[j], r[..n], popped, j) {
      forall k | 0 <= k < n ensures HasVersion(popped[k], j) <==> HasVersion(cells[k], j) {
        PopCellRemovesAtBirth(cells[k], top);
      }
      forall k | n <= k < |r| ensures j > 0 ==> !HasVersion(cells[k], j) {
        BornAtTop(cells[k], top);
      }
      ChainAfterPop(scopes[j], r, cells, popped, j);
    }
  }

  /** The pure part of the destruction of a scope: from what its loops leave, the state
      after the pop. */
  lemma AfterDismantling<E, K, V>(scopes: seq<seq<E>>, r: seq<E>, cells: seq<Cell<K, V>>, gone: seq<E>, top: nat)
    requires |cells| == |r| && NoDup(r) && |scopes| == top > 0
    requires Inv(State(top, cells)) && ChainsMatch(scopes, r, cells)
    requires forall k | 0 <= k < |r| :: r[k] in gone <==> cells[k].level == top && Removes(cells[k])
    requires forall i | 0 <= i < |gone| :: gone[i] in r
    ensures |PopCells(cells, top)| <= |r| && Keep(r, Elems(gone)) == r[..|PopCells(cells, top)|]
    ensures Elems(gone) == Elems(r[|PopCells(cells, top)|..])
    ensures forall k | 0 <= k < |PopCells(cells, top)| ::
              && r[k] !in gone
              && PopCells(cells, top)[k] == if cells[k].level == top then Restored(cells[k]) else cells[k]
    ensures Inv(State(top - 1, PopCells(cells, top)))
    ensures ChainsMatch(scopes[0 := Keep(scopes[0], Elems(gone))], r[..|PopCells(cells, top)|], PopCells(cells, top))
  {
    PoppedRing(r, cells, gone, top);
    PopKeepsInv(State(top, cells));
    ChainsAfterPop(scopes, r, cells, top);
  }

  /** A new element joins the bottom chain and, unless that is the top, the top chain. */
  ghost function JoinedNew<T>(scopes: seq<seq<T>>, e: T): seq<seq<T>>
    requires scopes != []
  {
    var bottom := Joined(scopes, 0, e);
    if |scopes| == 1 then bottom else Joined(bottom, |scopes| - 1, e)
  }

  lemma AddedChains<E, K, V>(scopes: seq<seq<E>>, r: seq<E>, cells: seq<Cell<K, V>>, e: E, k: K, v: V)
    requires |cells| == |r| && scopes != [] && ChainsMatch(scopes, r, cells) && e !in r
    ensures ChainsMatch(JoinedNew(scopes, e), r + [e], cells + [NewCell(k, v, |scopes| - 1)])
  {
    var top := |scopes| - 1;
    var after, cells' := JoinedNew(scopes, e), cells + [NewCell(k, v, top)];
    NewCellWellSaved(k, v, top);
    forall j: nat | j < |scopes| ensures ChainMatches(after[j], r + [e], cells', j) {
      assert ChainMatches(scopes[j], r, cells, j);
      assert after[j] == if j == 0 || j == top then [e] + scopes[j] else scopes[j];
      assert forall i | 0 <= i < |scopes[j]| :: scopes[j][i] != e;
    }
  }

  /** One deletion of `clear`: the element leaves every chain it is still in. */
  lemma Erased<E, K, V>(scopes: seq<seq<E>>, now: seq<seq<E>>, r: seq<E>, cells: seq<Cell<K, V>>, k: nat, done: set<E>)
    requires |cells| == |r| && |now| == |scopes| && ChainsMatch(scopes, r, cells) && k < |r|
    requires scopes != [] && WellSaved(cells[k], |scopes| - 1)
    requires forall j | 0 <= j < |scopes| :: now[j] == Keep(scopes[j], done)
    ensures var c := cells[k];
            && c.level < |now| && (forall i :: 0 <= i < |c.saves| ==> c.saves[i].level < |now|)
            && var after := LeaveAll(now, c.level, c.saves, r[k]);
            && |after| == |now|
            && forall j | 0 <= j < |now| :: after[j] == Keep(scopes[j], done + {r[k]})
  {
    var c := cells[k];
    forall j | 0 <= j < |now|
      ensures |LeaveAll(now, c.level, c.saves, r[k])| == |now|
      ensures LeaveAll(now, c.level, c.saves, r[k])[j] == Keep(scopes[j], done + {r[k]})
    {
      LeaveAllAt(now, c.level, c.saves, r[k], j);
      KeepKeep(scopes[j], done, {r[k]});
      if !HasVersion(c, j) { KeepWithout(scopes[j], done, r[k]); }
    }
  }

  /** Writing under a key changes the element of the key. */
  lemma WrittenCells<K, V>(s: State<K, V>, i: nat, v: V)
    requires Inv(s) && i < |s.cells|
    ensures var written := s.(cells := s.cells[i := SetCell(s.cells[i], v, s.top)]);
            && written == s.(cells := SetKey(s.cells, s.cells[i].key, v, s.top)) && Inv(written)
            && WellSaved(s.cells[i], s.top)
  {
    InvAt(s);
    SetKeyAt(s.cells, i, v, s.top);
    SetKeepsInv(s, s.cells[i].key, v);
  }

  lemma WrittenChains<E, K, V>(scopes: seq<seq<E>>, r: seq<E>, cells: seq<Cell<K, V>>, i: nat, v: V)
    requires |cells| == |r| && NoDup(r) && scopes != [] && ChainsMatch(scopes, r, cells)
    requires i < |r| && WellSaved(cells[i], |scopes| - 1)
    ensures var top := |scopes| - 1;
            ChainsMatch(if cells[i].level == top then scopes else Joined(scopes, top, r[i]), r,
                        cells[i := SetCell(cells[i], v, top)])
  {
    var top := |scopes| - 1;
    var after := if cells[i].level == top then scopes else Joined(scopes, top, r[i]);
    forall j: nat | j < |scopes| ensures ChainMatches(after[j], r, cells[i := SetCell(cells[i], v, top)], j) {
      WrittenChain(scopes[j], r, cells, i, v, top, j);
    }
  }

  lemma WrittenChain<E, K, V>(chain: seq<E>, r: seq<E>, cells: seq<Cell<K, V>>, i: nat, v: V, top: nat, j: nat)
    requires |cells| == |r| && NoDup(r) && ChainMatches(chain, r, cells, j) && j <= top
    requires i < |r| && WellSaved(cells[i], top)
    ensures ChainMatches(if j == top && cells[i].level < top then [r[i]] + chain else chain, r,
                         cells[i := SetCell(cells[i], v, top)], j)
  {
    SetCellKeepsChain(cells[i], v, top);
    if j == top && cells[i].level < top {
      NoVersionYet(cells[i], top);
      ChainWithOne(chain, r, cells, i, SetCell(cells[i], v, top), j);
    } else {
      SameChain(chain, r, cells, i, SetCell(cells[i], v, top), j);
    }
  }

  lemma NoVersionYet<K, V>(c: Cell<K, V>, top: nat)
    requires WellSaved(c, top) && c.level < top
    ensures !HasVersion(c, top)
  {
  }

  /** An element that has got a version there has joined the chain. */
  lemma ChainWithOne<E, K, V>(chain: seq<E>, r: seq<E>, cells: seq<Cell<K, V>>, i: nat, c: Cell<K, V>, j: nat)
    requires |cells| == |r| && NoDup(r) && i < |r| && ChainMatches(chain, r, cells, j)
    requires !HasVersion(cells[i], j) && HasVersion(c, j)
    ensures ChainMatches([r[i]] + chain, r, cells[i := c], j)
  {
    forall k | 0 <= k < |chain| ensures chain[k] != r[i] { assert chain[k] in chain; }
    forall k | 0 <= k < |r| ensures r[k] in [r[i]] + chain <==> k == i || r[k] in chain { }
  }

  lemma SameChain<E, K, V>(chain: seq<E>, r: seq<E>, cells: seq<Cell<K, V>>, i: nat, c: Cell<K, V>, j: nat)
    requires |cells| == |r| && i < |r| && ChainMatches(chain, r, cells, j)
    requires HasVersion(cells[i], j) <==> HasVersion(c, j)
    ensures ChainMatches(chain, r, cells[i := c], j)
  {
  }

  lemma AllKept<E>(scopes: seq<seq<E>>)
    ensures forall j | 0 <= j < |scopes| :: scopes[j] == Keep(scopes[j], {})
  {
    forall j | 0 <= j < |scopes| ensures scopes[j] == Keep(scopes[j], {}) { KeepAll(scopes[j]); }
  }

  lemma AllErased<E, K, V>(scopes: seq<seq<E>>, now: seq<seq<E>>, r: seq<E>, cells: seq<Cell<K, V>>, done: set<E>)
    requires |cells| == |r| && |now| == |scopes| && ChainsMatch(scopes, r, cells)
    requires forall k | 0 <= k < |r| :: r[k] in done
    requires forall j | 0 <= j < |scopes| :: now[j] == Keep(scopes[j], done)
    ensures forall j | 0 <= j < |now| :: now[j] == []
  {
    forall j | 0 <= j < |now| ensures now[j] == [] {
      assert ChainMatches(scopes[j], r, cells, j);
      KeepNone(scopes[j], done);
    }
  }

  /** The scopes after `e` has left the chain of one of them. */
  ghost function Left<T>(scopes: seq<seq<T>>, level: nat, e: T): seq<seq<T>>
    requires level < |scopes|
  {
    scopes[level := Keep(scopes[level], {e})]
  }

  /** ... and of every scope it has a version in, newest version first. */
  ghost function LeaveAll<T, V>(scopes: seq<seq<T>>, level: nat, saves: seq<Saved<V>>, e: T): seq<seq<T>>
    requires level < |scopes| && forall i :: 0 <= i < |saves| ==> saves[i].level < |scopes|
    decreases |saves|
  {
    if saves == [] then Left(scopes, level, e)
    else LeaveAll(Left(scopes, level, e), saves[|saves| - 1].level, saves[..|saves| - 1], e)
  }

  lemma {:induction false} LeaveAllAt<T, V>(scopes: seq<seq<T>>, level: nat, saves: seq<Saved<V>>, e: T, j: nat)
    requires level < |scopes| && forall i :: 0 <= i < |saves| ==> saves[i].level < |scopes|
    requires j < |scopes|
    ensures |LeaveAll(scopes, level, saves, e)| == |scopes|
    ensures LeaveAll(scopes, level, saves, e)[j] ==
            if j == level || HasLevel(saves, j) then Keep(scopes[j], {e})
            else scopes[j]
    decreases |saves|
  {
    if saves != [] {
      var n := |saves| - 1;
      LeaveAllAt(Left(scopes, level, e), saves[n].level, saves[..n], e, j);
      KeepKeep(scopes[level], {e}, {e});
      assert {e} + {e} == {e};
      HasLevelSplit(saves, j);
    }
  }

  // ---------------------------------------------------------------------------
  // Context
  // ---------------------------------------------------------------------------

  /** The scopes after `e` has joined the chain of one of them, at its head. */
  function Joined<T>(scopes: seq<seq<T>>, level: nat, e: T): seq<seq<T>>
    requires level < |scopes|
  {
    scopes[level := [e] + scopes[level]]
  }

  lemma JoinedFirst<T>(before: seq<seq<T>>, after: seq<seq<T>>, level: nat, e: T)
    requires |before| == |after| && level < |before|
    requires after[level] != [] && after[level][0] == e && after[level][1..] == before[level]
    requires forall j | 0 <= j < |after| && j != level :: after[j] == before[j]
    ensures after == Joined(before, level, e)
  {
    assert after[level] == [e] + before[level];
  }

  /** The scopes, bottom first. A scope's chain lists the objects that have a version in
      it; an object that has moved up is represented there by its saved copy, which
      keeps its place. `garbage` is the list of the scope being destroyed. */
  class Context<K(==), V> {
    var scopes: seq<seq<Element<K, V>>>
    var garbage: seq<Element<K, V>>

    constructor ()
      ensures scopes == [[]] && garbage == []
    {
      scopes := [[]];
      garbage := [];
    }

    function Level(): nat
      requires scopes != []
      reads this
    {
      |scopes| - 1
    }

    /** The object becomes the first of the scope's list; the others keep their order. */
    method AddToChain(level: nat, e: Element<K, V>)
      requires level < |scopes|
      modifies this`scopes
      ensures |scopes| == |old(scopes)|
      ensures scopes[level] != [] && scopes[level][0] == e && scopes[level][1..] == old(scopes)[level]
      ensures forall j | 0 <= j < |scopes| && j != level :: scopes[j] == old(scopes)[j]
    {
      scopes := scopes[level := [e] + scopes[level]];
    }

    method LeaveChain(level: nat, e: Element<K, V>)
      requires level < |scopes|
      modifies this`scopes
      ensures scopes == Left(old(scopes), level, e)
    {
      scopes := scopes[level := Without(scopes[level], e)];
    }

    /** Restores one object of the scope being destroyed. */
    method RestoreObject(e: Element<K, V>, ghost m: CDHashMap<K, V>)
      requires m.RingOk() && m.TableOk() && e in m.ring && e.owner == m && e.ctx == this && e.saves != []
      modifies this`garbage, m`table, m`first, m`ring, m.ring`prev, m.ring`next, e`data, e`level, e`saves
      ensures m.RingOk() && m.TableOk()
      ensures m.ring == if Removes(old(e.Cell())) then Keep(old(m.ring), {e}) else old(m.ring)
      ensures garbage == old(garbage) + if Removes(old(e.Cell())) then [e] else []
      ensures e.Cell() == Restored(old(e.Cell()))
    {
      e.RestoreAndContinue();
    }

    /** One step of the destruction of a scope: `r` is the ring before the first step,
        and what earlier steps took out of it is garbage. */
    method RestoreOne(e: Element<K, V>, ghost m: CDHashMap<K, V>, ghost r: seq<Element<K, V>>)
      requires m.RingOk() && m.TableOk() && m.ring == Keep(r, Elems(garbage))
      requires e in r && e !in garbage && e.owner == m && e.ctx == this && e.saves != []
      modifies this`garbage, m`table, m`first, m`ring, r`prev, r`next, e`data, e`level, e`saves
      ensures m.RingOk() && m.TableOk() && m.ring == Keep(r, Elems(garbage))
      ensures garbage == old(garbage) + if Removes(old(e.Cell())) then [e] else []
      ensures e.Cell() == Restored(old(e.Cell()))
    {
      assert e in m.ring && forall i | 0 <= i < |m.ring| :: m.ring[i] in r by { KeepMembers(r, Elems(garbage)); }
      KeepOneLess(r, garbage, e);
      RestoreObject(e, m);
    }

    /** The objects in `done` have been restored; `was` are the values before, and `r` the ring. */
    ghost predicate Restoring(done: set<Element<K, V>>, was: map<Element<K, V>, Cell<K, V>>,
                              m: CDHashMap<K, V>, r: seq<Element<K, V>>)
      reads this, m, m.ring, r, done
    {
      && m.RingOk() && m.TableOk() && m.ring == Keep(r, Elems(garbage))
      && (forall e | e in r :: e in was && e.owner == m && e.ctx == this)
      && (forall e | e in r && e !in done :: e.Cell() == was[e])
      && (forall e | e in done ::
            e in r && e in was && e.Cell() == Restored(was[e]) && (e in garbage <==> Removes(was[e])))
      && (forall e | e in garbage :: e in done)
    }

    method RestoreNext(e: Element<K, V>, ghost done: set<Element<K, V>>,
                       ghost was: map<Element<K, V>, Cell<K, V>>, ghost m: CDHashMap<K, V>,
                       ghost r: seq<Element<K, V>>)
      requires Restoring(done, was, m, r) && e in r && e !in done && was[e].saves != []
      modifies this`garbage, m`table, m`first, m`ring, r`prev, r`next, e`data, e`level, e`saves
      ensures Restoring(done + {e}, was, m, r)
    {
      assert e.Cell() == was[e];
      RestoreOne(e, m, r);
    }

    /** Restores every object of the scope being destroyed. The chain may list the
        objects in any order: the outcome is the same. */
    method RestoreChain(chain: seq<Element<K, V>>, ghost was: map<Element<K, V>, Cell<K, V>>,
                        ghost m: CDHashMap<K, V>, ghost r: seq<Element<K, V>>)
      requires NoDup(chain) && Restoring({}, was, m, r)
      requires forall i | 0 <= i < |chain| :: chain[i] in r && was[chain[i]].saves != []
      modifies this`garbage, m`table, m`first, m`ring, r`prev, r`next, r`data, r`level, r`saves
      ensures Restoring(Elems(chain), was, m, r)
    {
      assert Elems(chain[..0]) == {};
      for n := 0 to |chain|
        invariant Restoring(Elems(chain[..n]), was, m, r)
      {
        ElemsNext(chain, n);
        RestoreNext(chain[n], Elems(chain[..n]), was, m, r);
      }
      assert chain[..|chain|] == chain;
    }

    /** Deletes the elements that the scope being destroyed has put aside. */
    method CollectGarbage()
      requires scopes != []
      requires forall i | 0 <= i < |garbage| ::
                 garbage[i].ctx == this && garbage[i].level == 0 && garbage[i].saves == []
      modifies this`scopes, this`garbage, garbage`data, garbage`level, garbage`saves
      ensures garbage == []
      ensures scopes == old(scopes)[0 := Keep(old(scopes)[0], Elems(old(garbage)))]
    {
      ghost var bottom := scopes[0];
      KeepAll(bottom);
      assert Elems(garbage[..0]) == {};
      for n := 0 to |garbage|
        invariant garbage == old(garbage)
        invariant forall i | 0 <= i < |garbage| :: garbage[i].level == 0 && garbage[i].saves == []
        invariant scopes == old(scopes)[0 := Keep(bottom, Elems(garbage[..n]))]
      {
        KeepKeep(bottom, Elems(garbage[..n]), {garbage[n]});
        assert Elems(garbage[..n + 1]) == Elems(garbage[..n]) + {garbage[n]};
        garbage[n].Destroy();
      }
      assert garbage[..|garbage|] == garbage;
      garbage := [];
    }

    /** The first loop of a scope's destructor; `cells` is the state of the ring's elements
        at the start. */
    method RestoreScope(chain: seq<Element<K, V>>, ghost m: CDHashMap<K, V>,
                        ghost cells: seq<Cell<K, V>>, ghost top: nat)
      requires garbage == [] && m.RingOk() && m.TableOk()
      requires forall i | 0 <= i < |m.ring| :: m.ring[i].owner == m && m.ring[i].ctx == this
      requires |cells| == |m.ring| && forall i | 0 <= i < |cells| :: cells[i] == m.ring[i].Cell()
      requires forall i | 0 <= i < |cells| :: Restorable(cells[i], top)
      requires ChainOf(chain, m.ring, cells, top)
      modifies this`garbage, m`table, m`first, m`ring
      modifies m.ring`prev, m.ring`next, m.ring`data, m.ring`level, m.ring`saves
      ensures m.RingOk() && m.TableOk() && m.ring == Keep(old(m.ring), Elems(garbage))
      ensures forall i | 0 <= i < |garbage| :: garbage[i] in old(m.ring) && garbage[i].ctx == this
      ensures forall i | 0 <= i < |garbage| :: garbage[i].level == 0 && garbage[i].saves == []
      ensures forall k | 0 <= k < |cells| ::
                && old(m.ring)[k].Cell() == (if cells[k].level == top then Restored(cells[k]) else cells[k])
                && (old(m.ring)[k] in garbage <==> cells[k].level == top && Removes(cells[k]))
    {
      ghost var r := m.ring;
      ghost var was := map e | e in r :: e.Cell();
      ChainReady(chain, was, m, cells, top);
      RestoreChain(chain, was, m, r);
      ChainRestored(chain, was, m, r, cells, top);
      GarbageAtBottom(r, cells, top);
    }

    lemma ChainReady(chain: seq<Element<K, V>>, was: map<Element<K, V>, Cell<K, V>>, m: CDHashMap<K, V>,
                     cells: seq<Cell<K, V>>, top: nat)
      requires garbage == [] && m.RingOk() && m.TableOk()
      requires forall i | 0 <= i < |m.ring| :: m.ring[i].owner == m && m.ring[i].ctx == this
      requires |cells| == |m.ring| && forall k | 0 <= k < |m.ring| :: cells[k] == m.ring[k].Cell()
      requires forall e | e in m.ring :: e in was && was[e] == e.Cell()
      requires forall i | 0 <= i < |cells| :: Restorable(cells[i], top)
      requires ChainOf(chain, m.ring, cells, top)
      ensures Restoring({}, was, m, m.ring)
      ensures forall i | 0 <= i < |chain| :: chain[i] in m.ring && was[chain[i]].saves != []
      ensures forall k | 0 <= k < |cells| :: cells[k] == was[m.ring[k]]
    {
      KeepAll(m.ring);
      assert Elems<Element<K, V>>([]) == {};
      forall i | 0 <= i < |chain| ensures was[chain[i]].saves != [] {
        var k :| 0 <= k < |m.ring| && m.ring[k] == chain[i];
        assert m.ring[k] in chain;
      }
    }

    /** The same, by position in the ring. */
    lemma ChainRestored(chain: seq<Element<K, V>>, was: map<Element<K, V>, Cell<K, V>>, m: CDHashMap<K, V>,
                        r: seq<Element<K, V>>, cells: seq<Cell<K, V>>, top: nat)
      requires Restoring(Elems(chain), was, m, r) && |cells| == |r| && ChainOf(chain, r, cells, top)
      requires forall k | 0 <= k < |cells| :: cells[k] == was[r[k]]
      ensures forall i | 0 <= i < |garbage| :: garbage[i] in r && garbage[i].ctx == this
      ensures forall k | 0 <= k < |cells| ::
                && r[k].Cell() == (if cells[k].level == top then Restored(cells[k]) else cells[k])
                && (r[k] in garbage <==> cells[k].level == top && Removes(cells[k]))
    {
      forall i | 0 <= i < |garbage| ensures garbage[i] in r && garbage[i].ctx == this {
        assert garbage[i] in garbage;
      }
      forall k | 0 <= k < |cells|
        ensures r[k].Cell() == if cells[k].level == top then Restored(cells[k]) else cells[k]
        ensures r[k] in garbage <==> cells[k].level == top && Removes(cells[k])
      {
        assert r[k] in r;
        assert r[k] in Elems(chain) <==> r[k] in chain;
      }
    }

    /** Both loops of a scope's destructor; `gone` are the elements they delete. */
    method Dismantle(chain: seq<Element<K, V>>, ghost m: CDHashMap<K, V>, ghost cells: seq<Cell<K, V>>,
                     ghost top: nat) returns (ghost gone: seq<Element<K, V>>)
      requires scopes != [] && garbage == [] && m.RingOk() && m.TableOk()
      requires forall i | 0 <= i < |m.ring| :: m.ring[i].owner == m && m.ring[i].ctx == this
      requires |cells| == |m.ring| && forall i | 0 <= i < |cells| :: cells[i] == m.ring[i].Cell()
      requires forall i | 0 <= i < |cells| :: Restorable(cells[i], top)
      requires ChainOf(chain, m.ring, cells, top)
      modifies this`scopes, this`garbage, m`table, m`first, m`ring
      modifies m.ring`prev, m.ring`next, m.ring`data, m.ring`level, m.ring`saves
      ensures garbage == [] && m.RingOk() && m.TableOk()
      ensures m.ring == Keep(old(m.ring), Elems(gone))
      ensures scopes == old(scopes)[0 := Keep(old(scopes)[0], Elems(gone))]
      ensures forall i | 0 <= i < |gone| :: gone[i] in old(m.ring)
      ensures forall k | 0 <= k < |cells| :: old(m.ring)[k] in gone <==> cells[k].level == top && Removes(cells[k])
      ensures forall k | 0 <= k < |cells| && old(m.ring)[k] !in gone ::
                old(m.ring)[k].Cell() == if cells[k].level == top then Restored(cells[k]) else cells[k]
    {
      RestoreScope(chain, m, cells, top);
      gone := garbage;
      CollectGarbage();
    }

    lemma GarbageAtBottom(r: seq<Element<K, V>>, cells: seq<Cell<K, V>>, top: nat)
      requires |cells| == |r| && forall i | 0 <= i < |cells| :: Restorable(cells[i], top)
      requires forall i | 0 <= i < |garbage| :: garbage[i] in r
      requires forall k | 0 <= k < |cells| && r[k] in garbage ::
                 cells[k].level == top && Removes(cells[k]) && r[k].Cell() == Restored(cells[k])
      ensures forall i | 0 <= i < |garbage| :: garbage[i].level == 0 && garbage[i].saves == []
    {
      forall i | 0 <= i < |garbage| ensures garbage[i].level == 0 && garbage[i].saves == [] {
        assert garbage[i] in garbage;
        var k :| 0 <= k < |r| && r[k] == garbage[i];
      }
    }

    /** What the two loops leave is a valid map with the popped contents. */
    lemma Popped(m: CDHashMap<K, V>, r: seq<Element<K, V>>, popped: seq<Cell<K, V>>)
      requires scopes != [] && m.ctx == this && garbage == [] && m.RingOk() && m.TableOk()
      requires |popped| <= |r| && m.ring == r[..|popped|]
      requires forall i | 0 <= i < |r| :: r[i].owner == m && r[i].ctx == this
      requires forall k | 0 <= k < |popped| :: r[k].Cell() == popped[k]
      requires Inv(State(|scopes| - 1, popped)) && ChainsMatch(scopes, m.ring, popped)
      ensures m.Valid() && m.Contents() == State(|scopes| - 1, popped)
    {
      forall i | 0 <= i < |m.ring| ensures m.ring[i] == r[i] { }
      m.HasContents(State(|scopes| - 1, popped));
    }

    lemma Finish(m: CDHashMap<K, V>, below: seq<seq<Element<K, V>>>, r: seq<Element<K, V>>,
                 cells: seq<Cell<K, V>>, gone: seq<Element<K, V>>)
      requires |below| == |scopes| > 0 && |cells| == |r| && NoDup(r)
      requires Inv(State(|scopes|, cells)) && ChainsMatch(below, r, cells)
      requires m.ctx == this && garbage == [] && m.RingOk() && m.TableOk()
      requires m.ring == Keep(r, Elems(gone)) && scopes == below[0 := Keep(below[0], Elems(gone))]
      requires forall i | 0 <= i < |r| :: r[i].owner == m && r[i].ctx == this
      requires forall i | 0 <= i < |gone| :: gone[i] in r
      requires forall k | 0 <= k < |cells| :: r[k] in gone <==> cells[k].level == |scopes| && Removes(cells[k])
      requires forall k | 0 <= k < |cells| && r[k] !in gone ::
                 r[k].Cell() == if cells[k].level == |scopes| then Restored(cells[k]) else cells[k]
      ensures m.Valid() && m.Contents() == PopState(State(|scopes|, cells))
      ensures m.ring <= r && scopes == below[0 := Keep(below[0], Elems(r[|m.ring|..]))]
    {
      AfterDismantling(below, r, cells, gone, |scopes|);
      var popped := PopCells(cells, |scopes|);
      forall k | 0 <= k < |popped| ensures r[k].Cell() == popped[k] { }
      Popped(m, r, popped);
    }

    /** The destructor of a scope. The chain of objects to restore may be in any order:
        the table, the ring, the data, the save records and the chains of the other
        scopes come out the same. */
    method DestroyScope(chain: seq<Element<K, V>>, ghost m: CDHashMap<K, V>, ghost cells: seq<Cell<K, V>>)
      requires scopes != [] && garbage == [] && m.ctx == this && m.RingOk() && m.TableOk()
      requires forall i | 0 <= i < |m.ring| :: m.ring[i].owner == m && m.ring[i].ctx == this
      requires |cells| == |m.ring| && forall i | 0 <= i < |cells| :: cells[i] == m.ring[i].Cell()
      requires Inv(State(|scopes|, cells)) && ChainsMatch(scopes, m.ring, cells)
      requires ChainOf(chain, m.ring, cells, |scopes|)
      modifies this`scopes, this`garbage, m`table, m`first, m`ring
      modifies m.ring`prev, m.ring`next, m.ring`data, m.ring`level, m.ring`saves
      ensures m.Valid() && m.Contents() == PopState(State(|old(scopes)|, cells))
      ensures m.ring <= old(m.ring)
      ensures scopes == old(scopes)[0 := Keep(old(scopes)[0], Elems(old(m.ring)[|m.ring|..]))]
    {
      ghost var r, top, below := m.ring, |scopes|, scopes;
      AllRestorable(cells, top);
      ghost var gone := Dismantle(chain, m, cells, top);
      assert |scopes| == top;
      Finish(m, below, r, cells, gone);
    }

    method Pop(ghost m: CDHashMap<K, V>)
      requires m.Valid() && m.ctx == this && Level() > 0
      modifies this`scopes, this`garbage, m`table, m`first, m`ring
      modifies m.ring`prev, m.ring`next, m.ring`data, m.ring`level, m.ring`saves
      ensures m.Valid() && m.Contents() == PopState(old(m.Contents()))
      ensures m.ring <= old(m.ring)
    {
      ghost var cells, all := m.Contents().cells, scopes;
      var dying := scopes[|scopes| - 1];
      scopes := scopes[..|scopes| - 1];
      ChainsBelow(all, m.ring, cells);
      DestroyScope(dying, m, cells);
    }

    /** Pops down to a level, if the current one is higher. */
    method PopTo(level: nat, ghost m: CDHashMap<K, V>)
      requires m.Valid() && m.ctx == this
      modifies this`scopes, this`garbage, m`table, m`first, m`ring
      modifies m.ring`prev, m.ring`next, m.ring`data, m.ring`level, m.ring`saves
      ensures m.Valid() && m.ring <= old(m.ring)
      ensures m.Contents() == if level < old(Level()) then ReferenceStack.PopTo(old(m.Contents()), level)
                              else old(m.Contents())
    {
      while level < Level()
        invariant m.Valid() && m.ring <= old(m.ring)
        invariant if level < old(Level())
                  then level <= Level() <= old(Level())
                       && ReferenceStack.PopTo(m.Contents(), level) == ReferenceStack.PopTo(old(m.Contents()), level)
                  else m.Contents() == old(m.Contents())
        decreases Level()
      {
        Pop(m);
      }
    }

    method Push(ghost m: CDHashMap<K, V>)
      requires m.Valid() && m.ctx == this
      modifies this
      ensures m.Valid() && m.Contents() == PushState(old(m.Contents()))
    {
      PushKeepsInv(m.Contents());
      scopes := scopes + [[]];
      assert m.Contents() == PushState(old(m.Contents()));
      forall e | e in m.ring ensures !HasVersion(e.Cell(), |scopes| - 1) {
        var i :| 0 <= i < |m.ring| && m.ring[i] == e;
        NoVersionAbove(m.Contents().cells[i], |scopes| - 2);
      }
    }
  }

  /** Neighbouring positions in a ring of `n` elements. */
  function After(i: nat, n: nat): nat {
    if i + 1 < n then i + 1 else 0
  }

  function Before(i: nat, n: nat): nat {
    if i > 0 then i - 1 else if n > 0 then n - 1 else 0
  }

  /** The position that `i` has before position `k` is taken out. */
  function Skip(i: nat, k: nat): nat {
    if i < k then i else i + 1
  }

  /** Taking out position `k` makes its two neighbours adjacent and moves no others. */
  lemma SkipNeighbours(i: nat, k: nat, n: nat)
    requires i < n - 1 && k < n
    ensures var j := After(Skip(i, k), n);
            Skip(After(i, n - 1), k) == if j == k then After(k, n) else j
    ensures var j := Before(Skip(i, k), n);
            Skip(Before(i, n - 1), k) == if j == k then Before(k, n) else j
  {
  }

  ghost function Head<K, V>(r: seq<Element<K, V>>): Element?<K, V> {
    if r == [] then null else r[0]
  }

  ghost predicate Linked<K, V>(r: seq<Element<K, V>>)
    reads r`prev, r`next
  {
    && NoDup(r)
    && (forall i {:trigger r[i].next} | 0 <= i < |r| :: r[i].next == r[After(i, |r|)])
    && (forall i {:trigger r[i].prev} | 0 <= i < |r| :: r[i].prev == r[Before(i, |r|)])
  }

  /** The first element's predecessor is the last one, and no other element is either of them. */
  lemma RingEnds<K, V>(r: seq<Element<K, V>>)
    requires Linked(r) && r != []
    ensures r[0].prev == r[|r| - 1]
    ensures forall i | 0 <= i < |r| :: (r[i] == r[0] <==> i == 0) && (r[i] == r[|r| - 1] <==> i == |r| - 1)
    ensures forall i {:trigger r[i].next} | 0 <= i < |r| - 1 :: r[i].next == r[i + 1]
    ensures forall i {:trigger r[i].prev} | 0 < i < |r| :: r[i].prev == r[i - 1]
  {
    Neighbours(r, 0);
  }

  lemma Neighbours<K, V>(r: seq<Element<K, V>>, k: nat)
    requires Linked(r) && k < |r|
    ensures r[k].next == r[After(k, |r|)] && r[k].prev == r[Before(k, |r|)]
    ensures forall i | 0 <= i < |r| :: r[i] == r[k].prev <==> i == Before(k, |r|)
    ensures forall i | 0 <= i < |r| :: r[i] == r[k].next <==> i == After(k, |r|)
  {
  }

  /** Each position's neighbours once the pointers at those of position `k` are redirected. */
  ghost predicate Redirected<K, V>(r: seq<Element<K, V>>, k: nat)
    requires k < |r|
    reads r`prev, r`next
  {
    && (forall i {:trigger r[i].next} | 0 <= i < |r| ::
          r[i].next == r[After(if i == Before(k, |r|) then k else i, |r|)])
    && (forall i {:trigger r[i].prev} | 0 <= i < |r| ::
          r[i].prev == r[Before(if i == After(k, |r|) then k else i, |r|)])
  }

  lemma NeighboursKept<K, V>(r: seq<Element<K, V>>, k: nat, i: nat)
    requires k < |r| && i < |r| - 1 && Redirected(r, k)
    ensures r[Skip(i, k)].next == r[Skip(After(i, |r| - 1), k)]
    ensures r[Skip(i, k)].prev == r[Skip(Before(i, |r| - 1), k)]
  {
    SkipNeighbours(i, k, |r|);
  }

  /** Redirecting the two pointers at an element's neighbours leaves a ring of the others. */
  lemma Relinked<K, V>(r: seq<Element<K, V>>, k: nat)
    requires NoDup(r) && k < |r| && Redirected(r, k)
    ensures Linked(Keep(r, {r[k]}))
  {
    KeepOthers(r, k);
    var t, n := Keep(r, {r[k]}), |r| - 1;
    forall i | 0 <= i < n ensures t[i].next == t[After(i, n)] && t[i].prev == t[Before(i, n)] {
      NeighboursKept(r, k, i);
      assert t[i] == r[Skip(i, k)];
      assert t[After(i, n)] == r[Skip(After(i, n), k)] && t[Before(i, n)] == r[Skip(Before(i, n), k)];
    }
  }

  lemma KeptHead<K, V>(r: seq<Element<K, V>>, k: nat)
    requires NoDup(r) && k < |r|
    ensures Head(Keep(r, {r[k]})) == if k > 0 then r[0] else if |r| > 1 then r[1] else null
  {
    KeepOthers(r, k);
  }

  /** Joining at the end, between the last element and the first, extends the ring. */
  lemma Appended<K, V>(r: seq<Element<K, V>>, x: Element<K, V>)
    requires NoDup(r) && x !in r
    requires forall i {:trigger r[i].next} | 0 <= i < |r| :: r[i].next == if i + 1 < |r| then r[i + 1] else x
    requires forall i {:trigger r[i].prev} | 0 <= i < |r| :: r[i].prev == if i > 0 then r[i - 1] else x
    requires x.next == if r == [] then x else r[0]
    requires x.prev == if r == [] then x else r[|r| - 1]
    ensures Linked(r + [x]) && Head(r + [x]) == if r == [] then x else r[0]
  {
  }

  /** The table maps exactly the keys of the ring's elements, each to its element. */
  ghost predicate Indexes<K, V>(table: map<K, Element<K, V>>, r: seq<Element<K, V>>) {
    && (forall k | k in table :: table[k] in r && table[k].key == k)
    && (forall e | e in r :: e.key in table && table[e.key] == e)
  }

  lemma Indexed<K, V>(table: map<K, Element<K, V>>, r: seq<Element<K, V>>, x: Element<K, V>)
    requires Indexes(table, r) && x.key !in table
    ensures Indexes(table[x.key := x], r + [x])
  {
  }

  lemma Unindexed<K, V>(table: map<K, Element<K, V>>, r: seq<Element<K, V>>, x: Element<K, V>)
    requires Indexes(table, r) && x in r
    ensures Indexes(table - {x.key}, Keep(r, {x}))
  {
    KeepMembers(r, {x});
    var t := table - {x.key};
    forall e | e in Keep(r, {x}) ensures e.key in t && t[e.key] == e {
      assert e in r;
    }
  }

  // ---------------------------------------------------------------------------
  // Elements
  // ---------------------------------------------------------------------------

  class Element<K(==), V> {
    const key: K
    const ctx: Context<K, V>
    var data: V
    var owner: CDHashMap?<K, V>
    var prev: Element?<K, V>
    var next: Element?<K, V>
    var level: nat
    var saves: seq<Saved<V>>
    ghost const born: nat

    ghost function Cell(): Cell<K, V>
      reads this`data, this`level, this`saves
    {
      SaveChain.Cell(key, data, level, born, saves)
    }

    /** Creates the element in the bottom scope without a map pointer, makes it current,
        and only then sets the map pointer and links it at the end of the ring. */
    constructor (ctx: Context<K, V>, owner: CDHashMap<K, V>, key: K, data: V)
      requires ctx.scopes != [] && owner.RingOk()
      modifies ctx`scopes, owner`first, owner`ring, owner.ring`prev, owner.ring`next
      ensures this.key == key && this.ctx == ctx && this.owner == owner
      ensures |ctx.scopes| == |old(ctx.scopes)|
      ensures Cell() == NewCell(key, data, ctx.Level())
      ensures owner.RingOk() && owner.ring == old(owner.ring) + [this]
      ensures var bottom := Joined(old(ctx.scopes), 0, this);
              ctx.scopes == if ctx.Level() == 0 then bottom else Joined(bottom, ctx.Level(), this)
      ensures forall j | 0 <= j < |ctx.scopes| ::
                ctx.scopes[j] == (if j == 0 || j == ctx.Level() then [this] else []) + old(ctx.scopes)[j]
    {
      this.key, this.ctx, this.data, this.owner := key, ctx, data, null;
      prev, next, level, saves := null, null, 0, [];
      born := |ctx.scopes| - 1;
      new;
      ghost var before := ctx.scopes;
      ctx.AddToChain(0, this);
      JoinedFirst(before, ctx.scopes, 0, this);
      Set(data);
      this.owner := owner;
      Link();
    }

    /** Joins the ring of the map as its last element. */
    method Link()
      requires owner != null && owner.RingOk() && this !in owner.ring
      modifies this`prev, this`next, owner`first, owner`ring, owner.ring`prev, owner.ring`next
      ensures owner.RingOk() && owner.ring == old(owner.ring) + [this]
    {
      ghost var r := owner.ring;
      if owner.first == null {
        owner.first, next, prev := this, this, this;
      } else {
        JoinEnds(owner.first, r);
      }
      owner.ring := r + [this];
    }

    /** Links the element between the last and the first of a list. */
    method JoinEnds(head: Element<K, V>, ghost r: seq<Element<K, V>>)
      requires Linked(r) && r != [] && head == r[0] && this !in r
      modifies this`prev, this`next, r`prev, r`next
      ensures Linked(r + [this])
    {
      RingEnds(r);
      prev := head.prev;
      next := head;
      prev.next := this;
      next.prev := this;
      Appended(r, this);
    }

    /** The iterator's `++`: null after the last element. */
    function Next(): Element?<K, V>
      requires owner != null
      reads this, owner
    {
      if next == owner.first then null else next
    }

    /** `update`: save a copy, move to the top scope and join its chain. */
    method Update()
      requires ctx.scopes != []
      modifies this`level, this`saves, ctx`scopes
      ensures |ctx.scopes| == |old(ctx.scopes)| && level == ctx.Level()
      ensures saves == old(saves) + [Saved(old(level), owner != null, data)]
      ensures ctx.scopes == Joined(old(ctx.scopes), ctx.Level(), this)
    {
      saves := saves + [Saved(level, owner != null, data)];
      level := ctx.Level();
      ghost var before := ctx.scopes;
      ctx.AddToChain(level, this);
      JoinedFirst(before, ctx.scopes, level, this);
    }

    method Set(v: V)
      requires ctx.scopes != []
      modifies this`data, this`level, this`saves, ctx`scopes
      ensures |ctx.scopes| == |old(ctx.scopes)|
      ensures Cell() == MakeCurrent(old(Cell()), ctx.Level(), owner != null).(data := v)
      ensures ctx.scopes == if old(level) == ctx.Level() then old(ctx.scopes)
                            else Joined(old(ctx.scopes), ctx.Level(), this)
      ensures old(level) != ctx.Level() ==>
                var chain := ctx.scopes[ctx.Level()];
                chain != [] && chain[0] == this && chain[1..] == old(ctx.scopes[ctx.Level()])
    {
      if level != ctx.Level() {
        Update();
      }
      data := v;
    }

    /** Moves the head of the list on when the element, at position `k`, is the first. */
    method LeaveHead(ghost k: nat)
      requires owner != null && owner.RingOk() && k < |owner.ring| && owner.ring[k] == this
      modifies owner`first
      ensures owner.first == if k > 0 then owner.ring[0] else if |owner.ring| > 1 then owner.ring[1] else null
    {
      Neighbours(owner.ring, k);
      if owner.first == this {
        if next == this {
          assert prev == this;
          owner.first := null;
        } else {
          owner.first := next;
        }
      }
    }

    /** Makes the neighbours in the ring point at each other. */
    method JoinNeighbours(ghost r: seq<Element<K, V>>, ghost k: nat)
      requires Linked(r) && k < |r| && r[k] == this
      modifies r`prev, r`next
      ensures Linked(Keep(r, {this}))
    {
      Neighbours(r, k);
      next.prev := prev;
      prev.next := next;
      Relinked(r, k);
    }

    /** Takes the element out of the ring, be it the first, the last or the only one. */
    method Unlink()
      requires owner != null && owner.RingOk() && this in owner.ring
      modifies owner`first, owner`ring, owner.ring`prev, owner.ring`next
      ensures owner.RingOk()
      ensures owner.ring == Keep(old(owner.ring), {this})
    {
      ghost var k :| 0 <= k < |owner.ring| && owner.ring[k] == this;
      KeptHead(owner.ring, k);
      LeaveHead(k);
      JoinNeighbours(owner.ring, k);
      owner.ring := Keep(owner.ring, {this});
    }

    /** Takes the element out of the table and the ring and puts it aside for deletion. */
    method Remove()
      requires owner != null && owner.RingOk() && owner.TableOk() && this in owner.ring
      modifies ctx`garbage, owner`table, owner`first, owner`ring, owner.ring`prev, owner.ring`next
      ensures owner.table == old(owner.table) - {key} && owner.ring == Keep(old(owner.ring), {this})
      ensures ctx.garbage == old(ctx.garbage) + [this]
      ensures owner.RingOk() && owner.TableOk()
    {
      assert key in owner.table && owner.table[key] == this;
      owner.table := owner.table - {key};
      Unindexed(old(owner.table), owner.ring, this);
      Unlink();
      ctx.garbage := ctx.garbage + [this];
    }

    /** Back to the version `p`: the copy without a map pointer takes the element out of
        the table and the ring, every other copy gives the data back. An element
        whose own map pointer is null is being destroyed and stays as it is. */
    method Restore(p: Saved<V>)
      requires owner != null ==> owner.RingOk() && owner.TableOk() && this in owner.ring
      modifies this`data, ctx`garbage
      modifies (if owner == null then {} else {owner})`table
      modifies (if owner == null then {} else {owner})`first
      modifies (if owner == null then {} else {owner})`ring
      modifies (if owner == null then [] else owner.ring)`prev
      modifies (if owner == null then [] else owner.ring)`next
      ensures data == if owner != null && p.mapped then p.data else old(data)
      ensures owner != null && !p.mapped ==>
                && owner.table == old(owner.table) - {key}
                && owner.ring == Keep(old(owner.ring), {this})
                && ctx.garbage == old(ctx.garbage) + [this]
      ensures owner != null && p.mapped ==> owner.table == old(owner.table) && owner.ring == old(owner.ring)
      ensures owner == null || p.mapped ==> ctx.garbage == old(ctx.garbage)
      ensures owner != null ==> owner.RingOk() && owner.TableOk()
    {
      if owner != null {
        if !p.mapped {
          Remove();
        } else {
          data := p.data;
        }
      }
    }

    /** Called by the scope being destroyed: restore, then return to the earlier scope. */
    method RestoreAndContinue()
      requires saves != []
      requires owner != null ==> owner.RingOk() && owner.TableOk() && this in owner.ring
      modifies this`data, this`level, this`saves, ctx`garbage
      modifies (if owner == null then {} else {owner})`table
      modifies (if owner == null then {} else {owner})`first
      modifies (if owner == null then {} else {owner})`ring
      modifies (if owner == null then [] else owner.ring)`prev
      modifies (if owner == null then [] else owner.ring)`next
      ensures Cell() == if owner == null then Undo(old(Cell())).(data := old(data)) else Restored(old(Cell()))
      ensures ctx.garbage == old(ctx.garbage) + if owner != null && Removes(old(Cell())) then [this] else []
      ensures owner != null ==>
                owner.ring == if Removes(old(Cell())) then Keep(old(owner.ring), {this}) else old(owner.ring)
      ensures owner != null ==> owner.RingOk() && owner.TableOk()
    {
      var p := saves[|saves| - 1];
      TopRecord(Cell());
      Restore(p);
      level := p.level;
      saves := saves[..|saves| - 1];
    }

    /** Called when the element is deleted: leaves every scope it has a version in. */
    method Destroy()
      requires level < |ctx.scopes| && forall i :: 0 <= i < |saves| ==> saves[i].level < |ctx.scopes|
      requires owner == null || saves == []
      modifies this`data, this`level, this`saves, ctx`scopes, ctx`garbage
      ensures ctx.garbage == old(ctx.garbage)
      ensures old(saves) == [] ==> level == old(level) && saves == []
      ensures ctx.scopes == LeaveAll(old(ctx.scopes), old(level), old(saves), this)
    {
      ctx.LeaveChain(level, this);
      while saves != []
        invariant level < |ctx.scopes| && forall i :: 0 <= i < |saves| ==> saves[i].level < |ctx.scopes|
        invariant owner == null || saves == []
        invariant ctx.garbage == old(ctx.garbage)
        invariant old(saves) == [] ==> level == old(level) && saves == []
        invariant LeaveAll(old(ctx.scopes), old(level), old(saves), this) ==
                  if saves == [] then ctx.scopes
                  else LeaveAll(ctx.scopes, saves[|saves| - 1].level, saves[..|saves| - 1], this)
        decreases |saves|
      {
        RestoreAndContinue();
        ctx.LeaveChain(level, this);
      }
    }
  }

  class CDHashMap<K(==), V> {
    var table: map<K, Element<K, V>>
    var first: Element?<K, V>
    const ctx: Context<K, V>
    ghost var ring: seq<Element<K, V>>

    ghost predicate RingOk()
      reads this`first, this`ring, ring`prev, ring`next
    {
      Linked(ring) && first == Head(ring)
    }

    ghost predicate TableOk()
      reads this`table, this`ring
    {
      Indexes(table, ring)
    }

    ghost function Contents(): State<K, V>
      requires ctx.scopes != []
      reads this, ctx, ring
    {
      State(ctx.Level(), seq(|ring|, i requires 0 <= i < |ring| reads this, ring => ring[i].Cell()))
    }

    ghost predicate Valid()
      reads this, ctx, ring
    {
      && ctx.scopes != [] && ctx.garbage == []
      && RingOk() && TableOk()
      && (forall i | 0 <= i < |ring| :: ring[i].owner == this && ring[i].ctx == ctx)
      && Inv(Contents()) && ChainsMatch(ctx.scopes, ring, Contents().cells)
    }

    /** A map may be created at any level. */
    constructor (ctx: Context<K, V>)
      requires ctx.scopes != [] && ctx.garbage == [] && forall j | 0 <= j < |ctx.scopes| :: ctx.scopes[j] == []
      ensures this.ctx == ctx && Valid() && Contents() == State(ctx.Level(), [])
    {
      this.ctx := ctx;
      table := map[];
      first := null;
      ring := [];
    }

    /** One step of `Clear`. The null map pointer keeps the deletion from touching the
        table or the ring; `scopes` are the chains at the start, `done` the elements
        deleted so far. */
    method Erase(e: Element<K, V>, ghost r: seq<Element<K, V>>, ghost cells: seq<Cell<K, V>>, ghost k: nat,
                 ghost scopes: seq<seq<Element<K, V>>>, ghost done: set<Element<K, V>>)
      requires |cells| == |r| && k < |r| && r[k] == e && e.ctx == ctx && e.Cell() == cells[k]
      requires scopes != [] && ChainsMatch(scopes, r, cells) && WellSaved(cells[k], |scopes| - 1)
      requires |ctx.scopes| == |scopes| && forall j | 0 <= j < |scopes| :: ctx.scopes[j] == Keep(scopes[j], done)
      modifies e`owner, e`data, e`level, e`saves, ctx`scopes, ctx`garbage
      ensures ctx.garbage == old(ctx.garbage) && |ctx.scopes| == |scopes|
      ensures forall j | 0 <= j < |scopes| :: ctx.scopes[j] == Keep(scopes[j], done + {e})
    {
      Erased(scopes, ctx.scopes, r, cells, k, done);
      e.owner := null;
      e.Destroy();
    }

    /** The loop of `Clear`: deletes the elements in any order. */
    method EraseAll(elements: set<Element<K, V>>, ghost r: seq<Element<K, V>>, ghost cells: seq<Cell<K, V>>)
      requires |cells| == |r| && ctx.scopes != [] && ChainsMatch(ctx.scopes, r, cells)
      requires forall e | e in elements :: e in r
      requires forall k | 0 <= k < |r| ::
                 r[k] in elements && r[k].ctx == ctx && r[k].Cell() == cells[k]
      requires forall c | c in cells :: WellSaved(c, |ctx.scopes| - 1)
      modifies ctx`scopes, ctx`garbage, r`owner, r`data, r`level, r`saves
      ensures ctx.garbage == old(ctx.garbage) && |ctx.scopes| == |old(ctx.scopes)|
      ensures forall j | 0 <= j < |ctx.scopes| :: ctx.scopes[j] == []
    {
      ghost var scopes, done := ctx.scopes, {};
      AllKept(scopes);
      var todo := elements;
      while todo != {}
        invariant |ctx.scopes| == |scopes| && ctx.garbage == old(ctx.garbage)
        invariant forall e | e in todo :: e in r
        invariant forall k | 0 <= k < |r| :: r[k] in todo || r[k] in done
        invariant forall k | 0 <= k < |r| && r[k] in todo :: r[k].Cell() == cells[k]
        invariant forall j | 0 <= j < |scopes| :: ctx.scopes[j] == Keep(scopes[j], done)
        decreases todo
      {
        var e :| e in todo;
        ghost var k :| 0 <= k < |r| && r[k] == e;
        assert cells[k] in cells;
        Erase(e, r, cells, k, scopes, done);
        todo, done := todo - {e}, done + {e};
      }
      AllErased(scopes, ctx.scopes, r, cells, done);
    }

    /** Deletes every element. */
    method Clear()
      requires Valid()
      modifies this`table, this`first, this`ring, ctx`scopes, ctx`garbage
      modifies ring`owner, ring`data, ring`level, ring`saves
      ensures Valid() && Contents() == ClearState(old(Contents()))
      ensures table == map[] && ring == [] && forall j | 0 <= j < |ctx.scopes| :: ctx.scopes[j] == []
    {
      forall k | 0 <= k < |ring| ensures ring[k] in table.Values {
        assert ring[k] in ring && table[ring[k].key] == ring[k];
      }
      EraseAll(table.Values, ring, Contents().cells);
      table := map[];
      first := null;
      ring := [];
    }

    /** Constructs the element of a missing key and enters it in the table. */
    method Add(k: K, v: V) returns (e: Element<K, V>)
      requires Valid() && k !in table
      modifies this`table, this`first, this`ring, ctx`scopes, ring`prev, ring`next
      ensures Valid() && fresh(e) && ring == old(ring) + [e] && e.key == k
      ensures !HasKey(old(Contents()).cells, k)
      ensures Contents() == old(Contents()).(cells := old(Contents()).cells + [NewCell(k, v, ctx.Level())])
    {
      ghost var s, r, scopes := Contents(), ring, ctx.scopes;
      KeyInTable(k);
      e := Construct(k, v);
      Added(scopes, r, s, e, v);
    }

    /** The new element joins the ring, the table and the chains; the others stay as they are. */
    method Construct(k: K, v: V) returns (e: Element<K, V>)
      requires ctx.scopes != [] && RingOk() && TableOk() && k !in table
      requires forall i | 0 <= i < |ring| :: ring[i].owner == this && ring[i].ctx == ctx
      modifies this`table, this`first, this`ring, ctx`scopes, ring`prev, ring`next
      ensures fresh(e) && ring == old(ring) + [e] && e.key == k && RingOk() && TableOk()
      ensures forall i | 0 <= i < |ring| :: ring[i].owner == this && ring[i].ctx == ctx
      ensures |ctx.scopes| == |old(ctx.scopes)| && ctx.scopes == JoinedNew(old(ctx.scopes), e)
      ensures e.Cell() == NewCell(k, v, ctx.Level())
    {
      ghost var r := ring;
      e := new Element(ctx, this, k, v);
      Indexed(table, r, e);
      table := table[k := e];
    }

    /** A map whose elements have these values, which fit the lists of the scopes, is valid. */
    lemma HasContents(s: State<K, V>)
      requires |ctx.scopes| == s.top + 1 && ctx.garbage == [] && RingOk() && TableOk()
      requires forall i | 0 <= i < |ring| :: ring[i].owner == this && ring[i].ctx == ctx
      requires |s.cells| == |ring| && forall i | 0 <= i < |ring| :: ring[i].Cell() == s.cells[i]
      requires Inv(s) && ChainsMatch(ctx.scopes, ring, s.cells)
      ensures Valid() && Contents() == s
    {
      assert Contents().cells == s.cells;
    }

    lemma Added(scopes: seq<seq<Element<K, V>>>, r: seq<Element<K, V>>, s: State<K, V>, e: Element<K, V>, v: V)
      requires |s.cells| == |r| && |scopes| == s.top + 1 && Inv(s) && ChainsMatch(scopes, r, s.cells)
      requires ring == r + [e] && e !in r && RingOk() && TableOk() && ctx.garbage == []
      requires forall i | 0 <= i < |ring| :: ring[i].owner == this && ring[i].ctx == ctx
      requires forall i | 0 <= i < |r| :: r[i].Cell() == s.cells[i]
      requires e.Cell() == NewCell(e.key, v, s.top) && !HasKey(s.cells, e.key)
      requires ctx.scopes == JoinedNew(scopes, e)
      ensures Valid() && Contents() == s.(cells := s.cells + [NewCell(e.key, v, s.top)])
    {
      AddKeepsInv(s, e.key, v);
      AddedChains(scopes, r, s.cells, e, e.key, v);
      HasContents(s.(cells := s.cells + [NewCell(e.key, v, s.top)]));
    }

    lemma KeyInTable(k: K)
      requires ctx.scopes != [] && TableOk()
      ensures HasKey(Contents().cells, k) <==> k in table
      ensures k in table ==> exists i :: 0 <= i < |ring| && ring[i] == table[k] && Contents().cells[i].key == k
    {
      var cells := Contents().cells;
      if k in table {
        var i :| 0 <= i < |ring| && ring[i] == table[k];
        assert cells[i].key == k;
      }
      forall i | 0 <= i < |ring| ensures cells[i].key in table {
        assert ring[i] in ring;
      }
    }

    /** `operator[]`: the element of `k`, which a missing key gets with default data. */
    method Index(k: K, default: V) returns (e: Element<K, V>)
      requires Valid()
      modifies this`table, this`first, this`ring, ctx`scopes, ring`prev, ring`next
      ensures Valid() && Contents() == IndexState(old(Contents()), k, default)
      ensures old(ring) <= ring && e in ring && e.key == k && k in table && table[k] == e
      ensures forall i | 0 <= i < |ring| :: ring[i] in old(ring) || fresh(ring[i])
      ensures e in old(ring) || fresh(e)
    {
      KeyInTable(k);
      if k !in table {
        e := Add(k, default);
        assert ring[|ring| - 1] == e;
      } else {
        e := table[k];
      }
    }

    /** Writes an element of the map, as `operator=` on the result of `operator[]` does. */
    method SetElement(e: Element<K, V>, v: V)
      requires Valid() && e in ring
      modifies ctx`scopes, e`data, e`level, e`saves
      ensures Valid()
      ensures Contents() == old(Contents()).(cells := SetKey(old(Contents()).cells, e.key, v, old(Contents()).top))
    {
      ghost var s, scopes := Contents(), ctx.scopes;
      ghost var i :| 0 <= i < |ring| && ring[i] == e;
      e.Set(v);
      Written(scopes, s, i, v);
    }

    lemma Written(scopes: seq<seq<Element<K, V>>>, s: State<K, V>, i: nat, v: V)
      requires |s.cells| == |ring| && |scopes| == s.top + 1 && Inv(s) && ChainsMatch(scopes, ring, s.cells)
      requires i < |ring| && RingOk() && TableOk() && ctx.garbage == []
      requires forall k | 0 <= k < |ring| :: ring[k].owner == this && ring[k].ctx == ctx
      requires s.cells[i].key == ring[i].key
      requires forall k | 0 <= k < |ring| ::
                 ring[k].Cell() == if k == i then SetCell(s.cells[i], v, s.top) else s.cells[k]
      requires ctx.scopes == if s.cells[i].level == s.top then scopes else Joined(scopes, s.top, ring[i])
      ensures Valid() && Contents() == s.(cells := SetKey(s.cells, ring[i].key, v, s.top))
    {
      WrittenCells(s, i, v);
      WrittenChains(scopes, ring, s.cells, i, v);
      HasContents(s.(cells := s.cells[i := SetCell(s.cells[i], v, s.top)]));
    }

    /** Returns whether the key was missing. */
    method Insert(k: K, v: V) returns (inserted: bool)
      requires Valid()
      modifies this`table, this`first, this`ring, ctx`scopes, ring`prev, ring`next
      modifies ring`data, ring`level, ring`saves
      ensures Valid() && Contents() == InsertState(old(Contents()), k, v)
      ensures inserted <==> !HasKey(old(Contents()).cells, k)
      ensures old(ring) <= ring && forall i | 0 <= i < |ring| :: ring[i] in old(ring) || fresh(ring[i])
    {
      KeyInTable(k);
      inserted := k !in table;
      if inserted {
        var _ := Add(k, v);
      } else {
        SetElement(table[k], v);
      }
    }

    /** `map[k] = v`. */
    method Assign(k: K, v: V, default: V)
      requires Valid()
      modifies this`table, this`first, this`ring, ctx`scopes, ring`prev, ring`next
      modifies ring`data, ring`level, ring`saves
      ensures Valid() && Contents() == AssignState(old(Contents()), k, v, default)
      ensures old(ring) <= ring && forall i | 0 <= i < |ring| :: ring[i] in old(ring) || fresh(ring[i])
    {
      ghost var before := Contents();
      var e := Index(k, default);
      ghost var found := Contents();
      SetElement(e, v);
      assert found == IndexState(before, k, default);
      assert Contents() == found.(cells := SetKey(found.cells, k, v, found.top));
    }

    /** What is visible now: the top of the reference stack. */
    ghost function Visible(): Entries<K, V>
      requires ctx.scopes != []
      reads this, ctx, ring
    {
      Stack(Contents())[ctx.Level()]
    }

    lemma VisibleAtPosition(i: nat)
      requires Valid() && i < |ring|
      ensures |Visible()| == |ring| && Visible()[i] == (ring[i].key, ring[i].data)
    {
      InvAt(Contents());
      VisibleAtTop(Contents().cells, ctx.Level());
    }

    method Find(k: K) returns (e: Element?<K, V>)
      requires Valid()
      ensures e == null <==> !HasEntry(Visible(), k)
      ensures e != null ==> e in ring && e.key == k && (k, e.data) in Visible()
    {
      KeyInTable(k);
      InvAt(Contents());
      TopHasKey(Contents().cells, k, ctx.Level());
      if k !in table {
        e := null;
      } else {
        e := table[k];
        ghost var i :| 0 <= i < |ring| && ring[i] == e;
        VisibleAtPosition(i);
      }
    }

    /** Walking from `begin()` with `++` until `end()` meets the visible entries, each once,
        in order of first insertion. */
    method Walk() returns (entries: seq<(K, V)>)
      requires Valid()
      ensures entries == Visible()
    {
      VisibleLength();
      var it := first;
      entries := [];
      while it != null
        invariant |entries| <= |ring| == |Visible()| && entries == Visible()[..|entries|]
        invariant it == if |entries| < |ring| then ring[|entries|] else null
        decreases |ring| - |entries|
      {
        AtPosition(|entries|);
        entries := entries + [(it.key, it.data)];
        it := it.Next();
      }
    }

    /** One step of the walk. */
    lemma AtPosition(i: nat)
      requires Valid() && i < |ring|
      ensures ring[i].owner != null && ring[i].Next() == if i + 1 < |ring| then ring[i + 1] else null
      ensures |Visible()| == |ring| && Visible()[..i + 1] == Visible()[..i] + [(ring[i].key, ring[i].data)]
    {
      VisibleAtPosition(i);
      OneMore(Visible(), i);
    }

    lemma VisibleLength()
      requires Valid()
      ensures |Visible()| == |ring|
    {
      InvAt(Contents());
      VisibleAtTop(Contents().cells, ctx.Level());
    }

    method Size() returns (n: nat)
      requires Valid()
      ensures n == |Visible()|
    {
      n := |table|;
      InvAt(Contents());
      VisibleAtTop(Contents().cells, ctx.Level());
      DistinctCount(CellKeys(Contents().cells));
      TableKeys();
    }

    lemma TableKeys()
      requires ctx.scopes != [] && TableOk()
      ensures table.Keys == Elems(CellKeys(Contents().cells))
    {
      var keys := CellKeys(Contents().cells);
      forall k | k in table ensures k in keys {
        var i :| 0 <= i < |ring| && ring[i] == table[k];
        assert keys[i] == k;
      }
      forall i | 0 <= i < |ring| ensures keys[i] in table { assert ring[i] in ring; }
    }
  }

  // ---------------------------------------------------------------------------
  // Runs
  // ---------------------------------------------------------------------------

  /** One operation on the heap. */
  method Perform<K(==), V>(c: Context<K, V>, m: CDHashMap<K, V>, op: Op<K, V>, default: V)
    requires m.Valid() && m.ctx == c && (op.Pop? ==> c.Level() > 0)
    modifies c, m, m.ring
    ensures m.Valid() && m.Contents() == Step(old(m.Contents()), op, default)
    ensures forall i | 0 <= i < |m.ring| :: m.ring[i] in old(m.ring) || fresh(m.ring[i])
  {
    match op
    case Push => c.Push(m);
    case Pop => c.Pop(m);
    case Insert(k, v) => var _ := m.Insert(k, v);
    case Index(k) => var _ := m.Index(k, default);
    case Assign(k, v) => m.Assign(k, v, default);
    case Clear => m.Clear();
  }

  lemma RunFrom<K, V>(s: State<K, V>, ops: seq<Op<K, V>>, n: nat, default: V)
    requires n < |ops| && Legal(ops[n..], s.top)
    ensures ops[n].Pop? ==> s.top > 0
    ensures Legal(ops[n + 1..], Step(s, ops[n], default).top)
    ensures Run(s, ops[n..], default) == Run(Step(s, ops[n], default), ops[n + 1..], default)
  {
    assert ops[n..][0] == ops[n] && ops[n..][1..] == ops[n + 1..];
  }

  /** Every run of the operations on the heap shows what the reference stack shows. */
  method Execute<K(==), V>(c: Context<K, V>, m: CDHashMap<K, V>, ops: seq<Op<K, V>>, default: V)
    requires m.Valid() && m.ctx == c && Legal(ops, c.Level())
    modifies c, m, m.ring
    ensures m.Valid() && m.Contents() == Run(old(m.Contents()), ops, default)
    ensures Stack(m.Contents()) == RefRun(Stack(old(m.Contents())), ops, default)
  {
    ghost var start, owned := m.Contents(), m.ring;
    assert ops[0..] == ops;
    for n := 0 to |ops|
      invariant m.Valid() && m.ctx == c && Legal(ops[n..], m.Contents().top)
      invariant Run(m.Contents(), ops[n..], default) == Run(start, ops, default)
      invariant forall i | 0 <= i < |m.ring| :: m.ring[i] in owned || fresh(m.ring[i])
    {
      RunFrom(m.Contents(), ops, n, default);
      Perform(c, m, ops[n], default);
    }
    RunRefines(start, ops, default);
  }
}
