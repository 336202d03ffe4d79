/**
 * The three tree mutations of the editor, as functions from the arena before to
 * the arena after: moving a node (`insertBefore`/`appendChild` of an element that
 * is already in the tree), removing a node with its subtree (`remove()`), and
 * attaching a freshly created node.
 */
module Mutations {
  import opened Wrappers
  import opened Siblings
  import opened Forest

  /** The reference node is a child of list `t` other than the node being placed. */
  ghost predicate RefOk(a: Arena, t: Container, x: Id, ref: Option<Id>)
    requires t in a.lists
  {
    ref.Some? ==> ref.value in a.lists[t] && ref.value != x
  }

  /**
   * Move `x` into list `t`, before `ref` or at the end. As in the DOM, the node is
   * first taken out of its current list and the reference is then looked up in
   * the list that no longer contains it.
   */
  function MoveTo(a: Arena, x: Id, t: Container, ref: Option<Id>): (b: Arena)
    requires x in a.nodes && a.nodes[x].parent in a.lists && t in a.lists && RefOk(a, t, x, ref)
    ensures b.nodes.Keys == a.nodes.Keys && b.lists.Keys == a.lists.Keys
    ensures b.nodes[x].parent == t && x in b.lists[t]
  {
    var p := a.nodes[x].parent;
    var detached := a.lists[p := Without(a.lists[p], x)];
    Arena(a.nodes[x := a.nodes[x].(parent := t)], detached[t := InsertBefore(detached[t], x, ref)])
  }

  /** The list of `x` after its removal from `p`, when `t` is the target. */
  lemma DetachedTarget(a: Arena, x: Id, t: Container, ref: Option<Id>)
    requires WellFormed(a) && x in a.nodes && t in a.lists && RefOk(a, t, x, ref)
    ensures var p := a.nodes[x].parent;
      var d := if t == p then Without(a.lists[p], x) else a.lists[t];
      x !in d && NoDup(d) && (forall y :: y in d ==> y in a.lists[t] && y != x)
      && MoveTo(a, x, t, ref).lists[t] == InsertBefore(d, x, ref)
  {
    var p := a.nodes[x].parent;
    assert ListOk(a, t) && ListOk(a, p);
    if t == p {
      WithoutNoDup(a.lists[p], x);
    } else {
      assert x !in a.lists[t];
    }
  }

  /** After a move, the target list holds the moved node and what it held before. */
  lemma MoveTargetHolds(a: Arena, x: Id, t: Container, ref: Option<Id>)
    requires WellFormed(a) && x in a.nodes && t in a.lists && RefOk(a, t, x, ref)
    ensures forall y :: y in MoveTo(a, x, t, ref).lists[t] ==> y == x || y in a.lists[t]
  {
    DetachedTarget(a, x, t, ref);
  }

  /** After a move, the target list holds no id twice. */
  lemma MoveTargetNoDup(a: Arena, x: Id, t: Container, ref: Option<Id>)
    requires WellFormed(a) && x in a.nodes && t in a.lists && RefOk(a, t, x, ref)
    ensures NoDup(MoveTo(a, x, t, ref).lists[t])
  {
    DetachedTarget(a, x, t, ref);
    var p := a.nodes[x].parent;
    var d := if t == p then Without(a.lists[p], x) else a.lists[t];
    InsertThenRemove(d, x, ref);
  }

  /** The target list after a move is consistent. */
  lemma MoveTargetOk(a: Arena, x: Id, t: Container, ref: Option<Id>)
    requires WellFormed(a) && x in a.nodes && t in a.lists && RefOk(a, t, x, ref)
    ensures ListOk(MoveTo(a, x, t, ref), t)
  {
    var b := MoveTo(a, x, t, ref);
    MoveTargetHolds(a, x, t, ref);
    MoveTargetNoDup(a, x, t, ref);
    assert ListOk(a, t);
    forall y | y in b.lists[t] ensures y in b.nodes && b.nodes[y].parent == t {
      if y != x {
        assert y in a.lists[t];
      }
    }
  }

  /** The source list after a move, when it is not also the target, is consistent. */
  lemma MoveSourceOk(a: Arena, x: Id, t: Container, ref: Option<Id>)
    requires WellFormed(a) && x in a.nodes && t in a.lists && RefOk(a, t, x, ref)
    requires a.nodes[x].parent != t
    ensures ListOk(MoveTo(a, x, t, ref), a.nodes[x].parent)
  {
    var b := MoveTo(a, x, t, ref);
    var p := a.nodes[x].parent;
    assert ListOk(a, p);
    WithoutNoDup(a.lists[p], x);
    var l := b.lists[p];
    assert l == Without(a.lists[p], x);
    forall y | y in l ensures y in b.nodes && b.nodes[y].parent == p {
      assert y in a.lists[p];
    }
  }

  /** One list after a move is still consistent. */
  lemma MoveListOk(a: Arena, x: Id, t: Container, ref: Option<Id>, c: Container)
    requires WellFormed(a) && x in a.nodes && t in a.lists && RefOk(a, t, x, ref) && c in a.lists
    ensures c in MoveTo(a, x, t, ref).lists && ListOk(MoveTo(a, x, t, ref), c)
  {
    var b := MoveTo(a, x, t, ref);
    var p := a.nodes[x].parent;
    if c == t {
      MoveTargetOk(a, x, t, ref);
    } else if c == p {
      MoveSourceOk(a, x, t, ref);
    } else {
      assert ListOk(a, c);
      assert b.lists[c] == a.lists[c];
      forall y | y in b.lists[c] ensures y in b.nodes && b.nodes[y].parent == c {
        assert y != x;
      }
    }
  }

  /** One node after a move is listed where its parent says. */
  lemma MoveNodeListed(a: Arena, x: Id, t: Container, ref: Option<Id>, y: Id)
    requires WellFormed(a) && x in a.nodes && t in a.lists && RefOk(a, t, x, ref) && y in a.nodes
    ensures var b := MoveTo(a, x, t, ref); b.nodes[y].parent in b.lists && y in b.lists[b.nodes[y].parent]
  {
    var b := MoveTo(a, x, t, ref);
    var p := a.nodes[x].parent;
    if y == x {
      DetachedTarget(a, x, t, ref);
    } else {
      var c := a.nodes[y].parent;
      assert y in a.lists[c];
      if c == t {
        DetachedTarget(a, x, t, ref);
        assert y in b.lists[t];
      } else if c == p {
        assert b.lists[p] == Without(a.lists[p], x);
      } else {
        assert b.lists[c] == a.lists[c];
      }
    }
  }

  /** A move keeps every list consistent with the parents it records. */
  lemma MoveKeepsWellFormed(a: Arena, x: Id, t: Container, ref: Option<Id>)
    requires WellFormed(a) && x in a.nodes && t in a.lists && RefOk(a, t, x, ref)
    ensures WellFormed(MoveTo(a, x, t, ref))
  {
    var b := MoveTo(a, x, t, ref);
    assert b.lists.Keys == a.lists.Keys;
    forall c | c in b.lists ensures ListOk(b, c) {
      MoveListOk(a, x, t, ref, c);
    }
    forall y | y in b.nodes ensures b.nodes[y].parent in b.lists && y in b.lists[b.nodes[y].parent] {
      MoveNodeListed(a, x, t, ref, y);
    }
  }

  /** A move changes the parent of `x` and nothing else about any node. */
  lemma MoveTouchesOnlyNode(a: Arena, x: Id, t: Container, ref: Option<Id>)
    requires WellFormed(a) && x in a.nodes && t in a.lists && RefOk(a, t, x, ref)
    ensures var b := MoveTo(a, x, t, ref);
      && b.lists.Keys == a.lists.Keys
      && b.nodes.Keys == a.nodes.Keys
      && b.nodes[x] == a.nodes[x].(parent := t)
      && (forall y :: y in a.nodes && y != x ==> b.nodes[y] == a.nodes[y])
  {
  }

  /**
   * After a move, `x` sits once in `t` and in no other list, immediately before
   * the reference or last.
   */
  lemma MovePlacesNode(a: Arena, x: Id, t: Container, ref: Option<Id>)
    requires WellFormed(a) && x in a.nodes && t in a.lists && RefOk(a, t, x, ref)
    ensures var l := MoveTo(a, x, t, ref).lists[t];
      && x in l && NoDup(l)
      && (ref.Some? ==> exists k :: 0 <= k < |l| - 1 && l[k] == x && l[k + 1] == ref.value)
      && (ref.None? ==> l[|l| - 1] == x)
  {
    var b := MoveTo(a, x, t, ref);
    var p := a.nodes[x].parent;
    DetachedTarget(a, x, t, ref);
    var d := if t == p then Without(a.lists[p], x) else a.lists[t];
    var l := b.lists[t];
    assert l == InsertBefore(d, x, ref);
    MoveTargetOk(a, x, t, ref);
    if ref.Some? {
      var k := IndexOf(d, ref.value);
      assert l[k] == x && l[k + 1] == ref.value;
    }
  }

  /** After a move, `x` is in no list but the target. */
  lemma MoveLeavesOldList(a: Arena, x: Id, t: Container, ref: Option<Id>, c: Container)
    requires WellFormed(a) && x in a.nodes && t in a.lists && RefOk(a, t, x, ref) && c in a.lists && c != t
    ensures x !in MoveTo(a, x, t, ref).lists[c]
  {
    MoveListOk(a, x, t, ref, c);
  }

  /** Every list, read without the moved node, keeps its order: nothing else moved. */
  lemma MoveKeepsOrder(a: Arena, x: Id, t: Container, ref: Option<Id>, c: Container)
    requires WellFormed(a) && x in a.nodes && t in a.lists && RefOk(a, t, x, ref) && c in a.lists
    ensures Without(MoveTo(a, x, t, ref).lists[c], x) == Without(a.lists[c], x)
  {
    var b := MoveTo(a, x, t, ref);
    var p := a.nodes[x].parent;
    WithoutAbsent(Without(a.lists[c], x), x);
    if c == t {
      DetachedTarget(a, x, t, ref);
      var d := if t == p then Without(a.lists[p], x) else a.lists[t];
      InsertThenRemove(d, x, ref);
      if t != p {
        assert ListOk(a, t);
        WithoutAbsent(a.lists[t], x);
      }
    } else if c != p {
      assert b.lists[c] == a.lists[c];
    }
  }

  /**
   * Moving a node into its own list, before its current next sibling or to the
   * end when it is already last, changes nothing.
   */
  lemma NoOpMove(a: Arena, x: Id, ref: Option<Id>)
    requires WellFormed(a) && x in a.nodes
    requires var l := a.lists[a.nodes[x].parent];
      && (ref.None? ==> IndexOf(l, x) == |l| - 1)
      && (ref.Some? ==> IndexOf(l, x) + 1 < |l| && l[IndexOf(l, x) + 1] == ref.value)
    ensures RefOk(a, a.nodes[x].parent, x, ref) && MoveTo(a, x, a.nodes[x].parent, ref) == a
  {
    var p := a.nodes[x].parent;
    var l := a.lists[p];
    assert ListOk(a, p);
    ReinsertInPlace(l, x, ref);
    assert RefOk(a, p, x, ref);
    var d := a.lists[p := Without(l, x)];
    var b := MoveTo(a, x, p, ref);
    assert b.lists == d[p := l];
    UpdateTwice(a.lists, p, Without(l, x), l);
    UpdateSame(a.lists, p);
    assert a.nodes[x].(parent := p) == a.nodes[x];
    UpdateSame(a.nodes, x);
  }

  /** A second write to the same key overrides the first. */
  lemma UpdateTwice<K, V>(m: map<K, V>, k: K, v: V, w: V)
    ensures m[k := v][k := w] == m[k := w]
  {
  }

  /** Writing back the value a map already holds leaves the map as it is. */
  lemma UpdateSame<K, V>(m: map<K, V>, k: K)
    requires k in m
    ensures m[k := m[k]] == m
  {
  }

  /**
   * Ranks after a move of `x` into `t`: the moved subtree is lifted above the
   * target group, everything else keeps its rank.
   */
  ghost function MovedRank(a: Arena, rank: map<Id, nat>, x: Id, t: Container): map<Id, nat>
    requires Ranked(a, rank)
  {
    var shift := if t.GroupList? && t.owner in rank then rank[t.owner] + 1 else 0;
    map y | y in rank :: if Within(a, rank, y, x) then rank[y] + shift else rank[y]
  }

  /** A move that passes the guard and is not a self-drop keeps the forest acyclic. */
  lemma MoveKeepsRanked(a: Arena, rank: map<Id, nat>, x: Id, t: Container, ref: Option<Id>)
    requires WellFormed(a) && Ranked(a, rank) && x in a.nodes && t in a.lists && RefOk(a, t, x, ref)
    requires t != GroupList(x) && !PreventCircularMove(a, rank, x, t)
    ensures Ranked(MoveTo(a, x, t, ref), MovedRank(a, rank, x, t))
  {
    var b := MoveTo(a, x, t, ref);
    var r := MovedRank(a, rank, x, t);
    forall y | y in b.nodes ensures y in r && ParentBelow(b, r, y) {
      assert y in a.nodes && y in rank;
      if y == x {
        if t.GroupList? {
          assert ListOk(a, t);
          assert !Within(a, rank, t.owner, x);
        }
      } else {
        assert b.nodes[y] == a.nodes[y];
        assert ParentBelow(a, rank, y);
      }
    }
  }

  /** Each step from `y` up to `x` keeps its parent in the moved arena. */
  lemma {:induction false} AncestorsSurviveMove(a: Arena, rank: map<Id, nat>, x: Id, t: Container, ref: Option<Id>,
                                                 r: map<Id, nat>, y: Id)
    requires WellFormed(a) && Ranked(a, rank) && x in a.nodes && t in a.lists && RefOk(a, t, x, ref)
    requires Ranked(MoveTo(a, x, t, ref), r)
    requires y in a.nodes && Within(a, rank, y, x)
    ensures r[x] <= r[y]
    decreases rank[y]
  {
    if y != x {
      var p := a.nodes[y].parent.owner;
      assert ParentBelow(MoveTo(a, x, t, ref), r, y);
      AncestorsSurviveMove(a, rank, x, t, ref, r, p);
    }
  }

  /**
   * The moves whose result is still a forest are exactly those that are neither a
   * self-drop (which the DOM rejects) nor caught by the guard.
   */
  lemma MoveAcyclicExactly(a: Arena, rank: map<Id, nat>, x: Id, t: Container, ref: Option<Id>)
    requires WellFormed(a) && Ranked(a, rank) && x in a.nodes && t in a.lists && RefOk(a, t, x, ref)
    ensures Acyclic(MoveTo(a, x, t, ref)) <==> t != GroupList(x) && !PreventCircularMove(a, rank, x, t)
  {
    var b := MoveTo(a, x, t, ref);
    if t != GroupList(x) && !PreventCircularMove(a, rank, x, t) {
      MoveKeepsRanked(a, rank, x, t, ref);
    }
    if Acyclic(b) {
      var r :| Ranked(b, r);
      assert ParentBelow(b, r, x);
      if t == GroupList(x) {
        assert false;
      }
      if PreventCircularMove(a, rank, x, t) {
        var g := t.owner;
        AncestorsSurviveMove(a, rank, x, t, ref, r, g);
        assert false;
      }
    }
  }

  /**
   * Remove `n` and everything inside it: its own entry, the entries and lists of
   * all its descendants, and its place in its parent's list.
   */
  function Delete(a: Arena, ghost rank: map<Id, nat>, n: Id): (b: Arena)
    requires Ranked(a, rank) && n in a.nodes && a.nodes[n].parent in a.lists
    ensures forall y :: y in b.nodes <==> y in a.nodes && !Within(a, rank, y, n)
  {
    var gone := Subtree(a, rank, n);
    var p := a.nodes[n].parent;
    var kept := map c | c in a.lists && !(c.GroupList? && c.owner in gone) :: a.lists[c];
    Arena(map y | y in a.nodes && y !in gone :: a.nodes[y], kept[p := Without(a.lists[p], n)])
  }

  /** The parent of `n` survives its deletion. */
  lemma ParentSurvives(a: Arena, rank: map<Id, nat>, n: Id)
    requires WellFormed(a) && Ranked(a, rank) && n in a.nodes
    ensures a.nodes[n].parent.GroupList? ==> !Within(a, rank, a.nodes[n].parent.owner, n)
  {
    NotBelowItself(a, rank, n);
  }

  /** One surviving list after a deletion is consistent. */
  lemma DeleteListOk(a: Arena, rank: map<Id, nat>, n: Id, c: Container)
    requires WellFormed(a) && Ranked(a, rank) && n in a.nodes
    requires c in Delete(a, rank, n).lists
    ensures ListOk(Delete(a, rank, n), c)
  {
    var b := Delete(a, rank, n);
    var gone := Subtree(a, rank, n);
    var p := a.nodes[n].parent;
    ParentSurvives(a, rank, n);
    assert ListOk(a, c);
    if c == p {
      WithoutNoDup(a.lists[p], n);
    }
    forall y | y in b.lists[c] ensures y in b.nodes && b.nodes[y].parent == c {
      assert y in a.lists[c] && a.nodes[y].parent == c;
      assert y != n;
      assert y !in gone;
    }
  }

  /** Deletion keeps every list consistent with the recorded parents. */
  lemma DeleteKeepsWellFormed(a: Arena, rank: map<Id, nat>, n: Id)
    requires WellFormed(a) && Ranked(a, rank) && n in a.nodes
    ensures WellFormed(Delete(a, rank, n))
  {
    var b := Delete(a, rank, n);
    forall c | c in b.lists ensures ListOk(b, c) {
      DeleteListOk(a, rank, n, c);
    }
    forall y | y in b.nodes && b.nodes[y].kind == Group ensures GroupList(y) in b.lists {
      assert GroupList(y) in a.lists;
    }
    forall y | y in b.nodes ensures b.nodes[y].parent in b.lists && y in b.lists[b.nodes[y].parent] {
      var c := a.nodes[y].parent;
      assert y in a.lists[c];
    }
  }

  /** Deletion keeps the surviving nodes ranked as before. */
  lemma DeleteKeepsRanked(a: Arena, rank: map<Id, nat>, n: Id)
    requires WellFormed(a) && Ranked(a, rank) && n in a.nodes
    ensures Ranked(Delete(a, rank, n), rank)
  {
    var b := Delete(a, rank, n);
    forall y | y in b.nodes ensures y in rank && ParentBelow(b, rank, y) {
      assert ParentBelow(a, rank, y);
    }
  }

  /**
   * Surviving nodes are untouched by a deletion, the parent's list loses `n`,
   * and every other surviving list is unchanged.
   */
  lemma DeleteFrame(a: Arena, rank: map<Id, nat>, n: Id)
    requires WellFormed(a) && Ranked(a, rank) && n in a.nodes
    ensures var b := Delete(a, rank, n); var p := a.nodes[n].parent;
      && (forall y :: y in b.nodes ==> b.nodes[y] == a.nodes[y])
      && p in b.lists && b.lists[p] == Without(a.lists[p], n)
      && (forall c :: c in b.lists && c != p ==> c in a.lists && b.lists[c] == a.lists[c])
      && (forall c :: c in a.lists && (c.Root? || c.owner in b.nodes) ==> c in b.lists)
  {
    ParentSurvives(a, rank, n);
  }

  /** Deletion leaves a consistent forest. */
  lemma DeleteKeepsForest(a: Arena, rank: map<Id, nat>, n: Id)
    requires WellFormed(a) && Ranked(a, rank) && n in a.nodes
    ensures var b := Delete(a, rank, n); var p := a.nodes[n].parent;
      && WellFormed(b) && Ranked(b, rank)
      && (forall y :: y in b.nodes ==> b.nodes[y] == a.nodes[y])
      && p in b.lists && b.lists[p] == Without(a.lists[p], n)
      && (forall c :: c in b.lists && c != p ==> c in a.lists && b.lists[c] == a.lists[c])
      && (forall c :: c in a.lists && (c.Root? || c.owner in b.nodes) ==> c in b.lists)
  {
    DeleteKeepsWellFormed(a, rank, n);
    DeleteKeepsRanked(a, rank, n);
    DeleteFrame(a, rank, n);
  }

  /** Attach a new node `id` of `kind` to list `t`; a new group gets an empty list. */
  function Insert(a: Arena, id: Id, kind: Kind, title: string, t: Container, ref: Option<Id>): Arena
    requires id !in a.nodes && t in a.lists && RefOk(a, t, id, ref)
  {
    var lists := a.lists[t := InsertBefore(a.lists[t], id, ref)];
    Arena(a.nodes[id := Node(kind, title, t)], if kind == Group then lists[GroupList(id) := []] else lists)
  }

  /** Ranks after an insertion: the new node sits just above its parent group. */
  ghost function InsertedRank(rank: map<Id, nat>, id: Id, t: Container): map<Id, nat>
  {
    rank[id := if t.GroupList? && t.owner in rank then rank[t.owner] + 1 else 0]
  }

  /** No list mentions an id that is not live, nor is there a list for it. */
  lemma FreshIdUnlisted(a: Arena, id: Id)
    requires WellFormed(a) && id !in a.nodes
    ensures GroupList(id) !in a.lists
    ensures forall c :: c in a.lists ==> id !in a.lists[c]
  {
    forall c | c in a.lists ensures id !in a.lists[c] {
      assert ListOk(a, c);
    }
  }

  /** The target list after an insertion is consistent. */
  lemma InsertTargetOk(a: Arena, id: Id, kind: Kind, title: string, t: Container, ref: Option<Id>)
    requires WellFormed(a) && id !in a.nodes && t in a.lists && RefOk(a, t, id, ref)
    ensures ListOk(Insert(a, id, kind, title, t, ref), t)
  {
    var b := Insert(a, id, kind, title, t, ref);
    FreshIdUnlisted(a, id);
    assert ListOk(a, t);
    InsertThenRemove(a.lists[t], id, ref);
    assert b.lists[t] == InsertBefore(a.lists[t], id, ref);
  }

  /** One list after an insertion is consistent. */
  lemma InsertListOk(a: Arena, id: Id, kind: Kind, title: string, t: Container, ref: Option<Id>, c: Container)
    requires WellFormed(a) && id !in a.nodes && t in a.lists && RefOk(a, t, id, ref)
    requires c in Insert(a, id, kind, title, t, ref).lists
    ensures ListOk(Insert(a, id, kind, title, t, ref), c)
  {
    FreshIdUnlisted(a, id);
    if c == t {
      InsertTargetOk(a, id, kind, title, t, ref);
    } else if c != GroupList(id) {
      assert ListOk(a, c);
      assert Insert(a, id, kind, title, t, ref).lists[c] == a.lists[c];
    }
  }

  /** After an insertion, every live node is listed where its parent says. */
  lemma InsertKeepsParentsListed(a: Arena, id: Id, kind: Kind, title: string, t: Container, ref: Option<Id>)
    requires WellFormed(a) && id !in a.nodes && t in a.lists && RefOk(a, t, id, ref)
    ensures var b := Insert(a, id, kind, title, t, ref);
      forall y :: y in b.nodes ==> b.nodes[y].parent in b.lists && y in b.lists[b.nodes[y].parent]
  {
    var b := Insert(a, id, kind, title, t, ref);
    forall y | y in b.nodes ensures b.nodes[y].parent in b.lists && y in b.lists[b.nodes[y].parent] {
      if y != id {
        var c := a.nodes[y].parent;
        assert y in a.lists[c];
      }
    }
  }

  /** Attaching a new node keeps every list consistent with the recorded parents. */
  lemma InsertKeepsWellFormed(a: Arena, id: Id, kind: Kind, title: string, t: Container, ref: Option<Id>)
    requires WellFormed(a) && id !in a.nodes && t in a.lists && RefOk(a, t, id, ref)
    ensures WellFormed(Insert(a, id, kind, title, t, ref))
  {
    var b := Insert(a, id, kind, title, t, ref);
    forall c | c in b.lists ensures ListOk(b, c) {
      InsertListOk(a, id, kind, title, t, ref, c);
    }
    forall y | y in b.nodes && b.nodes[y].kind == Group ensures GroupList(y) in b.lists {
      if y != id {
        assert GroupList(y) in a.lists;
      }
    }
    InsertKeepsParentsListed(a, id, kind, title, t, ref);
  }

  /**
   * Attaching a new node keeps the forest acyclic, and the new node is the only
   * node added.
   */
  lemma InsertKeepsRanked(a: Arena, rank: map<Id, nat>, id: Id, kind: Kind, title: string, t: Container, ref: Option<Id>)
    requires WellFormed(a) && Ranked(a, rank) && id !in a.nodes && t in a.lists && RefOk(a, t, id, ref)
    ensures var b := Insert(a, id, kind, title, t, ref);
      && Ranked(b, InsertedRank(rank, id, t))
      && b.nodes.Keys == a.nodes.Keys + {id}
      && b.nodes[id] == Node(kind, title, t)
      && (forall y :: y in a.nodes ==> b.nodes[y] == a.nodes[y])
  {
    var b := Insert(a, id, kind, title, t, ref);
    var r := InsertedRank(rank, id, t);
    forall y | y in b.nodes ensures y in r && ParentBelow(b, r, y) {
      if y != id {
        assert ParentBelow(a, rank, y);
      } else if t.GroupList? {
        assert ListOk(a, t);
      }
    }
  }

  /**
   * The new node sits in `t` once, immediately before the reference or last; the
   * rest of `t` keeps its order, a new group's list is empty, and no other list
   * changes.
   */
  lemma InsertPlacesNode(a: Arena, id: Id, kind: Kind, title: string, t: Container, ref: Option<Id>)
    requires WellFormed(a) && id !in a.nodes && t in a.lists && RefOk(a, t, id, ref)
    ensures var b := Insert(a, id, kind, title, t, ref); var l := b.lists[t];
      && Without(l, id) == a.lists[t] && NoDup(l) && id in l
      && (ref.Some? ==> exists k :: 0 <= k < |l| - 1 && l[k] == id && l[k + 1] == ref.value)
      && (ref.None? ==> l[|l| - 1] == id)
      && (kind == Group ==> b.lists[GroupList(id)] == [])
      && (forall c :: c in a.lists && c != t ==> b.lists[c] == a.lists[c])
  {
    FreshIdUnlisted(a, id);
    assert ListOk(a, t);
    InsertPlaces(a.lists[t], id, ref);
    InsertListsFrame(a, id, kind, title, t, ref);
  }

  /** An insertion rewrites list `t`, adds an empty list for a new group, and touches no other list. */
  lemma InsertListsFrame(a: Arena, id: Id, kind: Kind, title: string, t: Container, ref: Option<Id>)
    requires id !in a.nodes && t in a.lists && RefOk(a, t, id, ref) && GroupList(id) !in a.lists
    ensures var b := Insert(a, id, kind, title, t, ref);
      && b.lists[t] == InsertBefore(a.lists[t], id, ref)
      && (kind == Group ==> b.lists[GroupList(id)] == [])
      && (forall c :: c in a.lists && c != t ==> b.lists[c] == a.lists[c])
  {
  }
}
