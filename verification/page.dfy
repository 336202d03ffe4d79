/**
 * What the page shows besides the tree itself, as values: each group's badge
 * and `empty` class, and the consistency of the whole page (tree, id counter,
 * badges, counters and placeholder) that every editor operation keeps.
 */
module Page {
  import opened Wrappers
  import opened Siblings
  import opened Forest
  import opened Mutations
  import opened Tally

  /** A group's badge text (its direct-child count) and its `empty` class. */
  datatype GroupState = GroupState(badge: nat, empty: bool)

  /**
   * What `updateGroupState` shows for group `g`: its direct-child count (0 when
   * it has no child list), and whether that is 0.
   */
  function Badge(a: Arena, g: Id): (state: GroupState)
    ensures state.empty <==> state.badge == 0
  {
    var childCount := if GroupList(g) in a.lists then |a.lists[GroupList(g)]| else 0;
    GroupState(childCount, childCount == 0)
  }

  /**
   * In a well-formed tree the badge of `g` is the number of live nodes whose
   * parent is `g`: the list length counts each direct child once.
   */
  lemma BadgeCountsChildren(a: Arena, g: Id)
    requires WellFormed(a)
    ensures Badge(a, g).badge == |set x | x in a.nodes && a.nodes[x].parent == GroupList(g)|
  {
    var children := set x | x in a.nodes && a.nodes[x].parent == GroupList(g);
    if GroupList(g) in a.lists {
      var l := a.lists[GroupList(g)];
      assert ListOk(a, GroupList(g));
      forall y ensures y in children <==> y in l {
        if y in children {
          assert y in a.lists[a.nodes[y].parent];
        }
      }
      assert children == set y | y in l;
      NoDupCard(l);
    } else {
      forall y | y in a.nodes ensures a.nodes[y].parent != GroupList(g) {
        assert a.nodes[y].parent in a.lists;
      }
      assert children == {};
    }
  }

  /** The badges after `updateGroupState` on the group owning list `c`, if that list belongs to a group. */
  function Refresh(gs: map<Id, GroupState>, a: Arena, c: Container): map<Id, GroupState> {
    if c.GroupList? then gs[c.owner := Badge(a, c.owner)] else gs
  }

  /** Refreshing a badge that already shows its group's current count changes nothing. */
  lemma RefreshCurrent(gs: map<Id, GroupState>, a: Arena, c: Container)
    requires c.GroupList? ==> c.owner in gs && gs[c.owner] == Badge(a, c.owner)
    ensures Refresh(gs, a, c) == gs
  {
    if c.GroupList? {
      UpdateSame(gs, c.owner);
    }
  }

  /** The badges after a node of `kind` is registered: a new group starts at 0 and empty. */
  function Registered(gs: map<Id, GroupState>, id: Id, kind: Kind): map<Id, GroupState>
  {
    if kind == Group then gs[id := GroupState(0, true)] else gs
  }

  /** The badges still on the page: those of the groups that remain. */
  function Surviving(gs: map<Id, GroupState>, a: Arena): map<Id, GroupState>
  {
    map g | g in gs && g in a.nodes :: gs[g]
  }

  /** Every live group, and only those, shows its current direct-child count. */
  ghost predicate BadgesCurrent(a: Arena, gs: map<Id, GroupState>)
  {
    && (forall g :: g in gs <==> g in a.nodes && a.nodes[g].kind == Group)
    && (forall g :: g in gs ==> GroupList(g) in a.lists && gs[g] == Badge(a, g))
  }

  /** The live groups of an arena. */
  ghost predicate IsGroup(a: Arena, g: Id)
  {
    g in a.nodes && a.nodes[g].kind == Group
  }

  /** Refreshing the one group whose badge is out of date makes every badge current. */
  lemma RefreshOne(b: Arena, gs: map<Id, GroupState>, t: Container)
    requires t in b.lists && (t.GroupList? ==> t.owner in gs)
    requires forall g :: g in gs <==> IsGroup(b, g)
    requires forall g :: g in gs && GroupList(g) != t ==> GroupList(g) in b.lists && gs[g] == Badge(b, g)
    ensures BadgesCurrent(b, Refresh(gs, b, t))
  {
    var r := Refresh(gs, b, t);
    assert r.Keys == gs.Keys;
    forall g ensures g in r <==> IsGroup(b, g) {
      assert g in gs <==> IsGroup(b, g);
    }
  }

  /**
   * Badges stay current across a change that keeps the same groups and touches
   * no group list but those owned by `p` and `t`, once those two are refreshed.
   */
  lemma RefreshTwo(a: Arena, b: Arena, gs: map<Id, GroupState>, p: Container, t: Container)
    requires BadgesCurrent(a, gs) && p in b.lists && t in b.lists
    requires forall g :: IsGroup(b, g) <==> IsGroup(a, g)
    requires forall c :: c in a.lists && c != p && c != t ==> c in b.lists && b.lists[c] == a.lists[c]
    requires p.GroupList? ==> p.owner in gs
    requires t.GroupList? ==> t.owner in gs
    ensures BadgesCurrent(b, Refresh(Refresh(gs, b, p), b, t))
  {
    var r := Refresh(Refresh(gs, b, p), b, t);
    assert r.Keys == gs.Keys;
    forall g ensures g in r <==> IsGroup(b, g) {
      assert g in gs <==> IsGroup(a, g);
    }
  }

  /** A move keeps the same groups and changes no list but the source and the target. */
  lemma MoveShape(a: Arena, x: Id, t: Container, ref: Option<Id>)
    requires WellFormed(a) && x in a.nodes && t in a.lists && RefOk(a, t, x, ref)
    ensures var b := MoveTo(a, x, t, ref); var p := a.nodes[x].parent;
      && p in b.lists && t in b.lists
      && (forall g :: IsGroup(b, g) <==> IsGroup(a, g))
      && (forall c :: c in a.lists && c != p && c != t ==> c in b.lists && b.lists[c] == a.lists[c])
  {
  }

  /**
   * After a move, refreshing the previous and the new parent group is all it
   * takes to keep every badge current.
   */
  lemma MoveKeepsBadges(a: Arena, gs: map<Id, GroupState>, x: Id, t: Container, ref: Option<Id>)
    requires WellFormed(a) && BadgesCurrent(a, gs) && x in a.nodes && t in a.lists && RefOk(a, t, x, ref)
    ensures var b := MoveTo(a, x, t, ref); var p := a.nodes[x].parent;
      p in b.lists && t in b.lists && BadgesCurrent(b, Refresh(Refresh(gs, b, p), b, t))
  {
    var b := MoveTo(a, x, t, ref);
    var p := a.nodes[x].parent;
    assert ListOk(a, p) && ListOk(a, t);
    MoveShape(a, x, t, ref);
    RefreshTwo(a, b, gs, p, t);
  }

  /**
   * An insertion adds one node, which is a group exactly when the new node is,
   * gives a new group an empty list, and changes no other list but the target.
   */
  lemma InsertShape(a: Arena, id: Id, kind: Kind, title: string, t: Container, ref: Option<Id>)
    requires WellFormed(a) && id !in a.nodes && t in a.lists && RefOk(a, t, id, ref)
    ensures var b := Insert(a, id, kind, title, t, ref);
      && t in b.lists && (t.GroupList? ==> IsGroup(a, t.owner))
      && (forall g :: IsGroup(b, g) <==> IsGroup(a, g) || (kind == Group && g == id))
      && (kind == Group ==> GroupList(id) in b.lists && b.lists[GroupList(id)] == [])
      && (forall c :: c in a.lists && c != t ==> c in b.lists && b.lists[c] == a.lists[c])
      && GroupList(id) != t
  {
    FreshIdUnlisted(a, id);
    assert ListOk(a, t);
    InsertFrame(a, id, kind, title, t, ref);
  }

  /** What an insertion leaves alone, read off `Insert` without the rest of the tree in view. */
  lemma InsertFrame(a: Arena, id: Id, kind: Kind, title: string, t: Container, ref: Option<Id>)
    requires id !in a.nodes && t in a.lists && RefOk(a, t, id, ref) && GroupList(id) !in a.lists
    ensures var b := Insert(a, id, kind, title, t, ref);
      && t in b.lists
      && (forall g :: IsGroup(b, g) <==> IsGroup(a, g) || (kind == Group && g == id))
      && (kind == Group ==> GroupList(id) in b.lists && b.lists[GroupList(id)] == [])
      && (forall c :: c in a.lists && c != t ==> c in b.lists && b.lists[c] == a.lists[c])
  {
  }

  /** Registering the new node and refreshing the target group keeps every badge current. */
  lemma InsertBadges(a: Arena, b: Arena, gs: map<Id, GroupState>, id: Id, kind: Kind, t: Container)
    requires BadgesCurrent(a, gs) && id !in a.nodes && t in b.lists && (t.GroupList? ==> IsGroup(a, t.owner))
    requires forall g :: IsGroup(b, g) <==> IsGroup(a, g) || (kind == Group && g == id)
    requires kind == Group ==> GroupList(id) in b.lists && b.lists[GroupList(id)] == []
    requires forall c :: c in a.lists && c != t ==> c in b.lists && b.lists[c] == a.lists[c]
    ensures BadgesCurrent(b, Refresh(Registered(gs, id, kind), b, t))
  {
    var r := Registered(gs, id, kind);
    forall g | g in r && GroupList(g) != t ensures GroupList(g) in b.lists && r[g] == Badge(b, g) {
      if g != id {
        assert g in gs;
      }
    }
    forall g ensures g in r <==> IsGroup(b, g) {
      assert g in gs <==> IsGroup(a, g);
    }
    RefreshOne(b, r, t);
  }

  /**
   * After an insertion, registering the new node and refreshing the target
   * group is all it takes to keep every badge current.
   */
  lemma InsertKeepsBadges(a: Arena, gs: map<Id, GroupState>, id: Id, kind: Kind, title: string, t: Container, ref: Option<Id>)
    requires WellFormed(a) && BadgesCurrent(a, gs) && id !in a.nodes && t in a.lists && RefOk(a, t, id, ref)
    ensures var b := Insert(a, id, kind, title, t, ref);
      t in b.lists && BadgesCurrent(b, Refresh(Registered(gs, id, kind), b, t))
  {
    InsertShape(a, id, kind, title, t, ref);
    InsertBadges(a, Insert(a, id, kind, title, t, ref), gs, id, kind, t);
  }

  /**
   * A deletion keeps exactly the surviving groups, each with its list, and
   * changes no list but the parent's.
   */
  lemma DeleteShape(a: Arena, rank: map<Id, nat>, n: Id)
    requires WellFormed(a) && Ranked(a, rank) && n in a.nodes
    ensures var b := Delete(a, rank, n); var p := a.nodes[n].parent;
      && p in b.lists && (p.GroupList? ==> IsGroup(b, p.owner))
      && (forall g :: IsGroup(b, g) <==> IsGroup(a, g) && g in b.nodes)
      && (forall g :: IsGroup(b, g) ==> GroupList(g) in b.lists)
      && (forall c :: c in b.lists && c != p ==> c in a.lists && b.lists[c] == a.lists[c])
  {
    var b := Delete(a, rank, n);
    DeleteKeepsForest(a, rank, n);
    ParentSurvives(a, rank, n);
    assert ListOk(a, a.nodes[n].parent);
  }

  /** Dropping the removed groups' badges and refreshing the parent keeps every badge current. */
  lemma DeleteBadges(a: Arena, b: Arena, gs: map<Id, GroupState>, p: Container)
    requires BadgesCurrent(a, gs) && p in b.lists && (p.GroupList? ==> IsGroup(b, p.owner))
    requires forall g :: IsGroup(b, g) <==> IsGroup(a, g) && g in b.nodes
    requires forall g :: IsGroup(b, g) ==> GroupList(g) in b.lists
    requires forall c :: c in b.lists && c != p ==> c in a.lists && b.lists[c] == a.lists[c]
    ensures BadgesCurrent(b, Refresh(Surviving(gs, b), b, p))
  {
    var r := Surviving(gs, b);
    forall g ensures g in r <==> IsGroup(b, g) {
      assert g in gs <==> IsGroup(a, g);
    }
    RefreshOne(b, r, p);
  }

  /**
   * After a deletion, dropping the removed groups' badges and refreshing the
   * former parent group is all it takes to keep every badge current.
   */
  lemma DeleteKeepsBadges(a: Arena, rank: map<Id, nat>, gs: map<Id, GroupState>, n: Id)
    requires WellFormed(a) && Ranked(a, rank) && BadgesCurrent(a, gs) && n in a.nodes
    ensures var b := Delete(a, rank, n); var p := a.nodes[n].parent;
      p in b.lists && BadgesCurrent(b, Refresh(Surviving(gs, b), b, p))
  {
    DeleteShape(a, rank, n);
    DeleteBadges(a, Delete(a, rank, n), gs, a.nodes[n].parent);
  }

  /**
   * The page is consistent: the tree is a forest, every id on the page was issued
   * and lies below the counter, the badges, the counters and the placeholder
   * describe the tree as it is.
   */
  ghost predicate Consistent(a: Arena, rank: map<Id, nat>, idCounter: nat, issued: set<Id>,
                             gs: map<Id, GroupState>, counts: Counts, placeholderShown: bool)
  {
    && WellFormed(a) && Ranked(a, rank)
    && 1 <= idCounter
    && a.nodes.Keys <= issued
    && (forall i :: i in issued ==> i < idCounter)
    && BadgesCurrent(a, gs)
    && counts == Tally.Tally(a)
    && placeholderShown == (|a.nodes| == 0)
  }

  /**
   * A move that the guard lets through and the DOM accepts keeps the page
   * consistent, with the same counters and placeholder as before.
   */
  lemma MoveKeepsConsistent(a: Arena, rank: map<Id, nat>, idCounter: nat, issued: set<Id>,
                            gs: map<Id, GroupState>, counts: Counts, shown: bool, x: Id, t: Container, ref: Option<Id>)
    returns (r: map<Id, nat>)
    requires Consistent(a, rank, idCounter, issued, gs, counts, shown)
    requires x in a.nodes && t in a.lists && RefOk(a, t, x, ref)
    requires t != GroupList(x) && !PreventCircularMove(a, rank, x, t)
    ensures var b := MoveTo(a, x, t, ref); var p := a.nodes[x].parent;
      && p in b.lists && t in b.lists
      && Tally.Tally(b) == counts && shown == (|b.nodes| == 0)
      && Consistent(b, r, idCounter, issued, Refresh(Refresh(gs, b, p), b, t), Tally.Tally(b), |b.nodes| == 0)
  {
    r := MovedRank(a, rank, x, t);
    var b := MoveTo(a, x, t, ref);
    MoveKeepsWellFormed(a, x, t, ref);
    MoveKeepsRanked(a, rank, x, t, ref);
    MoveKeepsTally(a, x, t, ref);
    MoveKeepsBadges(a, gs, x, t, ref);
    TallyCoversAll(a);
    TallyCoversAll(b);
  }

  /**
   * Attaching a new node numbered with the counter keeps the page consistent
   * once the counter moves on: the counter's value is not on the page, the
   * counters grow by one for the new node's kind, and the placeholder hides.
   */
  lemma InsertKeepsConsistent(a: Arena, rank: map<Id, nat>, idCounter: nat, issued: set<Id>,
                              gs: map<Id, GroupState>, counts: Counts, shown: bool,
                              kind: Kind, title: string, t: Container, ref: Option<Id>)
    requires Consistent(a, rank, idCounter, issued, gs, counts, shown)
    requires t in a.lists && (ref.Some? ==> ref.value in a.lists[t])
    ensures idCounter !in issued && idCounter !in a.nodes && RefOk(a, t, idCounter, ref)
    ensures var b := Insert(a, idCounter, kind, title, t, ref);
      && t in b.lists && |b.nodes| != 0
      && (forall k :: Tally.Tally(b).Of(k) == counts.Of(k) + (if k == kind then 1 else 0))
      && Consistent(b, InsertedRank(rank, idCounter, t), idCounter + 1, issued + {idCounter},
                    Refresh(Registered(gs, idCounter, kind), b, t), Tally.Tally(b), |b.nodes| == 0)
  {
    if ref.Some? {
      assert ListOk(a, t);
    }
    var id := idCounter;
    var b := Insert(a, id, kind, title, t, ref);
    InsertKeepsWellFormed(a, id, kind, title, t, ref);
    InsertKeepsRanked(a, rank, id, kind, title, t, ref);
    InsertKeepsBadges(a, gs, id, kind, title, t, ref);
    InsertTally(a, id, kind, title, t, ref);
    assert id in b.nodes;
  }

  /**
   * Removing a node with its subtree keeps the page consistent; every counter
   * drops by the number of removed nodes of its kind.
   */
  lemma DeleteKeepsConsistent(a: Arena, rank: map<Id, nat>, idCounter: nat, issued: set<Id>,
                              gs: map<Id, GroupState>, counts: Counts, shown: bool, n: Id)
    requires Consistent(a, rank, idCounter, issued, gs, counts, shown) && n in a.nodes
    ensures var b := Delete(a, rank, n); var p := a.nodes[n].parent;
      && p in b.lists
      && (forall k :: counts.Of(k) == Tally.Tally(b).Of(k) + |OfKind(a, k) * Subtree(a, rank, n)|)
      && Consistent(b, rank, idCounter, issued, Refresh(Surviving(gs, b), b, p), Tally.Tally(b), |b.nodes| == 0)
  {
    DeleteKeepsForest(a, rank, n);
    DeleteTally(a, rank, n);
    DeleteKeepsBadges(a, rank, gs, n);
  }
}
