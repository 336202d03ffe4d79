/**
 * The hierarchy as an arena of nodes. Every node has a kind, a label and a parent
 * list: the root list, or the child list of a group. Each list is an ordered
 * sequence of node ids. In the page, this is the `.node` elements under the
 * hierarchy root, each group holding its children in its own `.node-list`.
 */
module Forest {
  import opened Wrappers
  import opened Siblings

  datatype Kind = Policy | Script | Registry | Application | Group

  /** A child list: the top-level list, or the list inside group `owner`. */
  datatype Container = Root | GroupList(owner: Id)

  datatype Node = Node(kind: Kind, title: string, parent: Container)

  datatype Arena = Arena(nodes: map<Id, Node>, lists: map<Container, seq<Id>>)

  /** The page before anything has been dropped into it. */
  function EmptyArena(): (a: Arena)
    ensures WellFormed(a) && a.nodes == map[] && a.lists[Root] == []
  {
    Arena(map[], map[Root := []])
  }

  /**
   * List `c` is the list of a live group (or the root), holds no id twice, and
   * everything it holds is a live node whose parent is `c`.
   */
  ghost predicate ListOk(a: Arena, c: Container)
    requires c in a.lists
  {
    && (c.GroupList? ==> c.owner in a.nodes && a.nodes[c.owner].kind == Group)
    && NoDup(a.lists[c])
    && forall x {:trigger x in a.lists[c]} :: x in a.lists[c] ==> x in a.nodes && a.nodes[x].parent == c
  }

  /**
   * The containment structure is consistent: the root list exists, every group
   * owns a list, every list belongs to a live group, and each node is listed in
   * exactly the list its parent names (and, by ListOk, in no other).
   */
  ghost predicate WellFormed(a: Arena) {
    && Root in a.lists
    && (forall c :: c in a.lists ==> ListOk(a, c))
    && (forall x :: x in a.nodes && a.nodes[x].kind == Group ==> GroupList(x) in a.lists)
    && (forall x :: x in a.nodes ==> a.nodes[x].parent in a.lists && x in a.lists[a.nodes[x].parent])
  }

  /** A node's parent group, if any, is live and ranks strictly below it. */
  ghost predicate ParentBelow(a: Arena, rank: map<Id, nat>, x: Id)
    requires x in a.nodes && x in rank
  {
    match a.nodes[x].parent
    case Root => true
    case GroupList(p) => p in a.nodes && p in rank && rank[p] < rank[x]
  }

  /**
   * `rank` witnesses that the parent relation has no cycle: climbing from a node
   * to its parent group always lowers the rank.
   */
  ghost predicate Ranked(a: Arena, rank: map<Id, nat>) {
    forall x :: x in a.nodes ==> x in rank && ParentBelow(a, rank, x)
  }

  /** The containment relation is a forest: no node is its own ancestor. */
  ghost predicate Acyclic(a: Arena) {
    exists rank :: Ranked(a, rank)
  }

  /**
   * `x` is `n` or lies inside `n`'s subtree: what `closest('[data-id=n]')` finds
   * when started from `x`.
   */
  function Within(a: Arena, ghost rank: map<Id, nat>, x: Id, n: Id): (inside: bool)
    requires Ranked(a, rank)
    ensures inside && x != n ==> x in a.nodes && n in a.nodes && rank[n] < rank[x]
    decreases if x in a.nodes then rank[x] + 1 else 0
  {
    x == n || (x in a.nodes && a.nodes[x].parent.GroupList? && Within(a, rank, a.nodes[x].parent.owner, n))
  }

  /** `g` is a proper descendant of `x`: its parent group lies within `x`. */
  ghost predicate StrictlyBelow(a: Arena, rank: map<Id, nat>, g: Id, x: Id)
    requires Ranked(a, rank)
  {
    g in a.nodes && a.nodes[g].parent.GroupList? && Within(a, rank, a.nodes[g].parent.owner, x)
  }

  /** Anything within `n` ranks at least as high as `n`. */
  lemma {:induction false} WithinRaisesRank(a: Arena, rank: map<Id, nat>, x: Id, n: Id)
    requires Ranked(a, rank) && x in a.nodes && Within(a, rank, x, n)
    ensures n in a.nodes && rank[n] <= rank[x]
    decreases rank[x]
  {
    if x != n {
      WithinRaisesRank(a, rank, a.nodes[x].parent.owner, n);
    }
  }

  /**
   * A node's own list is that of its parent group (or the top level): the guard
   * never refuses it, and it is not the node's own list.
   */
  lemma OwnListAllowed(a: Arena, rank: map<Id, nat>, x: Id)
    requires Ranked(a, rank) && x in a.nodes
    ensures a.nodes[x].parent != GroupList(x) && !PreventCircularMove(a, rank, x, a.nodes[x].parent)
  {
    var p := a.nodes[x].parent;
    assert ParentBelow(a, rank, x);
    if p.GroupList? && StrictlyBelow(a, rank, p.owner, x) {
      assert false;
    }
  }

  /** No node lies strictly inside itself. */
  lemma NotBelowItself(a: Arena, rank: map<Id, nat>, x: Id)
    requires Ranked(a, rank)
    ensures !StrictlyBelow(a, rank, x, x)
  {
    if StrictlyBelow(a, rank, x, x) {
      WithinRaisesRank(a, rank, a.nodes[x].parent.owner, x);
      assert false;
    }
  }

  /**
   * The guard of a move of `x` into `target`: the drop zone lies inside `x`'s
   * element and is not `x`'s own zone. It fires exactly when the target list
   * belongs to a proper descendant of `x`, so dropping a group into its own list
   * is not caught here.
   */
  function PreventCircularMove(a: Arena, ghost rank: map<Id, nat>, x: Id, target: Container): (blocked: bool)
    requires Ranked(a, rank)
    ensures blocked <==> target.GroupList? && StrictlyBelow(a, rank, target.owner, x)
    ensures target == GroupList(x) ==> !blocked
  {
    match target
    case Root => false
    case GroupList(g) =>
      NotBelowItself(a, rank, x);
      var insideNode := Within(a, rank, g, x);
      if !insideNode then false
      else if g == x then false
      else true
  }

  /**
   * The nodes within `n`: `n` itself and all its descendants. Any child of a
   * member is a member, so removing them leaves no orphan behind.
   */
  function Subtree(a: Arena, ghost rank: map<Id, nat>, n: Id): (s: set<Id>)
    requires Ranked(a, rank)
    ensures s <= a.nodes.Keys
    ensures n in a.nodes ==> n in s
    ensures forall x :: x in a.nodes && a.nodes[x].parent.GroupList? && a.nodes[x].parent.owner in s ==> x in s
    ensures forall x :: x in s ==> Within(a, rank, x, n)
  {
    set x | x in a.nodes && Within(a, rank, x, n)
  }

  /**
   * Every live node lies within some node of the root list: the whole hierarchy
   * hangs from the top-level list, nested groups included.
   */
  lemma {:induction false} ReachableFromRoot(a: Arena, rank: map<Id, nat>, x: Id) returns (top: Id)
    requires WellFormed(a) && Ranked(a, rank) && x in a.nodes
    ensures top in a.lists[Root] && Within(a, rank, x, top)
    decreases rank[x]
  {
    match a.nodes[x].parent
    case Root =>
      top := x;
    case GroupList(p) =>
      top := ReachableFromRoot(a, rank, p);
  }

  /** Some node exists exactly when the root list is not empty. */
  lemma HasNodesIffRootListed(a: Arena, rank: map<Id, nat>)
    requires WellFormed(a) && Ranked(a, rank)
    ensures |a.nodes| > 0 <==> a.lists[Root] != []
  {
    if |a.nodes| > 0 {
      var entry :| entry in a.nodes.Items;
      var top := ReachableFromRoot(a, rank, entry.0);
    }
    if a.lists[Root] != [] {
      var first := a.lists[Root][0];
      assert ListOk(a, Root) && first in a.lists[Root];
      assert first in a.nodes;
    }
  }
}
