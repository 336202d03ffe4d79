/**
 * The per-kind totals shown in the summary panel, counted over every node of the
 * hierarchy at any depth, and the placeholder shown when the hierarchy is empty.
 */
module Tally {
  import opened Wrappers
  import opened Siblings
  import opened Forest
  import opened Mutations

  /** The nodes of kind `k`, nested ones included. */
  function OfKind(a: Arena, k: Kind): set<Id> {
    set x | x in a.nodes && a.nodes[x].kind == k
  }

  /** One counter per `data-count` target of the summary panel. */
  datatype Counts = Counts(policies: nat, scripts: nat, registry: nat, applications: nat, groups: nat)
  {
    function Of(k: Kind): nat {
      match k
      case Policy => policies
      case Script => scripts
      case Registry => registry
      case Application => applications
      case Group => groups
    }

    function Total(): nat {
      policies + scripts + registry + applications + groups
    }
  }

  /** The counts `updateCounts` writes: for each kind, how many nodes have it. */
  function Tally(a: Arena): (c: Counts)
    ensures forall k :: c.Of(k) == |OfKind(a, k)|
  {
    Counts(|OfKind(a, Policy)|, |OfKind(a, Script)|, |OfKind(a, Registry)|,
           |OfKind(a, Application)|, |OfKind(a, Group)|)
  }

  lemma DisjointUnionSize(p: set<Id>, q: set<Id>)
    requires p !! q
    ensures |p + q| == |p| + |q|
  {
    assert p * q == {};
  }

  /** The five counters together count every node exactly once. */
  lemma TallyCoversAll(a: Arena)
    ensures Tally(a).Total() == |a.nodes|
  {
    var p, s, r := OfKind(a, Policy), OfKind(a, Script), OfKind(a, Registry);
    var ap, g := OfKind(a, Application), OfKind(a, Group);
    DisjointUnionSize(p, s);
    DisjointUnionSize(p + s, r);
    DisjointUnionSize(p + s + r, ap);
    DisjointUnionSize(p + s + r + ap, g);
    assert a.nodes.Keys == p + s + r + ap + g by {
      forall x | x in a.nodes ensures x in p + s + r + ap + g {
        match a.nodes[x].kind
        case Policy => assert x in p;
        case Script => assert x in s;
        case Registry => assert x in r;
        case Application => assert x in ap;
        case Group => assert x in g;
      }
    }
    assert |a.nodes| == |a.nodes.Keys|;
  }

  /** A move changes no node's kind, so no counter changes. */
  lemma MoveKeepsTally(a: Arena, x: Id, t: Container, ref: Option<Id>)
    requires WellFormed(a) && x in a.nodes && t in a.lists && RefOk(a, t, x, ref)
    ensures Tally(MoveTo(a, x, t, ref)) == Tally(a)
  {
    var b := MoveTo(a, x, t, ref);
    MoveTouchesOnlyNode(a, x, t, ref);
    forall k ensures OfKind(b, k) == OfKind(a, k) {
      assert forall y :: y in b.nodes ==> b.nodes[y].kind == a.nodes[y].kind;
    }
  }

  /** Adding one entry of kind `kind` raises that kind's count by one. */
  lemma AddedNodeCounts(a: Arena, b: Arena, id: Id, node: Node, k: Kind)
    requires id !in a.nodes && b.nodes == a.nodes[id := node]
    ensures |OfKind(b, k)| == |OfKind(a, k)| + (if k == node.kind then 1 else 0)
  {
    if k == node.kind {
      assert OfKind(b, k) == OfKind(a, k) + {id};
      DisjointUnionSize(OfKind(a, k), {id});
    } else {
      assert OfKind(b, k) == OfKind(a, k);
    }
  }

  /** Attaching a node adds one to the counter of its kind only. */
  lemma InsertTally(a: Arena, id: Id, kind: Kind, title: string, t: Container, ref: Option<Id>)
    requires WellFormed(a) && id !in a.nodes && t in a.lists && RefOk(a, t, id, ref)
    ensures forall k :: Tally(Insert(a, id, kind, title, t, ref)).Of(k) == Tally(a).Of(k) + (if k == kind then 1 else 0)
  {
    var b := Insert(a, id, kind, title, t, ref);
    assert b.nodes == a.nodes[id := Node(kind, title, t)];
    forall k ensures |OfKind(b, k)| == |OfKind(a, k)| + (if k == kind then 1 else 0) {
      AddedNodeCounts(a, b, id, Node(kind, title, t), k);
    }
  }

  /**
   * Deleting `n` lowers each counter by the number of nodes of that kind in the
   * removed subtree, nested ones included.
   */
  lemma DeleteTally(a: Arena, rank: map<Id, nat>, n: Id)
    requires WellFormed(a) && Ranked(a, rank) && n in a.nodes
    ensures forall k :: Tally(a).Of(k) == Tally(Delete(a, rank, n)).Of(k) + |OfKind(a, k) * Subtree(a, rank, n)|
  {
    var b := Delete(a, rank, n);
    var gone := Subtree(a, rank, n);
    DeleteKeepsForest(a, rank, n);
    forall k ensures |OfKind(a, k)| == |OfKind(b, k)| + |OfKind(a, k) * gone| {
      assert OfKind(a, k) == OfKind(b, k) + OfKind(a, k) * gone;
      assert OfKind(b, k) !! OfKind(a, k) * gone;
    }
  }

  /**
   * The placeholder test: the hierarchy holds some node exactly when its root
   * list is not empty, exactly when the counters do not all read zero.
   */
  lemma PlaceholderIffEmpty(a: Arena, rank: map<Id, nat>)
    requires WellFormed(a) && Ranked(a, rank)
    ensures a.lists[Root] == [] <==> Tally(a).Total() == 0
  {
    HasNodesIffRootListed(a, rank);
    TallyCoversAll(a);
  }
}
