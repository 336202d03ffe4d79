/**
 * How the browser delivers one `drop` event. The handlers that `makeDroppable`
 * installs never stop the event's propagation, and a group's drop zone lies
 * inside the group element, which sits in the list of an enclosing zone. A drop
 * on a group's list therefore runs the handler of that zone and then the
 * handler of every enclosing zone, up to the top-level one. This module follows
 * that dispatch for a palette (create) payload. `Editor.Hierarchy.Drop` is one
 * handler run on its own.
 */
module Bubbling {
  import opened Wrappers
  import opened Siblings
  import opened Forest
  import opened Mutations
  import opened Templates
  import opened DropResolution
  import opened Page
  import opened EditorState

  /**
   * The lists whose zones a drop on list `c` reaches, innermost first: `c`,
   * then the list holding the group that owns `c`, and so on outwards.
   */
  function EnclosingLists(a: Arena, ghost rank: map<Id, nat>, c: Container): (path: seq<Container>)
    requires Ranked(a, rank)
    ensures |path| >= 1 && path[0] == c
    ensures c.GroupList? && c.owner in a.nodes ==> |path| >= 2 && path[1] == a.nodes[c.owner].parent
    decreases if c.GroupList? && c.owner in a.nodes then rank[c.owner] + 1 else 0
  {
    match c
    case Root => [Root]
    case GroupList(g) =>
      if g in a.nodes then
        assert ParentBelow(a, rank, g);
        [c] + EnclosingLists(a, rank, a.nodes[g].parent)
      else [c]
  }

  /**
   * The zones after `c` are exactly the lists that hold the group owning `c`
   * or one of the groups enclosing it.
   */
  lemma {:induction false} EnclosingZones(a: Arena, rank: map<Id, nat>, c: Container, z: Container)
    requires Ranked(a, rank)
    ensures z in EnclosingLists(a, rank, c)[1..] <==>
      c.GroupList? && exists g :: g in a.nodes && Within(a, rank, c.owner, g) && z == a.nodes[g].parent
    decreases if c.GroupList? && c.owner in a.nodes then rank[c.owner] + 1 else 0
  {
    if c.GroupList? && c.owner in a.nodes {
      var o := c.owner;
      var p := a.nodes[o].parent;
      assert ParentBelow(a, rank, o);
      EnclosingZones(a, rank, p, z);
      var rest := EnclosingLists(a, rank, p);
      assert EnclosingLists(a, rank, c)[1..] == rest;
      assert rest == [p] + rest[1..];
      if z in rest {
        if z == p {
          assert Within(a, rank, o, o);
        } else {
          var g :| g in a.nodes && Within(a, rank, p.owner, g) && z == a.nodes[g].parent;
          assert Within(a, rank, o, g);
        }
      }
    }
  }

  /** In a well-formed tree every list on the path exists, and the path ends at the top-level list. */
  lemma {:induction false} EnclosingListed(a: Arena, rank: map<Id, nat>, c: Container)
    requires WellFormed(a) && Ranked(a, rank) && c in a.lists
    ensures var path := EnclosingLists(a, rank, c);
      path[|path| - 1] == Root && forall z :: z in path ==> z in a.lists
    decreases if c.GroupList? && c.owner in a.nodes then rank[c.owner] + 1 else 0
  {
    if c.GroupList? {
      assert ListOk(a, c);
      var g := c.owner;
      assert ParentBelow(a, rank, g);
      EnclosingListed(a, rank, a.nodes[g].parent);
    }
  }

  /**
   * The page after a create payload for `kind` has been handled by the zone of
   * every list on `path` in turn. Each handler looks up its own reference under
   * the pointer and adds a node of its own.
   */
  function BubbledCreate(s: State, ghost rank: map<Id, nat>, ghost issued: set<Id>, kind: Kind,
                         path: seq<Container>, y: int, mid: Id -> int): (r: State)
    requires Inv(s, rank, issued) && forall z :: z in path ==> z in s.arena.lists
    ensures r.idCounter == s.idCounter + |path| && s.arena.nodes.Keys <= r.arena.nodes.Keys
    decreases |path|
  {
    if path == [] then s
    else
      var t := path[0];
      var ref := FirstBelowPointer(s.arena.lists[t], None, mid, y);
      InsertKeepsConsistent(s.arena, rank, s.idCounter, issued, s.groupState, s.counts, s.placeholderShown,
                            kind, DefaultLabel(kind, s.idCounter), t, ref);
      var next := AfterAdd(s, kind, t, ref);
      assert forall z :: z in path[1..] ==> z in next.arena.lists;
      BubbledCreate(next, InsertedRank(rank, s.idCounter, t), issued + {s.idCounter}, kind, path[1..], y, mid)
  }

  /** Every zone the event visits adds one node. */
  lemma {:induction false} BubbledCreateCount(s: State, rank: map<Id, nat>, issued: set<Id>, kind: Kind,
                                              path: seq<Container>, y: int, mid: Id -> int)
    requires Inv(s, rank, issued) && forall z :: z in path ==> z in s.arena.lists
    ensures |BubbledCreate(s, rank, issued, kind, path, y, mid).arena.nodes| == |s.arena.nodes| + |path|
    decreases |path|
  {
    if path != [] {
      var t := path[0];
      var ref := FirstBelowPointer(s.arena.lists[t], None, mid, y);
      InsertKeepsConsistent(s.arena, rank, s.idCounter, issued, s.groupState, s.counts, s.placeholderShown,
                            kind, DefaultLabel(kind, s.idCounter), t, ref);
      var next := AfterAdd(s, kind, t, ref);
      assert forall z :: z in path[1..] ==> z in next.arena.lists;
      BubbledCreateCount(next, InsertedRank(rank, s.idCounter, t), issued + {s.idCounter}, kind, path[1..], y, mid);
    }
  }

  /**
   * As written: a create payload dropped on the list of a live group reaches at
   * least that group's zone and the zone holding the group. So one drop creates
   * at least two nodes.
   */
  lemma NestedCreateAddsTwice(s: State, rank: map<Id, nat>, issued: set<Id>, g: Id, kind: Kind, y: int, mid: Id -> int)
    requires Inv(s, rank, issued) && g in s.arena.nodes && s.arena.nodes[g].kind == Group
    ensures var path := EnclosingLists(s.arena, rank, GroupList(g));
      && (forall z :: z in path ==> z in s.arena.lists)
      && |BubbledCreate(s, rank, issued, kind, path, y, mid).arena.nodes| >= |s.arena.nodes| + 2
      && (s.arena.nodes[g].parent == Root ==> path == [GroupList(g), Root])
  {
    EnclosingListed(s.arena, rank, GroupList(g));
    BubbledCreateCount(s, rank, issued, kind, EnclosingLists(s.arena, rank, GroupList(g)), y, mid);
  }

  /**
   * As intended: one handler run on the zone under the pointer, which is what
   * `Editor.Hierarchy.Drop` performs for a create payload, adds exactly one node.
   */
  lemma SingleDropAddsOne(s: State, rank: map<Id, nat>, issued: set<Id>, kind: Kind, t: Container, y: int, mid: Id -> int)
    requires Inv(s, rank, issued) && t in s.arena.lists
    ensures var ref := FirstBelowPointer(s.arena.lists[t], None, mid, y);
      && AttachArgs(Created(s, kind), s.idCounter, t, ref)
      && |AfterAdd(s, kind, t, ref).arena.nodes| == |s.arena.nodes| + 1
  {
    var ref := FirstBelowPointer(s.arena.lists[t], None, mid, y);
    var r := AddKeepsInv(s, rank, issued, kind, t, ref);
  }
}
