/**
 * The editor's page state as one value, and what each operation turns it into.
 * The `Editor.Hierarchy` class holds these fields and performs the same steps in
 * place; the transitions here are what its methods are proved to compute, and
 * the lemmas say that each transition keeps the page consistent.
 */
module EditorState {
  import opened Wrappers
  import opened Siblings
  import opened Forest
  import opened Mutations
  import opened Tally
  import opened Templates
  import opened Page

  /** The tree, the id counter, the badges, the summary counters and the placeholder. */
  datatype State = State(arena: Arena, idCounter: nat, groupState: map<Id, GroupState>,
                         counts: Counts, placeholderShown: bool)

  /** The page as `initialize` leaves it over an empty hierarchy. */
  function Initial(): State {
    State(EmptyArena(), 1, map[], Tally.Tally(EmptyArena()), true)
  }

  /** The page is consistent (see `Page.Consistent`), `rank` and `issued` being its proof witnesses. */
  ghost predicate Inv(s: State, rank: map<Id, nat>, issued: set<Id>) {
    Consistent(s.arena, rank, s.idCounter, issued, s.groupState, s.counts, s.placeholderShown)
  }

  /** The initial page is consistent, with every counter at zero and the placeholder shown. */
  lemma InitialInv()
    ensures Inv(Initial(), map[], {})
    ensures Initial().counts == Counts(0, 0, 0, 0, 0) && Initial().placeholderShown
  {
    var a := EmptyArena();
    assert forall k :: OfKind(a, k) == {};
  }

  // ---- moveNode ----

  /** `x` is a live node, `t` a live list and `ref` a child of `t` other than `x`. */
  ghost predicate MoveArgs(s: State, x: Id, t: Container, ref: Option<Id>) {
    x in s.arena.nodes && s.arena.nodes[x].parent in s.arena.lists && t in s.arena.lists && RefOk(s.arena, t, x, ref)
  }

  /** A move that neither the guard nor the DOM refuses. */
  ghost predicate MoveAllowed(s: State, rank: map<Id, nat>, x: Id, t: Container, ref: Option<Id>) {
    && MoveArgs(s, x, t, ref) && WellFormed(s.arena) && Ranked(s.arena, rank)
    && t != GroupList(x) && !PreventCircularMove(s.arena, rank, x, t)
  }

  /**
   * The page after a move: the node is relocated, the previous and the new
   * parent group show fresh badges, and the counters are recounted.
   */
  function AfterMove(s: State, x: Id, t: Container, ref: Option<Id>): (r: State)
    requires MoveArgs(s, x, t, ref)
    ensures r.idCounter == s.idCounter && r.arena.nodes.Keys == s.arena.nodes.Keys
    ensures r.arena.nodes[x].parent == t && r.placeholderShown == (|s.arena.nodes| == 0)
    ensures t.GroupList? ==> t.owner in r.groupState && r.groupState[t.owner] == Badge(r.arena, t.owner)
  {
    var b := MoveTo(s.arena, x, t, ref);
    var previous := s.arena.nodes[x].parent;
    s.(arena := b, groupState := Refresh(Refresh(s.groupState, b, previous), b, t),
       counts := Tally.Tally(b), placeholderShown := |b.nodes| == 0)
  }

  /**
   * An allowed move keeps the page consistent (with a new rank witness), and
   * leaves the id counter, the counters and the placeholder as they were.
   */
  lemma MoveKeepsInv(s: State, rank: map<Id, nat>, issued: set<Id>, x: Id, t: Container, ref: Option<Id>)
    returns (r: map<Id, nat>)
    requires Inv(s, rank, issued) && MoveAllowed(s, rank, x, t, ref)
    ensures MoveArgs(s, x, t, ref) && Inv(AfterMove(s, x, t, ref), r, issued)
    ensures AfterMove(s, x, t, ref).idCounter == s.idCounter
    ensures AfterMove(s, x, t, ref).counts == s.counts
    ensures AfterMove(s, x, t, ref).placeholderShown == s.placeholderShown
  {
    r := MoveKeepsConsistent(s.arena, rank, s.idCounter, issued, s.groupState, s.counts, s.placeholderShown, x, t, ref);
  }

  /**
   * Dropping a node back where it already is (into its own list, before its
   * current next sibling, or at the end when it is last) is an allowed move
   * that leaves the whole page as it was; only the status line changes.
   */
  lemma NoOpMoveKeepsPage(s: State, rank: map<Id, nat>, issued: set<Id>, x: Id, ref: Option<Id>)
    requires Inv(s, rank, issued) && x in s.arena.nodes
    requires var l := s.arena.lists[s.arena.nodes[x].parent];
      && (ref.None? ==> IndexOf(l, x) == |l| - 1)
      && (ref.Some? ==> IndexOf(l, x) + 1 < |l| && l[IndexOf(l, x) + 1] == ref.value)
    ensures MoveAllowed(s, rank, x, s.arena.nodes[x].parent, ref)
    ensures AfterMove(s, x, s.arena.nodes[x].parent, ref) == s
  {
    var a, p := s.arena, s.arena.nodes[x].parent;
    NoOpMove(a, x, ref);
    OwnListAllowed(a, rank, x);
    if p.GroupList? {
      assert ListOk(a, p);
    }
    RefreshCurrent(s.groupState, a, p);
    SameArenaSamePage(s, x, ref);
  }

  /** A move that leaves the arena as it was, with current badges and counters, leaves the page as it was. */
  lemma SameArenaSamePage(s: State, x: Id, ref: Option<Id>)
    requires x in s.arena.nodes && MoveArgs(s, x, s.arena.nodes[x].parent, ref)
    requires MoveTo(s.arena, x, s.arena.nodes[x].parent, ref) == s.arena
    requires Refresh(s.groupState, s.arena, s.arena.nodes[x].parent) == s.groupState
    requires s.counts == Tally.Tally(s.arena) && s.placeholderShown == (|s.arena.nodes| == 0)
    ensures AfterMove(s, x, s.arena.nodes[x].parent, ref) == s
  {
  }

  // ---- addNodeFromTemplate ----

  /** `t` is a live list and `ref`, if any, one of its children. */
  ghost predicate AddArgs(s: State, t: Container, ref: Option<Id>) {
    t in s.arena.lists && (ref.Some? ==> ref.value in s.arena.lists[t])
  }

  /**
   * The page after `createGroup` / `createItem`: the counter has moved on and a
   * new group's badge reads 0. The node is not attached yet.
   */
  function Created(s: State, kind: Kind): State {
    s.(idCounter := s.idCounter + 1, groupState := Registered(s.groupState, s.idCounter, kind))
  }

  /** `id` is not on the page, `t` is a live list and `ref` one of its children. */
  ghost predicate AttachArgs(s: State, id: Id, t: Container, ref: Option<Id>) {
    id !in s.arena.nodes && t in s.arena.lists && RefOk(s.arena, t, id, ref)
  }

  /**
   * The page after the created node is placed in `t`: the target group shows a
   * fresh badge and the counters are recounted.
   */
  function Attached(s: State, id: Id, kind: Kind, title: string, t: Container, ref: Option<Id>): State
    requires AttachArgs(s, id, t, ref)
  {
    var b := Insert(s.arena, id, kind, title, t, ref);
    s.(arena := b, groupState := Refresh(s.groupState, b, t), counts := Tally.Tally(b), placeholderShown := |b.nodes| == 0)
  }

  /** The page after a template of `kind` is dropped on `t`, before `ref`. */
  function AfterAdd(s: State, kind: Kind, t: Container, ref: Option<Id>): (r: State)
    requires AttachArgs(Created(s, kind), s.idCounter, t, ref)
    ensures r.idCounter == s.idCounter + 1 && r.arena.nodes.Keys == s.arena.nodes.Keys + {s.idCounter}
    ensures r.arena.nodes[s.idCounter] == Node(kind, DefaultLabel(kind, s.idCounter), t) && !r.placeholderShown
  {
    Attached(Created(s, kind), s.idCounter, kind, DefaultLabel(kind, s.idCounter), t, ref)
  }

  /**
   * Adding keeps the page consistent: the new node takes the counter's value,
   * which was never issued before, carries the default title numbered with it,
   * sits in `t`; its kind's counter goes up by one and the placeholder hides.
   */
  lemma AddKeepsInv(s: State, rank: map<Id, nat>, issued: set<Id>, kind: Kind, t: Container, ref: Option<Id>)
    returns (r: map<Id, nat>)
    requires Inv(s, rank, issued) && AddArgs(s, t, ref)
    ensures s.idCounter !in issued && AttachArgs(Created(s, kind), s.idCounter, t, ref)
    ensures Inv(AfterAdd(s, kind, t, ref), r, issued + {s.idCounter})
    ensures AfterAdd(s, kind, t, ref).arena.nodes[s.idCounter] == Node(kind, DefaultLabel(kind, s.idCounter), t)
    ensures forall k :: AfterAdd(s, kind, t, ref).counts.Of(k) == s.counts.Of(k) + (if k == kind then 1 else 0)
    ensures !AfterAdd(s, kind, t, ref).placeholderShown
  {
    var id, title := s.idCounter, DefaultLabel(kind, s.idCounter);
    InsertKeepsConsistent(s.arena, rank, id, issued, s.groupState, s.counts, s.placeholderShown, kind, title, t, ref);
    InsertKeepsRanked(s.arena, rank, id, kind, title, t, ref);
    r := InsertedRank(rank, id, t);
  }

  // ---- deleteNode ----

  /** `n` is a live node of a well-formed, ranked tree. */
  ghost predicate DeleteArgs(s: State, rank: map<Id, nat>, n: Id) {
    Ranked(s.arena, rank) && n in s.arena.nodes && s.arena.nodes[n].parent in s.arena.lists
  }

  /**
   * The page after `n` is removed: its subtree leaves the page with the badges of
   * the removed groups, the former parent group shows a fresh badge and the
   * counters are recounted.
   */
  function AfterDelete(s: State, ghost rank: map<Id, nat>, n: Id): (r: State)
    requires DeleteArgs(s, rank, n)
    ensures r.idCounter == s.idCounter && n !in r.arena.nodes
    ensures forall y :: y in r.arena.nodes <==> y in s.arena.nodes && !Within(s.arena, rank, y, n)
    ensures var p := s.arena.nodes[n].parent;
      p.GroupList? ==> p.owner in r.groupState && r.groupState[p.owner] == Badge(r.arena, p.owner)
  {
    var b := Delete(s.arena, rank, n);
    var parent := s.arena.nodes[n].parent;
    s.(arena := b, groupState := Refresh(Surviving(s.groupState, b), b, parent),
       counts := Tally.Tally(b), placeholderShown := |b.nodes| == 0)
  }

  /** Deleting keeps the page consistent under the same rank witness and leaves the id counter alone. */
  lemma DeleteKeepsInv(s: State, rank: map<Id, nat>, issued: set<Id>, n: Id)
    requires Inv(s, rank, issued) && n in s.arena.nodes
    ensures DeleteArgs(s, rank, n) && Inv(AfterDelete(s, rank, n), rank, issued)
    ensures AfterDelete(s, rank, n).idCounter == s.idCounter
  {
    DeleteKeepsConsistent(s.arena, rank, s.idCounter, issued, s.groupState, s.counts, s.placeholderShown, n);
  }

  /**
   * After a deletion every counter has dropped by the number of removed nodes of
   * its kind, nested ones included.
   */
  lemma DeleteLowersCounts(s: State, rank: map<Id, nat>, issued: set<Id>, n: Id)
    requires Inv(s, rank, issued) && n in s.arena.nodes
    ensures DeleteArgs(s, rank, n)
    ensures forall k :: s.counts.Of(k) == AfterDelete(s, rank, n).counts.Of(k) + |OfKind(s.arena, k) * Subtree(s.arena, rank, n)|
  {
    DeleteTally(s.arena, rank, n);
  }
}
