/**
 * The editor itself: the page state held in fields and updated in place by the
 * operations of the script (creating, moving and deleting nodes, refreshing
 * badges and counters, showing a status), and the `drop` handler that turns a
 * drag payload released over a zone into one of those operations.
 */
module Editor {
  import opened Wrappers
  import opened Siblings
  import opened Forest
  import opened Mutations
  import opened Tally
  import opened Templates
  import opened DropResolution
  import opened Page
  import opened EditorState

  datatype Tone = Info | Success | Warning

  /** What the status line reports, by its cause. */
  datatype Message = ItemDeleted | ItemMoved | CannotNestInDescendant | Added(kind: Kind)
  {
    /** The `data-tone` the message is shown with. */
    function Tone(): Tone {
      if CannotNestInDescendant? then Warning else Success
    }

    /** The status line's text. */
    function Text(): string {
      match this
      case ItemDeleted => "Item deleted."
      case ItemMoved => "Item moved."
      case CannotNestInDescendant => "Cannot move a group inside one of its descendants."
      case Added(k) => KindTitle(k) + " added to the hierarchy."
    }
  }

  /** The drag payload: an existing node by its `data-id`, or a palette template name. */
  datatype Payload = Move(id: string) | Create(template: string)

  /** Where the pointer is released: the trash, or the drop zone of a list. */
  datatype Zone = Trash | ListZone(list: Container)

  class Hierarchy {
    var arena: Arena
    /** Acyclicity witness for `arena` (see `Forest.Ranked`). */
    ghost var rank: map<Id, nat>
    var idCounter: nat
    /** Every id ever handed out, deleted ones included. */
    ghost var issued: set<Id>
    var groupState: map<Id, GroupState>
    var counts: Counts
    var placeholderShown: bool
    /** The last status shown; None while the page still shows its initial text. */
    var status: Option<Message>

    /** The page state as one value. */
    function Snapshot(): State
      reads this`arena, this`idCounter, this`groupState, this`counts, this`placeholderShown
    {
      State(arena, idCounter, groupState, counts, placeholderShown)
    }

    /** The page is consistent; the status line plays no part in it. */
    ghost predicate Valid()
      reads this`arena, this`rank, this`idCounter, this`issued, this`groupState, this`counts, this`placeholderShown
    {
      Inv(Snapshot(), rank, issued)
    }

    /** `initialize` over an empty hierarchy: every counter at 0 and the placeholder shown. */
    constructor ()
      ensures Valid() && Snapshot() == Initial() && issued == {} && status == None
    {
      arena := EmptyArena();
      rank := map[];
      idCounter := 1;
      issued := {};
      groupState := map[];
      status := None;
      new;
      UpdateCounts();
      InitialInv();
    }

    /** `showStatus`. */
    method ShowStatus(m: Message)
      modifies this`status
      ensures status == Some(m)
    {
      status := Some(m);
    }

    /** `updateCounts`: recount every kind over the whole tree; the placeholder shows exactly when it is empty. */
    method UpdateCounts()
      modifies this`counts, this`placeholderShown
      ensures counts == Tally.Tally(arena) && placeholderShown == (|arena.nodes| == 0)
    {
      counts := Tally.Tally(arena);
      placeholderShown := |arena.nodes| == 0;
    }

    /** `updateGroupState`: group `g`'s badge shows its direct-child count and `empty` whether that is 0. */
    method UpdateGroupState(g: Id)
      modifies this`groupState
      ensures groupState == Refresh(old(groupState), arena, GroupList(g))
      ensures GroupList(g) in arena.lists ==>
        groupState[g].badge == |arena.lists[GroupList(g)]| && (groupState[g].empty <==> arena.lists[GroupList(g)] == [])
    {
      var childCount := if GroupList(g) in arena.lists then |arena.lists[GroupList(g)]| else 0;
      groupState := groupState[g := GroupState(childCount, childCount == 0)];
    }

    /** A page that a deletion produced from a consistent page is consistent, with the same rank witness. */
    lemma SealDelete(s0: State, n: Id)
      requires Inv(s0, rank, issued) && n in s0.arena.nodes
      requires DeleteArgs(s0, rank, n) && Snapshot() == AfterDelete(s0, rank, n)
      ensures Valid()
    {
      DeleteKeepsInv(s0, rank, issued, n);
    }

    /** Record the acyclicity witness of the new tree. */
    method Seal(ghost r: map<Id, nat>)
      requires Inv(Snapshot(), r, issued)
      modifies this`rank
      ensures rank == r && Valid()
    {
      rank := r;
    }

    /**
     * `createGroup` / `createItem`: the new node takes the counter's value as its
     * id and the counter moves on; registering a group shows its badge at 0.
     */
    method CreateNode(kind: Kind) returns (id: Id)
      modifies this`idCounter, this`issued, this`groupState
      ensures id == old(idCounter) && issued == old(issued) + {id}
      ensures Snapshot() == Created(old(Snapshot()), kind)
    {
      id := idCounter;
      idCounter := idCounter + 1;
      issued := issued + {id};
      if kind == Group {
        // the fresh group's list is empty
        groupState := groupState[id := GroupState(0, true)];
      }
    }

    /** Place the created node in `t`, then refresh the target group's badge and the counters. */
    method Attach(id: Id, kind: Kind, title: string, t: Container, ref: Option<Id>)
      requires AttachArgs(Snapshot(), id, t, ref)
      modifies this`arena, this`groupState, this`counts, this`placeholderShown
      ensures Snapshot() == Attached(old(Snapshot()), id, kind, title, t, ref)
    {
      arena := Insert(arena, id, kind, title, t, ref);
      if t.GroupList? {
        UpdateGroupState(t.owner);
      }
      UpdateCounts();
    }

    /** The part of `addNodeFromTemplate` after the template is found. */
    method AddChecked(kind: Kind, t: Container, ref: Option<Id>)
      requires Valid() && AddArgs(Snapshot(), t, ref)
      modifies this
      ensures Valid() && AttachArgs(Created(old(Snapshot()), kind), old(idCounter), t, ref)
      ensures Snapshot() == AfterAdd(old(Snapshot()), kind, t, ref) && status == Some(Added(kind))
      ensures issued == old(issued) + {old(idCounter)}
    {
      var title := DefaultLabel(kind, idCounter);
      ghost var r := AddKeepsInv(Snapshot(), rank, issued, kind, t, ref);
      var id := CreateNode(kind);
      Attach(id, kind, title, t, ref);
      Seal(r);
      ShowStatus(Added(kind));
    }

    /**
     * `addNodeFromTemplate`: an unknown template changes nothing. Otherwise a new
     * node of the template's kind, titled with the counter value it is numbered
     * with, is placed in `t` before `ref` or last (see `EditorState.AddKeepsInv`),
     * and the status reports the addition.
     */
    method AddNodeFromTemplate(template: string, t: Container, ref: Option<Id>)
      requires Valid() && t in arena.lists && (ref.Some? ==> ref.value in arena.lists[t])
      modifies this
      ensures Valid()
      ensures TemplateKind(template).None? ==> unchanged(this)
      ensures TemplateKind(template).Some? ==>
        var kind := TemplateKind(template).value;
        && AttachArgs(Created(old(Snapshot()), kind), old(idCounter), t, ref)
        && Snapshot() == AfterAdd(old(Snapshot()), kind, t, ref)
        && issued == old(issued) + {old(idCounter)}
        && status == Some(Added(kind))
    {
      var config := TemplateKind(template);
      if config.Some? {
        AddChecked(config.value, t, ref);
      }
    }

    /** Relocate `x`, then refresh the previous and the new parent group's badges and the counters. */
    method Relocate(x: Id, t: Container, ref: Option<Id>)
      requires MoveArgs(Snapshot(), x, t, ref)
      modifies this`arena, this`groupState, this`counts, this`placeholderShown
      ensures Snapshot() == AfterMove(old(Snapshot()), x, t, ref)
    {
      var previous := arena.nodes[x].parent;
      arena := MoveTo(arena, x, t, ref);
      if previous.GroupList? {
        UpdateGroupState(previous.owner);
      }
      if t.GroupList? {
        UpdateGroupState(t.owner);
      }
      UpdateCounts();
    }

    /** The part of `moveNode` after the guard lets the move through and the DOM accepts it. */
    method MoveChecked(x: Id, t: Container, ref: Option<Id>)
      requires Valid() && MoveAllowed(Snapshot(), rank, x, t, ref)
      modifies this
      ensures Valid() && MoveArgs(old(Snapshot()), x, t, ref)
      ensures Snapshot() == AfterMove(old(Snapshot()), x, t, ref) && status == Some(ItemMoved)
      ensures issued == old(issued)
    {
      ghost var r := MoveKeepsInv(Snapshot(), rank, issued, x, t, ref);
      Relocate(x, t, ref);
      Seal(r);
      ShowStatus(ItemMoved);
    }

    /**
     * `moveNode`. A drop into a proper descendant's list is refused with a
     * warning and changes nothing else. A group dropped into its own list passes
     * the guard, but the DOM refuses to insert a node into itself: nothing
     * changes and no status is shown. Any other move relocates the node (see
     * `EditorState.MoveKeepsInv`) and reports success, even when the node ends up
     * where it was.
     */
    method MoveNode(x: Id, t: Container, ref: Option<Id>)
      requires Valid() && x in arena.nodes && t in arena.lists && RefOk(arena, t, x, ref)
      modifies this
      ensures Valid()
      ensures PreventCircularMove(old(arena), old(rank), x, t) ==>
        Snapshot() == old(Snapshot()) && status == Some(CannotNestInDescendant)
      ensures !PreventCircularMove(old(arena), old(rank), x, t) && t == GroupList(x) ==> unchanged(this)
      ensures !PreventCircularMove(old(arena), old(rank), x, t) && t != GroupList(x) ==>
        && MoveArgs(old(Snapshot()), x, t, ref)
        && Snapshot() == AfterMove(old(Snapshot()), x, t, ref) && status == Some(ItemMoved)
      ensures issued == old(issued)
    {
      if PreventCircularMove(arena, rank, x, t) {
        ShowStatus(CannotNestInDescendant);
      } else if t != GroupList(x) {
        MoveChecked(x, t, ref);
      }
      // else: HierarchyRequestError, the node would become its own descendant
    }

    /** `node.remove()`: `n` and its subtree leave the tree. */
    method Prune(n: Id)
      requires DeleteArgs(Snapshot(), rank, n)
      modifies this`arena
      ensures arena == Delete(old(arena), rank, n)
    {
      arena := Delete(arena, rank, n);
    }

    /** The badges of removed groups leave the page with their elements. */
    method DropBadges()
      modifies this`groupState
      ensures groupState == Surviving(old(groupState), arena)
    {
      groupState := Surviving(groupState, arena);
    }

    /** Remove `n`, then drop the removed badges and refresh the former parent's badge and the counters. */
    method Remove(n: Id)
      requires DeleteArgs(Snapshot(), rank, n)
      modifies this`arena, this`groupState, this`counts, this`placeholderShown
      ensures Snapshot() == AfterDelete(old(Snapshot()), old(rank), n)
    {
      var parent := arena.nodes[n].parent;
      Prune(n);
      DropBadges();
      if parent.GroupList? {
        UpdateGroupState(parent.owner);
      }
      UpdateCounts();
    }

    /**
     * `deleteNode`: the node leaves the page with its whole subtree (see
     * `EditorState.DeleteKeepsInv`) and the status reports the deletion.
     */
    method DeleteNode(n: Id)
      requires Valid() && n in arena.nodes
      modifies this`arena, this`groupState, this`counts, this`placeholderShown, this`status
      ensures Valid() && DeleteArgs(old(Snapshot()), rank, n)
      ensures Snapshot() == AfterDelete(old(Snapshot()), rank, n) && status == Some(ItemDeleted)
    {
      ghost var s0 := Snapshot();
      Remove(n);
      SealDelete(s0, n);
      ShowStatus(ItemDeleted);
    }

    /**
     * The `drop` handler of a zone. Over the trash, a move payload deletes its
     * node and a create payload does nothing. Over a list, the reference node is
     * found from the layout, skipping the node being dragged, and the payload
     * creates or moves; a payload naming no node on the page does nothing.
     */
    method Drop(zone: Zone, payload: Payload, y: int, mid: Id -> int)
      requires Valid() && (zone.ListZone? ==> zone.list in arena.lists)
      modifies this
      ensures Valid()
      ensures zone == Trash && payload.Move? && ResolveId(old(arena.nodes), payload.id).Some? ==>
        var n := ResolveId(old(arena.nodes), payload.id).value;
        DeleteArgs(old(Snapshot()), old(rank), n) && Snapshot() == AfterDelete(old(Snapshot()), old(rank), n)
      ensures zone == Trash && (payload.Create? || ResolveId(old(arena.nodes), payload.id).None?) ==> unchanged(this)
      ensures zone.ListZone? && payload.Create? ==>
        var ref := FirstBelowPointer(old(arena.lists[zone.list]), None, mid, y);
        match TemplateKind(payload.template)
        case None => unchanged(this)
        case Some(kind) =>
          && AttachArgs(Created(old(Snapshot()), kind), old(idCounter), zone.list, ref)
          && Snapshot() == AfterAdd(old(Snapshot()), kind, zone.list, ref)
      ensures zone.ListZone? && payload.Move? ==>
        match ResolveId(old(arena.nodes), payload.id)
        case None => unchanged(this)
        case Some(x) =>
          var t := zone.list;
          var ref := FirstBelowPointer(old(arena.lists[t]), Some(x), mid, y);
          && (PreventCircularMove(old(arena), old(rank), x, t) ==>
                Snapshot() == old(Snapshot()) && status == Some(CannotNestInDescendant))
          && (!PreventCircularMove(old(arena), old(rank), x, t) && t == GroupList(x) ==> unchanged(this))
          && (!PreventCircularMove(old(arena), old(rank), x, t) && t != GroupList(x) ==>
                MoveArgs(old(Snapshot()), x, t, ref) && Snapshot() == AfterMove(old(Snapshot()), x, t, ref))
    {
      if zone == Trash {
        if payload.Move? {
          var node := ResolveId(arena.nodes, payload.id);
          if node.Some? {
            DeleteNode(node.value);
          }
        }
        return;
      }
      var t := zone.list;
      var dragging := if payload.Move? then ResolveId(arena.nodes, payload.id) else None;
      var ref := GetInsertionReference(arena.lists[t], dragging, mid, y);
      match payload
      case Create(template) =>
        AddNodeFromTemplate(template, t, ref);
      case Move(id) =>
        var node := ResolveId(arena.nodes, id);
        if node.Some? {
          MoveNode(node.value, t, ref);
        }
    }
  }
}
