/** The queue of toggle notifications deferred to the owner thread.

    Its implementation lives in gi/toggle.cpp, which is not part of this
    model; what the bridge relies on is modelled here as specified
    operations over a first-in first-out sequence of pending entries. */
module ToggleQueues {
  import opened Wrappers

  /** UP: the native reference count went from 1 to 2 (the wrapper must be
      rooted); DOWN: it went from 2 to 1 (the wrapper may be unrooted). */
  datatype Direction = Down | Up

  /** A pending notification for the native object `gobj`. */
  datatype Item = Item(gobj: nat, direction: Direction)

  /** The entries of `items` that are not about `gobj`, in their order. */
  function Without(items: seq<Item>, gobj: nat): (r: seq<Item>)
    ensures |r| <= |items|
  {
    if items == [] then []
    else (if items[0].gobj == gobj then [] else [items[0]]) + Without(items[1..], gobj)
  }

  /** The directions queued for `gobj`, in delivery order. */
  function History(items: seq<Item>, gobj: nat): seq<Direction> {
    if items == [] then []
    else (if items[0].gobj == gobj then [items[0].direction] else []) + History(items[1..], gobj)
  }

  /** Cancelling `gobj` drops exactly its entries. */
  lemma {:induction false} WithoutMembers(items: seq<Item>, gobj: nat, it: Item)
    ensures it in Without(items, gobj) <==> it in items && it.gobj != gobj
  {
    if items != [] {
      WithoutMembers(items[1..], gobj, it);
      assert items == [items[0]] + items[1..];
    }
  }

  /** Cancelling `gobj` leaves the pending history of every other object
      as it was, so their notifications are still handled in delivery order. */
  lemma {:induction false} WithoutKeepsOthers(items: seq<Item>, gobj: nat, other: nat)
    requires other != gobj
    ensures History(Without(items, gobj), other) == History(items, other)
  {
    if items != [] {
      var rest := Without(items[1..], gobj);
      WithoutKeepsOthers(items[1..], gobj, other);
      if items[0].gobj != gobj {
        assert Without(items, gobj) == [items[0]] + rest;
        assert ([items[0]] + rest)[1..] == rest;
      } else {
        assert Without(items, gobj) == rest;
        assert History(items, other) == History(items[1..], other);
      }
    }
  }

  /** The history of an object is what the queue holds for it. */
  lemma {:induction false} HistoryMembers(items: seq<Item>, gobj: nat, d: Direction)
    ensures d in History(items, gobj) <==> Item(gobj, d) in items
  {
    if items != [] {
      HistoryMembers(items[1..], gobj, d);
      assert items == [items[0]] + items[1..];
    }
  }

  /** Appending an entry appends to the history of its object only. */
  lemma {:induction false} HistorySnoc(items: seq<Item>, it: Item, gobj: nat)
    ensures History(items + [it], gobj)
         == History(items, gobj) + (if it.gobj == gobj then [it.direction] else [])
  {
    if items == [] {
      assert [it][1..] == [];
    } else {
      HistorySnoc(items[1..], it, gobj);
      assert (items + [it])[1..] == items[1..] + [it];
    }
  }

  class ToggleQueue {
    /** Pending entries, oldest first. */
    var items: seq<Item>
    /** Set once the queue has been shut down. */
    var shutdown: bool

    constructor ()
      ensures items == [] && !shutdown
    {
      items := [];
      shutdown := false;
    }

    /** `is_queued`: whether a DOWN and whether an UP is pending for `gobj`. */
    function IsQueued(gobj: nat): (downUp: (bool, bool))
      reads this
    {
      (Item(gobj, Down) in items, Item(gobj, Up) in items)
    }

    /** `enqueue`: appends a notification; refused once the queue is shut down. */
    method Enqueue(gobj: nat, direction: Direction)
      modifies this
      ensures shutdown == old(shutdown)
      ensures items == if shutdown then old(items) else old(items) + [Item(gobj, direction)]
      ensures !shutdown ==> History(items, gobj) == History(old(items), gobj) + [direction]
      ensures !shutdown ==> IsQueued(gobj) == if direction == Down then (true, old(IsQueued(gobj)).1)
                                              else (old(IsQueued(gobj)).0, true)
    {
      if !shutdown {
        HistorySnoc(items, Item(gobj, direction), gobj);
        items := items + [Item(gobj, direction)];
      }
    }

    /** `cancel`: removes every pending entry for `gobj` and reports which
        directions were pending. */
    method Cancel(gobj: nat) returns (hadDown: bool, hadUp: bool)
      modifies this
      ensures (hadDown, hadUp) == old(IsQueued(gobj))
      ensures items == Without(old(items), gobj) && shutdown == old(shutdown)
      ensures IsQueued(gobj) == (false, false)
      ensures forall other :: other != gobj ==> IsQueued(other) == old(IsQueued(other))
    {
      hadDown, hadUp := Item(gobj, Down) in items, Item(gobj, Up) in items;
      ghost var was := items;
      items := Without(items, gobj);
      WithoutMembers(was, gobj, Item(gobj, Down));
      WithoutMembers(was, gobj, Item(gobj, Up));
      forall other | other != gobj
        ensures IsQueued(other) == (Item(other, Down) in was, Item(other, Up) in was)
      {
        WithoutMembers(was, gobj, Item(other, Down));
        WithoutMembers(was, gobj, Item(other, Up));
      }
    }

    /** `handle_toggle`: takes the oldest pending entry, if any, for the
        caller to dispatch. */
    method HandleToggle() returns (next: Option<Item>)
      modifies this
      ensures old(items) == [] ==> next == None && items == []
      ensures old(items) != [] ==> next == Some(old(items)[0]) && items == old(items)[1..]
      ensures shutdown == old(shutdown)
    {
      if items == [] {
        next := None;
      } else {
        next := Some(items[0]);
        items := items[1..];
      }
    }

    /** `shutdown`: no entry is accepted afterwards. */
    method Shutdown()
      modifies this
      ensures shutdown && items == old(items)
    {
      shutdown := true;
    }
  }
}
