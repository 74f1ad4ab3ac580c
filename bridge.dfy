/** The process-wide side of the object wrapper bridge in gi/object.cpp:
    the registry of wrapped objects, the toggle queue, the association of
    native objects with their instances, and the lifecycle operations that
    involve more than one instance. */
module ObjectBridge {
  import opened Wrappers
  import opened Seqs
  import opened Registry
  import opened ToggleQueues
  import opened Toggles
  import opened Instances

  /** The entry `it` is about a native object that points back to the
      instance `h`. */
  predicate ForInstance(it: Item, qdata: map<nat, nat>, h: nat) {
    it.gobj in qdata && qdata[it.gobj] == h
  }

  /** The rooting of the instance `h` once the entries `items` are handled
      in order, starting from `rooted`: an UP roots the wrapper when there is
      one (`hasWrapper`), a DOWN unroots it, and entries about other
      instances leave it alone. */
  function RootedAfter(rooted: bool, hasWrapper: bool, items: seq<Item>, qdata: map<nat, nat>, h: nat): bool
    decreases |items|
  {
    if items == [] then rooted
    else if ForInstance(items[0], qdata, h) then RootedAfter(items[0].direction == Up && hasWrapper, hasWrapper, items[1..], qdata, h)
    else RootedAfter(rooted, hasWrapper, items[1..], qdata, h)
  }

  /** Handling the entries `items` in order, starting from `rooted`, some
      DOWN about the instance `h` finds its wrapper rooted, and so unroots
      it. */
  function UnrootsAlong(rooted: bool, hasWrapper: bool, items: seq<Item>, qdata: map<nat, nat>, h: nat): bool
    decreases |items|
  {
    if items == [] then false
    else if ForInstance(items[0], qdata, h) then
      || (items[0].direction == Down && rooted)
      || UnrootsAlong(items[0].direction == Up && hasWrapper, hasWrapper, items[1..], qdata, h)
    else UnrootsAlong(rooted, hasWrapper, items[1..], qdata, h)
  }

  /** The direction of the last entry of `items` about the instance `h`. */
  function LastToggle(items: seq<Item>, qdata: map<nat, nat>, h: nat): (d: Option<Direction>)
    ensures d.None? <==> forall j :: 0 <= j < |items| ==> !ForInstance(items[j], qdata, h)
    decreases |items|
  {
    if items == [] then None
    else
      assert forall j :: 0 <= j < |items| - 1 ==> items[1..][j] == items[j + 1];
      var later := LastToggle(items[1..], qdata, h);
      if later.Some? then later
      else if ForInstance(items[0], qdata, h) then Some(items[0].direction)
      else None
  }

  /** The entry at `j` is the last one about `h`: its direction is the one
      `LastToggle` reports. */
  lemma {:induction false} LastToggleAt(items: seq<Item>, qdata: map<nat, nat>, h: nat, j: nat)
    requires j < |items| && ForInstance(items[j], qdata, h)
    requires forall k :: j < k < |items| ==> !ForInstance(items[k], qdata, h)
    ensures LastToggle(items, qdata, h) == Some(items[j].direction)
  {
    assert forall k :: 0 <= k < |items| - 1 ==> items[1..][k] == items[k + 1];
    if j > 0 {
      LastToggleAt(items[1..], qdata, h, j - 1);
    } else {
      assert LastToggle(items[1..], qdata, h).None?;
    }
  }

  /** Handling the entries in order leaves the instance as the last entry
      about it says (an UP roots only an instance with a wrapper), and as
      it was when there is none. */
  lemma {:induction false} RootedAfterLast(rooted: bool, hasWrapper: bool, items: seq<Item>, qdata: map<nat, nat>, h: nat)
    ensures RootedAfter(rooted, hasWrapper, items, qdata, h)
            == if LastToggle(items, qdata, h).None? then rooted else LastToggle(items, qdata, h).value == Up && hasWrapper
    decreases |items|
  {
    if items != [] {
      var r0 := if ForInstance(items[0], qdata, h) then items[0].direction == Up && hasWrapper else rooted;
      RootedAfterLast(r0, hasWrapper, items[1..], qdata, h);
    }
  }

  class Bridge {
    /** `wrapped_gobject_list` with the links of every instance. */
    const list: WrappedList
    /** `ToggleQueue::get_default()` */
    const queue: ToggleQueue
    /** The instances, addressed by handle: `instances[h].handle == h`. */
    const instances: seq<ObjectInstance>
    /** The `gjs::private` qdata: the instance a native object points back to. */
    var qdata: map<nat, nat>
    /** `GjsContextPrivate::destroying()` */
    var destroying: bool
    /** Set once a garbage collection has been scheduled. */
    var gcScheduled: bool

    /** Every handle names its own instance, every back pointer and every
        queued object resolves to an instance, and the registry holds only
        live pairs. */
    ghost predicate Valid()
      reads this, list, list.prev, list.next, queue, instances
    {
      && list.Valid()
      && |instances| == list.prev.Length
      && Handles(instances) && (forall h :: 0 <= h < |instances| ==> StateValid(instances[h].Snap()))
      && (forall g :: g in qdata ==> qdata[g] < |instances|)
      && (forall it :: it in queue.items ==> it.gobj in qdata)
      && (forall h :: 0 <= h < |instances| && list.Linked(h) ==> Live(instances[h].Snap()))
    }

    /** The handles whose weak wrapper the collector has just swept:
        `weak_pointer_was_finalized`, with the collector's verdict
        (`update_after_gc`) given as `swept`. */
    ghost function WeakPointerWasFinalized(swept: set<nat>): set<nat>
      reads this, instances
    {
      set h | 0 <= h < |instances| && instances[h].wrapper.Some? && !instances[h].rooted && h in swept
    }

    constructor (instances: seq<ObjectInstance>)
      requires Handles(instances) && forall h :: 0 <= h < |instances| ==> StateValid(instances[h].Snap())
      ensures Valid() && this.instances == instances
      ensures list.List == [] && queue.items == [] && !queue.shutdown
      ensures qdata == map[] && !destroying && !gcScheduled
    {
      this.instances := instances;
      list := new WrappedList(|instances|);
      queue := new ToggleQueue();
      qdata := map[];
      destroying, gcScheduled := false, false;
    }

    /** `associate_js_gobject`: a new instance takes the native object and
        its wrapper, points the object back at itself with qdata, and becomes
        the head of the registry. */
    method Associate(h: nat, gobj: nat, wrapper: nat)
      requires Valid() && h < |instances|
      requires !instances[h].rooted
      requires !instances[h].gobjDisposed && !instances[h].wrapperFinalized && h !in list.List
      modifies this`qdata, instances[h], list, list.prev, list.next
      ensures Valid()
      ensures instances[h].Snap()
           == old(instances[h].Snap()).(usesToggleRef := false, ptr := Some(gobj), wrapper := Some(wrapper))
      ensures qdata == old(qdata)[gobj := h]
      ensures list.List == [h] + old(list.List)
    {
      var inst := instances[h];
      inst.usesToggleRef := false;
      inst.ptr := Some(gobj);
      qdata := qdata[gobj := h];
      inst.wrapper := Some(wrapper);
      list.Link(h);
    }

    /** `wrapped_gobj_dispose_notify`: the native object of instance `h` was
        disposed; the instance leaves the registry. */
    method GObjDisposeNotify(h: nat)
      requires Valid() && h < |instances|
      modifies instances[h], list, list.prev, list.next
      ensures Valid() && instances[h].Snap() == old(instances[h].Snap()).(gobjDisposed := true)
      // the other instances keep their order
      ensures h in old(list.List) ==>
        list.List == old(list.List)[..IndexOf(old(list.List), h)] + old(list.List)[IndexOf(old(list.List), h) + 1..]
      ensures h !in old(list.List) ==> list.List == old(list.List)
      ensures forall x :: x in list.List <==> x in old(list.List) && x != h
    {
      instances[h].GObjDisposeNotify(list);
    }

    /** `context_dispose_notify` as the bridge receives it when the
        context is disposed: the registry keeps its unrooted instances, in
        order, and the bridge stays consistent. */
    method OnContextDispose()
      requires Valid()
      modifies list, list.prev, list.next, instances
      ensures Valid()
      ensures list.List == Filter(old(list.List), old(Rooted(instances)), false)
      ensures forall h :: 0 <= h < |instances| ==>
        instances[h].Snap() == if h in old(list.List) && h in old(Rooted(instances))
                               then Discarded(old(instances[h].Snap()))
                               else old(instances[h].Snap())
    {
      ghost var all := list.List;
      ContextDisposeNotify(list, instances);
      forall h: nat | h < |instances| && list.Linked(h) ensures Live(instances[h].Snap()) {
        list.LinkedIff(h);
        FilterMembers(all, old(Rooted(instances)), false, h);
      }
    }

    /** `toggle_down` of the instance behind `h`: a collection is scheduled
        when it unroots a wrapper outside of teardown. */
    method ToggleDown(h: nat)
      requires Valid() && h < |instances|
      modifies this`gcScheduled, instances[h]
      ensures Valid() && instances[h].Snap() == old(instances[h].Snap()).(rooted := false)
      ensures gcScheduled == (old(gcScheduled) || (old(instances[h].rooted) && !destroying))
    {
      var schedule := instances[h].ToggleDown(destroying);
      gcScheduled := gcScheduled || schedule;
    }

    /** `wrapped_gobj_toggle_notify` for the native object `gobj`: the
        decision of `Decide` is carried out on the instance and the queue, and
        a fatal decision aborts with its message. */
    method ToggleNotify(gobj: nat, isLastRef: bool, isMainThread: bool) returns (o: Outcome)
      requires Valid() && gobj in qdata
      modifies this`gcScheduled, queue, instances[qdata[gobj]]
      ensures Valid()
      ensures var d := Decide(destroying, isMainThread, old(queue.IsQueued(gobj)).0, old(queue.IsQueued(gobj)).1, isLastRef);
        && (o == if d.Fatal? then Outcome.Fatal(d.message) else Completed)
        && (queue.items == if d.Defer? && !queue.shutdown then old(queue.items) + [Item(gobj, d.direction)]
                           else old(queue.items))
        && (instances[qdata[gobj]].Snap() == match d
              case ToggleDownNow => old(instances[qdata[gobj]].Snap()).(rooted := false)
              case ToggleUpNow => old(instances[qdata[gobj]].Snap()).(rooted := instances[qdata[gobj]].wrapper.Some?)
              case _ => old(instances[qdata[gobj]].Snap()))
        && (gcScheduled == (old(gcScheduled)
                            || (d == ToggleDownNow && old(instances[qdata[gobj]].rooted) && !destroying)))
      ensures queue.shutdown == old(queue.shutdown)
    {
      var (downQueued, upQueued) := queue.IsQueued(gobj);
      var d := Decide(destroying, isMainThread, downQueued, upQueued, isLastRef);
      o := Completed;
      match d
      case Ignore =>
      case ToggleDownNow => ToggleDown(qdata[gobj]);
      case ToggleUpNow => instances[qdata[gobj]].ToggleUp();
      case Defer(direction) => queue.Enqueue(gobj, direction);
      case Fatal(message) => o := Outcome.Fatal(message);
    }

    /** The switch inside `ensure_uses_toggle_ref`: the instance `h` takes a
        toggle reference and roots its wrapper. */
    method SwitchToToggleRef(h: nat)
      requires Valid() && h < |instances| && !instances[h].usesToggleRef && !instances[h].rooted
      requires instances[h].wrapper.Some?
      modifies instances[h]
      ensures Valid() && instances[h].Snap() == old(instances[h].Snap()).(usesToggleRef := true, rooted := true)
    {
      var _ := instances[h].EnsureUsesToggleRef();
    }

    /** `ensure_uses_toggle_ref` on the instance `h` of a wrapper, whose
        native object points back to it. The first call switches to a toggle
        reference and roots the wrapper, which must not be rooted yet; the
        plain reference it then drops may have been the last other one
        (`lastRef`), which delivers a DOWN notification on the owner thread
        at once. Later calls change nothing. */
    method EnsureUsesToggleRef(h: nat, lastRef: bool) returns (o: Outcome)
      requires Valid() && h < |instances| && instances[h].wrapper.Some?
      requires instances[h].ptr.value in qdata && qdata[instances[h].ptr.value] == h
      modifies this`gcScheduled, queue, instances[h]
      ensures Valid() && queue.items == old(queue.items) && queue.shutdown == old(queue.shutdown)
      ensures old(instances[h].usesToggleRef) ==>
        o == Completed && instances[h].Snap() == old(instances[h].Snap()) && gcScheduled == old(gcScheduled)
      ensures !old(instances[h].usesToggleRef) && old(instances[h].rooted) ==>
        o.Fatal? && instances[h].Snap() == old(instances[h].Snap()) && gcScheduled == old(gcScheduled)
      ensures !old(instances[h].usesToggleRef) && !old(instances[h].rooted) && !lastRef ==>
        && o == Completed && gcScheduled == old(gcScheduled)
        && instances[h].Snap() == old(instances[h].Snap()).(usesToggleRef := true, rooted := true)
      // the DOWN unroots the new root unless the context is being destroyed;
      // it is fatal if any toggle is still queued for the object
      ensures !old(instances[h].usesToggleRef) && !old(instances[h].rooted) && lastRef ==>
        && (o.Fatal? <==> !destroying && old(queue.IsQueued(instances[h].ptr.value)) != (false, false))
        && instances[h].Snap() == old(instances[h].Snap()).(usesToggleRef := true, rooted := destroying || o.Fatal?)
        && gcScheduled == (old(gcScheduled) || (!destroying && o.Completed?))
    {
      if instances[h].usesToggleRef {
        return Completed;
      }
      if instances[h].rooted {
        return Outcome.Fatal("assertion failed: !wrapper_is_rooted()");
      }
      SwitchToToggleRef(h);
      o := Completed;
      if lastRef {
        o := ToggleNotify(instances[h].ptr.value, true, true);
      }
    }

    /** `associate_closure` on the instance `h`: the instance switches to a
        toggle reference first; a closure already associated with it is
        fatal, any other goes to the front of its closures. */
    method AssociateClosure(h: nat, closure: nat, lastRef: bool) returns (o: Outcome)
      requires Valid() && h < |instances| && instances[h].wrapper.Some?
      requires instances[h].ptr.value in qdata && qdata[instances[h].ptr.value] == h
      modifies this`gcScheduled, queue, instances[h]
      ensures Valid() && queue.items == old(queue.items) && queue.shutdown == old(queue.shutdown)
      ensures closure in old(instances[h].closures) ==> o.Fatal?
      ensures o.Completed? ==> && instances[h].usesToggleRef
                               && instances[h].closures == [closure] + old(instances[h].closures)
      ensures old(instances[h].usesToggleRef) ==>
        && (o.Completed? <==> closure !in old(instances[h].closures)) && gcScheduled == old(gcScheduled)
        && instances[h].Snap() == if o.Completed? then old(instances[h].Snap()).(closures := [closure] + old(instances[h].closures))
                                  else old(instances[h].Snap())
      // the switch finds the wrapper rooted: the assert fails and nothing changes
      ensures !old(instances[h].usesToggleRef) && old(instances[h].rooted) ==>
        o.Fatal? && instances[h].Snap() == old(instances[h].Snap()) && gcScheduled == old(gcScheduled)
      // the switch roots the wrapper; the DOWN of a last reference unroots it
      // again (unless the context is being destroyed) or is fatal with a
      // toggle queued; the closure is added unless that was fatal
      ensures !old(instances[h].usesToggleRef) && !old(instances[h].rooted) ==>
        && (o.Fatal? <==> || (lastRef && !destroying && old(queue.IsQueued(instances[h].ptr.value)) != (false, false))
                          || closure in old(instances[h].closures))
        && instances[h].Snap() == old(instances[h].Snap()).(
             usesToggleRef := true,
             rooted := !lastRef || destroying || old(queue.IsQueued(instances[h].ptr.value)) != (false, false),
             closures := if o.Completed? then [closure] + old(instances[h].closures) else old(instances[h].closures))
        && gcScheduled == (old(gcScheduled) || (lastRef && !destroying && old(queue.IsQueued(instances[h].ptr.value)) == (false, false)))
    {
      o := EnsureUsesToggleRef(h, lastRef);
      if o.Fatal? {
        return;
      }
      o := AddClosure(h, closure);
    }

    /** The set part of `associate_closure` on the instance `h`. */
    method AddClosure(h: nat, closure: nat) returns (o: Outcome)
      requires Valid() && h < |instances|
      modifies instances[h]
      ensures Valid() && (o.Completed? <==> closure !in old(instances[h].closures))
      ensures instances[h].Snap() == if o.Completed? then old(instances[h].Snap()).(closures := [closure] + old(instances[h].closures))
                                     else old(instances[h].Snap())
    {
      if closure in instances[h].closures {
        return Outcome.Fatal("This closure was already associated with this object");
      }
      instances[h].AddClosure(closure);
      o := Completed;
    }

    /** `toggle_handler` behind one successful `handle_toggle`: the oldest
        pending entry is taken off the queue and applied to the instance of
        its object. */
    method HandleToggle() returns (handled: bool)
      requires Valid()
      modifies queue, this`gcScheduled, instances
      ensures Valid() && handled == (old(queue.items) != [])
      ensures queue.items == if handled then old(queue.items)[1..] else old(queue.items)
      ensures queue.shutdown == old(queue.shutdown)
      // a DOWN that unroots a wrapper outside of teardown schedules a collection
      ensures gcScheduled == (old(gcScheduled) || (handled && old(queue.items)[0].direction == Down
                                                   && old(instances[qdata[queue.items[0].gobj]].rooted) && !destroying))
      ensures handled ==>
        var it := old(queue.items)[0];
        var h := qdata[it.gobj];
        && (instances[h].Snap() == if it.direction == Up
                                  then old(instances[h].Snap()).(rooted := instances[h].wrapper.Some?)
                                  else old(instances[h].Snap()).(rooted := false))
        && (forall x :: 0 <= x < |instances| && x != h ==> instances[x].Snap() == old(instances[x].Snap()))
      ensures !handled ==> forall x :: 0 <= x < |instances| ==> instances[x].Snap() == old(instances[x].Snap())
    {
      var next := queue.HandleToggle();
      handled := next.Some?;
      if handled {
        var h := qdata[next.value.gobj];
        label before:
        match next.value.direction
        case Up => instances[h].ToggleUp();
        case Down => ToggleDown(h);
        forall x | 0 <= x < |instances| && x != h
          ensures instances[x].Snap() == old@before(instances[x].Snap())
        {
          assert instances[x] != instances[h];
        }
      }
    }

    /** One round of `gjs_object_clear_toggles`: `handle_toggle`, stated as
        what it leaves for the remaining entries to do. For every instance,
        handling the remaining entries from its new rooting ends where
        handling all of them from its old rooting would have ended; and a
        DOWN that unroots it along the way is either this round's entry,
        which schedules the collection, or still ahead. */
    method ClearToggleStep() returns (more: bool)
      requires Valid()
      modifies queue, this`gcScheduled, instances
      ensures Valid() && more == (old(queue.items) != []) && queue.shutdown == old(queue.shutdown)
      ensures queue.items == if more then old(queue.items)[1..] else old(queue.items)
      ensures forall h :: 0 <= h < |instances| ==>
        instances[h].Snap() == old(instances[h].Snap()).(rooted := instances[h].rooted)
      ensures forall h :: 0 <= h < |instances| ==>
        RootedAfter(instances[h].rooted, instances[h].wrapper.Some?, queue.items, qdata, h)
        == RootedAfter(old(instances[h].rooted), instances[h].wrapper.Some?, old(queue.items), qdata, h)
      ensures forall h :: 0 <= h < |instances| ==>
        UnrootsAlong(old(instances[h].rooted), instances[h].wrapper.Some?, old(queue.items), qdata, h)
        == (|| (more && qdata[old(queue.items)[0].gobj] == h && old(queue.items)[0].direction == Down && old(instances[h].rooted))
            || UnrootsAlong(instances[h].rooted, instances[h].wrapper.Some?, queue.items, qdata, h))
      ensures gcScheduled == (old(gcScheduled) || (more && old(queue.items)[0].direction == Down
                                                   && old(instances[qdata[queue.items[0].gobj]].rooted) && !destroying))
    {
      more := HandleToggle();
    }

    /** `gjs_object_clear_toggles`: handles pending entries until the queue
        is empty; only the rooting of wrappers changes on the way. */
    method ClearToggles()
      requires Valid()
      modifies queue, this`gcScheduled, instances
      ensures Valid() && queue.items == [] && queue.shutdown == old(queue.shutdown)
      // only the rooting changes, and the last pending entry about an
      // instance decides it
      ensures forall h :: 0 <= h < |instances| ==>
        instances[h].Snap() == old(instances[h].Snap()).(rooted := instances[h].rooted)
      ensures forall h :: 0 <= h < |instances| ==>
        instances[h].rooted == if LastToggle(old(queue.items), qdata, h).None? then old(instances[h].rooted)
                               else LastToggle(old(queue.items), qdata, h).value == Up && old(instances[h].wrapper.Some?)
      // a collection is scheduled exactly when one was already, or some
      // DOWN unroots a wrapper outside of teardown
      ensures old(gcScheduled) ==> gcScheduled
      ensures forall h ::
        (0 <= h < |instances| && !destroying
         && UnrootsAlong(old(instances[h].rooted), old(instances[h].wrapper.Some?), old(queue.items), qdata, h))
        ==> gcScheduled
      ensures (&& !old(gcScheduled)
               && (destroying || forall h :: 0 <= h < |instances| ==>
                     !UnrootsAlong(old(instances[h].rooted), old(instances[h].wrapper.Some?), old(queue.items), qdata, h)))
              ==> !gcScheduled
    {
      ghost var quiet := !gcScheduled && (destroying || forall h :: 0 <= h < |instances| ==>
        !UnrootsAlong(instances[h].rooted, instances[h].wrapper.Some?, queue.items, qdata, h));
      var more := true;
      while more
        invariant Valid() && (!more ==> queue.items == []) && queue.shutdown == old(queue.shutdown)
        invariant forall h :: 0 <= h < |instances| ==>
          instances[h].Snap() == old(instances[h].Snap()).(rooted := instances[h].rooted)
        invariant forall h :: 0 <= h < |instances| ==>
          RootedAfter(instances[h].rooted, old(instances[h].wrapper.Some?), queue.items, qdata, h)
          == RootedAfter(old(instances[h].rooted), old(instances[h].wrapper.Some?), old(queue.items), qdata, h)
        invariant old(gcScheduled) ==> gcScheduled
        invariant forall h ::
          (0 <= h < |instances| && !destroying
           && UnrootsAlong(old(instances[h].rooted), old(instances[h].wrapper.Some?), old(queue.items), qdata, h))
          ==> gcScheduled || UnrootsAlong(instances[h].rooted, old(instances[h].wrapper.Some?), queue.items, qdata, h)
        invariant quiet ==> !gcScheduled && (destroying || forall h :: 0 <= h < |instances| ==>
          !UnrootsAlong(instances[h].rooted, old(instances[h].wrapper.Some?), queue.items, qdata, h))
        decreases |queue.items| + (if more then 1 else 0)
      {
        more := ClearToggleStep();
      }
      forall h | 0 <= h < |instances|
        ensures instances[h].rooted == if LastToggle(old(queue.items), qdata, h).None? then old(instances[h].rooted)
                                       else LastToggle(old(queue.items), qdata, h).value == Up && old(instances[h].wrapper.Some?)
      {
        RootedAfterLast(old(instances[h].rooted), old(instances[h].wrapper.Some?), old(queue.items), qdata, h);
      }
    }

    /** `gjs_object_shutdown_toggle_queue` */
    method ShutdownToggleQueue()
      requires Valid()
      modifies queue
      ensures Valid() && queue.shutdown && queue.items == old(queue.items)
    {
      queue.Shutdown();
    }

    /** The handles `removed` that a `remove_wrapped_gobjects_if` over the
        registry `all` unlinked for `pred` are distinct instances, selected
        by `pred`, that are no longer in the registry. */
    ghost predicate RemovedFor(all: seq<nat>, pred: set<nat>, removed: seq<nat>)
      reads this, list, instances
    {
      && Distinct(removed)
      && (forall x :: x in removed <==> x in all && x in pred)
      && (forall j :: 0 <= j < |removed| ==> removed[j] < |instances| && !list.Linked(removed[j]))
    }

    /** The first half of `remove_wrapped_gobjects_if`: unlinking every
        registered instance in `pred`, and the facts the action loop needs. */
    method RemoveWrappedIf(pred: set<nat>) returns (removed: seq<nat>, ghost all: seq<nat>)
      requires Valid()
      modifies list, list.prev, list.next
      ensures Valid() && all == old(list.List) && RemovedFor(all, pred, removed)
      ensures removed == Filter(all, pred, true) && list.List == Filter(all, pred, false)
      ensures forall h :: list.Linked(h) <==> old(list.Linked(h)) && h !in pred
    {
      all := list.List;
      ThreadsDistinct(list.List, list.Pos, list.prev[..], list.next[..], list.head);
      assert forall x :: x in all ==> x < |instances|;
      removed := list.RemoveIf(pred);
      FilterDistinct(all, pred, true);
      forall x ensures x in removed <==> x in all && x in pred {
        FilterMembers(all, pred, true, x);
      }
      forall j | 0 <= j < |removed| ensures removed[j] < |instances| && !list.Linked(removed[j]) {
        assert removed[j] in all;
      }
    }

    /** The action loop of `remove_wrapped_gobjects_if` in
        `prepare_shutdown`: each of the unlinked instances `removed`
        releases its native object. */
    method ReleaseRemoved(removed: seq<nat>, ghost all: seq<nat>, ghost pred: set<nat>)
      requires Valid() && RemovedFor(all, pred, removed)
      modifies instances
      ensures Valid()
      ensures forall h :: 0 <= h < |instances| ==>
        instances[h].Snap() == if h in removed then Released(old(instances[h].Snap())) else old(instances[h].Snap())
    {
      ReleaseEach(instances, removed);
      forall h | 0 <= h < |instances| && list.Linked(h) ensures Live(instances[h].Snap()) {
        assert h !in removed;
      }
    }

    /** `ToggleQueue::cancel` as the bridge calls it: dropping the pending
        entries of `gobj` keeps every remaining entry resolvable. */
    method CancelToggles(gobj: nat) returns (hadDown: bool, hadUp: bool)
      requires Valid()
      modifies queue
      ensures Valid() && queue.shutdown == old(queue.shutdown)
      ensures (hadDown, hadUp) == old(queue.IsQueued(gobj)) && queue.items == Without(old(queue.items), gobj)
      ensures forall it :: it in queue.items ==> it.gobj != gobj
    {
      ghost var was := queue.items;
      hadDown, hadUp := queue.Cancel(gobj);
      forall it | it in queue.items ensures it.gobj != gobj && it.gobj in qdata {
        WithoutMembers(was, gobj, it);
      }
    }

    /** The second half of `disassociate_js_gobject`, once no toggle entry
        is pending for the native object of `h`: the back pointer is unset
        and the instance is disassociated. */
    method Unassociate(h: nat)
      requires Valid() && h < |instances| && !list.Linked(h) && instances[h].ptr.Some?
      requires forall it :: it in queue.items ==> it.gobj != instances[h].ptr.value
      modifies this`qdata, instances[h]
      ensures Valid() && qdata == old(qdata) - {old(instances[h].ptr.value)}
      ensures instances[h].Snap() == Disassociated(old(instances[h].Snap()))
    {
      qdata := qdata - {instances[h].ptr.value};
      var _ := instances[h].Disassociate();
    }

    /** `disassociate_js_gobject` on the instance `h`, already out of the
        registry: its pending toggle entries are cancelled, and a DOWN
        without an UP (or an UP without a DOWN) is fatal; otherwise the back
        pointer is unset and the instance is disassociated. */
    method Disassociate(h: nat) returns (o: Outcome)
      requires Valid() && h < |instances| && !list.Linked(h) && instances[h].ptr.Some?
      modifies this`qdata, queue, instances[h]
      ensures Valid() && queue.shutdown == old(queue.shutdown)
      ensures queue.items == Without(old(queue.items), old(instances[h].ptr.value))
      ensures o.Fatal? <==> old(queue.IsQueued(instances[h].ptr.value)).0
                            != old(queue.IsQueued(instances[h].ptr.value)).1
      ensures o.Completed? ==> && qdata == old(qdata) - {old(instances[h].ptr.value)}
                               && instances[h].Snap() == Disassociated(old(instances[h].Snap()))
      ensures o.Fatal? ==> qdata == old(qdata) && instances[h].Snap() == old(instances[h].Snap())
    {
      var hadDown, hadUp := CancelToggles(instances[h].ptr.value);
      if hadDown != hadUp {
        return Outcome.Fatal("JS object wrapper is being released while toggle references are still pending");
      }
      Unassociate(h);
      o := Completed;
    }

    /** One round of the action loop of `update_heap_wrapper_weak_pointers`:
        `disassociate_js_gobject` on `h`, which the loop has not visited yet. */
    method DisassociateVisit(h: nat, ghost states: seq<State>, ghost done: set<int>, ghost selected: set<nat>)
      returns (o: Outcome)
      requires Valid() && h < |instances| && !list.Linked(h) && h !in done && h in selected
      requires Walked(instances, states, done, selected, Effect.Disassociate) && states[h].ptr.Some?
      modifies this`qdata, queue, instances[h]
      ensures Valid()
      ensures o.Completed? ==> Walked(instances, states, done + {h}, selected, Effect.Disassociate)
    {
      label before:
      o := Disassociate(h);
      forall x | 0 <= x < |instances| && x != h
        ensures instances[x].Snap() == old@before(instances[x].Snap())
      {
        assert instances[x] != instances[h];
      }
    }

    /** The action loop of `remove_wrapped_gobjects_if` in
        `update_heap_wrapper_weak_pointers`: each of the unlinked instances
        `removed` is disassociated, and a fatal disassociation ends the
        process. */
    method DisassociateRemoved(removed: seq<nat>, ghost all: seq<nat>, ghost pred: set<nat>) returns (o: Outcome)
      requires Valid() && RemovedFor(all, pred, removed)
      requires forall h :: h in pred ==> 0 <= h < |instances| && instances[h].wrapper.Some?
      modifies this`qdata, queue, instances
      ensures Valid()
      ensures o.Completed? ==> forall h :: 0 <= h < |instances| ==>
        instances[h].Snap() == if h in removed then Disassociated(old(instances[h].Snap()))
                               else old(instances[h].Snap())
    {
      ghost var states := seq(|instances|, h requires 0 <= h < |instances| reads instances => instances[h].Snap());
      ghost var selected := set x | x in removed;
      ghost var done: set<int> := {};
      forall j | 0 <= j < |removed| ensures states[removed[j]].ptr.Some? {
        assert removed[j] in pred;
      }
      for i := 0 to |removed|
        invariant Valid()
        invariant Walked(instances, states, done, selected, Effect.Disassociate) == true
        invariant forall x :: x in done <==> x in removed[..i]
        invariant forall j :: 0 <= j < |removed| ==> !list.Linked(removed[j])
      {
        PrefixStep(removed, i);
        o := DisassociateVisit(removed[i], states, done, selected);
        if o.Fatal? {
          return;
        }
        done := done + {removed[i]};
      }
      assert removed[..|removed|] == removed;
      o := Completed;
    }

    /** `update_heap_wrapper_weak_pointers`, run after a collection with the
        collector's verdict `swept`: every registered instance whose weak
        wrapper was swept leaves the registry and is disassociated. */
    method UpdateHeapWrapperWeakPointers(swept: set<nat>) returns (o: Outcome)
      requires Valid()
      modifies list, list.prev, list.next, this`qdata, queue, instances
      ensures Valid()
      ensures list.List == Filter(old(list.List), old(WeakPointerWasFinalized(swept)), false)
      ensures o.Completed? ==> forall h :: 0 <= h < |instances| ==>
        instances[h].Snap() == if h in old(list.List) && h in old(WeakPointerWasFinalized(swept))
                               then Disassociated(old(instances[h].Snap()))
                               else old(instances[h].Snap())
    {
      var finalized := set h: nat | h < |instances| && instances[h].wrapper.Some? && !instances[h].rooted && h in swept;
      assert finalized == WeakPointerWasFinalized(swept);
      var removed;
      ghost var all;
      removed, all := RemoveWrappedIf(finalized);
      o := DisassociateRemoved(removed, all, finalized);
    }

    /** `ObjectInstance::unlink` of the instance `h`. */
    method Unlink(h: nat)
      requires Valid() && h < |instances|
      modifies list, list.prev, list.next
      ensures Valid() && h !in list.List
      ensures h in old(list.List) ==>
        list.List == old(list.List)[..IndexOf(old(list.List), h)] + old(list.List)[IndexOf(old(list.List), h) + 1..]
      ensures h !in old(list.List) ==> list.List == old(list.List)
      ensures forall x :: list.Linked(x) <==> old(list.Linked(x)) && x != h
    {
      instances[h].Unlink(list);
    }

    /** `invalidate_all_closures` on the instance `h`. */
    method InvalidateClosures(h: nat) returns (invalidated: seq<nat>)
      requires Valid() && h < |instances|
      modifies instances[h]
      ensures Valid() && invalidated == old(instances[h].closures)
      ensures instances[h].Snap() == old(instances[h].Snap()).(closures := [])
    {
      invalidated := instances[h].InvalidateAllClosures();
    }

    /** The end of `~ObjectInstance`: the instance `h` gives back its
        native object, if it still holds one, and leaves the registry. The
        unlinking comes first here, where the source does it last: the two
        touch disjoint state, so the final state is the same, and the
        registry never holds a released instance. */
    method Retire(h: nat)
      requires Valid() && h < |instances|
      modifies list, list.prev, list.next, instances[h]
      ensures Valid() && h !in list.List && forall x :: list.Linked(x) <==> old(list.Linked(x)) && x != h
      ensures instances[h].Snap() == if old(instances[h].ptr).Some? then Released(old(instances[h].Snap()))
                                     else old(instances[h].Snap())
    {
      Unlink(h);
      if instances[h].ptr.Some? {
        var _ := instances[h].ReleaseNativeObject();
      }
    }

    /** The checks of `~ObjectInstance` on the native object of `h`, if it
        still holds one: one already freed (`refCount`) is fatal; otherwise
        its pending toggles are cancelled, and a DOWN without an UP is
        fatal. */
    method CheckFinalizable(h: nat, refCount: int) returns (o: Outcome)
      requires Valid() && h < |instances|
      modifies queue
      ensures Valid() && queue.shutdown == old(queue.shutdown)
      ensures o.Fatal? <==> instances[h].ptr.Some?
                            && (refCount <= 0 || old(queue.IsQueued(instances[h].ptr.value)) == (true, false))
      ensures o.Completed? ==>
        queue.items == if instances[h].ptr.Some? then Without(old(queue.items), instances[h].ptr.value)
                       else old(queue.items)
    {
      o := Completed;
      if instances[h].ptr.Some? {
        if refCount <= 0 {
          return Outcome.Fatal("Finalizing wrapper for an already freed object");
        }
        var hadDown, hadUp := CancelToggles(instances[h].ptr.value);
        if !hadUp && hadDown {
          o := Outcome.Fatal("Finalizing wrapper for an object that's scheduled to be unrooted");
        }
      }
    }

    /** `~ObjectInstance` for the instance `h` whose native object, if it
        still holds one, has the reference count `refCount`: the closures
        are invalidated, the checks of `CheckFinalizable` pass or are fatal,
        and then the instance releases its native object and leaves the
        registry. The back pointer of the native object is left as it was. */
    method Finalize(h: nat, refCount: int) returns (o: Outcome)
      requires Valid() && h < |instances|
      modifies list, list.prev, list.next, queue, instances[h]
      ensures Valid() && queue.shutdown == old(queue.shutdown) && instances[h].closures == []
      ensures o.Fatal? <==> old(instances[h].ptr).Some?
                            && (refCount <= 0 || old(queue.IsQueued(instances[h].ptr.value)) == (true, false))
      ensures o.Completed? ==>
        && h !in list.List && (forall x :: list.Linked(x) <==> old(list.Linked(x)) && x != h)
        && instances[h].Snap() == (if old(instances[h].ptr).Some? then Released(old(instances[h].Snap()))
                                   else old(instances[h].Snap())).(closures := [])
        && queue.items == if old(instances[h].ptr).Some? then Without(old(queue.items), old(instances[h].ptr.value))
                          else old(queue.items)
    {
      var _ := InvalidateClosures(h);
      o := CheckFinalizable(h, refCount);
      if o.Completed? {
        // a released instance holds no wrapper, so the discarding of a
        // rooted wrapper that follows in the source has nothing left to do
        Retire(h);
      }
    }

    /** `prepare_shutdown`: every registered instance whose wrapper is
        rooted leaves the registry and releases its native object; no other
        instance changes. */
    method PrepareShutdown()
      requires Valid()
      modifies list, list.prev, list.next, instances
      ensures Valid()
      ensures list.List == Filter(old(list.List), old(Rooted(instances)), false)
      ensures forall h :: 0 <= h < |instances| ==>
        instances[h].Snap() == if h in old(list.List) && h in old(Rooted(instances))
                               then Released(old(instances[h].Snap()))
                               else old(instances[h].Snap())
    {
      var rooted := set h: nat | h < |instances| && instances[h].rooted;
      assert rooted == Rooted(instances);
      var removed;
      ghost var all;
      removed, all := RemoveWrappedIf(rooted);
      ReleaseRemoved(removed, all, rooted);
    }
  }
}
