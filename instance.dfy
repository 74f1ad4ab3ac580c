/** The per-instance state of a wrapper pair (ObjectInstance / ObjectBase of
    gi/object.cpp) and the lifecycle methods that change only that state
    and the registry. */
module Instances {
  import opened Wrappers
  import opened Seqs
  import opened Registry

  /** How the native reference held by the wrapper is given back. */
  datatype Release = RemoveToggleRef(gobj: nat) | Unref(gobj: nat)

  /** The fields of an instance, as one value. */
  datatype State = State(ptr: Option<nat>, wrapper: Option<nat>, rooted: bool, usesToggleRef: bool,
                         gobjDisposed: bool, wrapperFinalized: bool, closures: seq<nat>)

  /** The state after `discard_wrapper`. */
  function Discarded(s: State): State {
    s.(wrapper := None, rooted := false)
  }

  /** The state after `release_native_object`. */
  function Released(s: State): State {
    s.(ptr := None, wrapper := None, rooted := false)
  }

  /** The state after a completed `disassociate_js_gobject`. */
  function Disassociated(s: State): State {
    s.(ptr := None, wrapper := None, rooted := false, wrapperFinalized := true, closures := [])
  }

  /** The state change a walk over the registry applies to each instance
      it selects. */
  datatype Effect = Discard | Release | Disassociate

  function Apply(e: Effect, s: State): State {
    match e
    case Discard => Discarded(s)
    case Release => Released(s)
    case Disassociate => Disassociated(s)
  }

  /** Only an existing wrapper can be rooted, a wrapper always has its
      native object, and no closure is held twice. */
  ghost predicate StateValid(s: State) {
    (s.rooted ==> s.wrapper.Some?) && (s.wrapper.Some? ==> s.ptr.Some?) && Distinct(s.closures)
  }

  /** A live pair: the native object is held and not disposed, and its
      wrapper exists. */
  predicate Live(s: State) {
    s.ptr.Some? && s.wrapper.Some? && !s.gobjDisposed && !s.wrapperFinalized
  }

  class ObjectInstance {
    /** The slot of this instance in the registry arena. */
    const handle: nat
    /** `m_ptr`: the wrapped native object. */
    var ptr: Option<nat>
    /** `m_wrapper`: the JS wrapper object, if it still exists. */
    var wrapper: Option<nat>
    /** Whether the wrapper is held as a GC root (strong) rather than weakly. */
    var rooted: bool
    /** `m_uses_toggle_ref` */
    var usesToggleRef: bool
    /** `m_gobj_disposed`: the native object has been disposed. */
    var gobjDisposed: bool
    /** `m_wrapper_finalized`: a JS wrapper existed and is gone. */
    var wrapperFinalized: bool
    /** `m_closures`: closures connected through this instance, newest first. */
    var closures: seq<nat>

    /** `StateValid` of the fields. */
    ghost predicate Valid()
      reads this
    {
      (rooted ==> wrapper.Some?) && (wrapper.Some? ==> ptr.Some?) && Distinct(closures)
    }

    constructor (handle: nat)
      ensures this.handle == handle && Valid()
      ensures ptr == None && wrapper == None && !rooted && !usesToggleRef
      ensures !gobjDisposed && !wrapperFinalized && closures == []
    {
      this.handle := handle;
      ptr, wrapper, rooted, usesToggleRef := None, None, false, false;
      gobjDisposed, wrapperFinalized, closures := false, false, [];
    }

    /** All fields at once. */
    function Snap(): State
      reads this
    {
      State(ptr, wrapper, rooted, usesToggleRef, gobjDisposed, wrapperFinalized, closures)
    }

    /** `check_gobject_disposed`: accessors give up on a disposed object. */
    predicate CheckGObjectDisposed()
      reads this
    {
      !gobjDisposed
    }

    /** `toggle_down`: the wrapper ends up unrooted; a collection is
        scheduled exactly when it was rooted and the context is not being
        destroyed. */
    method ToggleDown(destroying: bool) returns (scheduleGc: bool)
      requires Valid()
      modifies this`rooted
      ensures Valid() && Snap() == old(Snap()).(rooted := false)
      ensures scheduleGc == (old(rooted) && !destroying)
    {
      scheduleGc := false;
      if rooted {
        rooted := false;
        if !destroying {
          scheduleGc := true;
        }
      }
    }

    /** `toggle_up`: without a wrapper nothing happens; otherwise the
        wrapper ends up rooted. */
    method ToggleUp()
      requires Valid()
      modifies this`rooted
      ensures Valid() && Snap() == old(Snap()).(rooted := wrapper.Some?)
    {
      if wrapper.Some? && !rooted {
        rooted := true;
      }
    }

    /** `ensure_uses_toggle_ref`: the first call switches to a toggle
        reference and roots the wrapper; later calls change nothing.
        `switched` tells the caller that the plain reference was dropped. */
    method EnsureUsesToggleRef() returns (switched: bool)
      requires Valid()
      requires !usesToggleRef ==> !rooted && wrapper.Some?
      modifies this`usesToggleRef, this`rooted
      ensures Valid() && switched == !old(usesToggleRef)
      ensures Snap() == if switched then old(Snap()).(usesToggleRef := true, rooted := true) else old(Snap())
    {
      if usesToggleRef {
        return false;
      }
      usesToggleRef := true;
      rooted := true;
      switched := true;
    }

    /** `discard_wrapper`: forget the wrapper, rooted or not. */
    method DiscardWrapper()
      modifies this`wrapper, this`rooted
      ensures Valid() == Distinct(closures) && Snap() == Discarded(old(Snap()))
    {
      wrapper, rooted := None, false;
    }

    /** `release_native_object`: drops the wrapper and gives back the native
        reference along the path it was taken (toggle or plain). */
    method ReleaseNativeObject() returns (released: Option<Release>)
      requires Valid()
      modifies this`wrapper, this`rooted, this`ptr
      ensures Valid() && Snap() == Released(old(Snap()))
      ensures old(ptr).None? ==> released == None
      ensures old(ptr).Some? ==> released == Some(if usesToggleRef then RemoveToggleRef(old(ptr).value)
                                                  else Unref(old(ptr).value))
    {
      DiscardWrapper();
      released := None;
      if ptr.Some? {
        if usesToggleRef {
          released := Some(RemoveToggleRef(ptr.value));
        } else {
          released := Some(Unref(ptr.value));
        }
      }
      ptr := None;
    }

    /** The part of `disassociate_js_gobject` that changes the instance:
        every closure is invalidated, the native object is released, and the
        wrapper is marked finalized. */
    method Disassociate() returns (released: Option<Release>)
      requires Valid()
      modifies this`closures, this`wrapper, this`rooted, this`ptr, this`wrapperFinalized
      ensures Valid() && Snap() == Disassociated(old(Snap()))
      ensures released == if old(ptr).None? then None
                          else Some(if usesToggleRef then RemoveToggleRef(old(ptr).value) else Unref(old(ptr).value))
    {
      var _ := InvalidateAllClosures();
      released := ReleaseNativeObject();
      wrapperFinalized := true;
      wrapper := None;
    }

    /** `ObjectInstance::unlink` */
    method Unlink(list: WrappedList)
      requires list.Valid() && handle < list.prev.Length
      modifies list, list.prev, list.next
      ensures list.Valid() && handle !in list.List
      ensures handle in old(list.List) ==>
        list.List == old(list.List)[..IndexOf(old(list.List), handle)]
                     + old(list.List)[IndexOf(old(list.List), handle) + 1..]
      ensures handle !in old(list.List) ==> list.List == old(list.List)
      ensures forall h :: list.Linked(h) <==> old(list.Linked(h)) && h != handle
    {
      list.Unlink(handle);
    }

    /** `gobj_dispose_notify`: marks the native object disposed and takes the
        instance out of the registry. */
    method GObjDisposeNotify(list: WrappedList)
      requires list.Valid() && handle < list.prev.Length
      modifies this`gobjDisposed, list, list.prev, list.next
      ensures Snap() == old(Snap()).(gobjDisposed := true) && list.Valid() && handle !in list.List
      // the other instances keep their order
      ensures handle in old(list.List) ==>
        list.List == old(list.List)[..IndexOf(old(list.List), handle)]
                     + old(list.List)[IndexOf(old(list.List), handle) + 1..]
      ensures handle !in old(list.List) ==> list.List == old(list.List)
      ensures forall h :: h in list.List <==> h in old(list.List) && h != handle
      ensures forall h :: list.Linked(h) <==> old(list.Linked(h)) && h != handle
    {
      gobjDisposed := true;
      ghost var was := list.List;
      Unlink(list);
      forall h ensures h in list.List <==> h in was && h != handle {
        if handle in was {
          var k := IndexOf(was, handle);
          assert was == was[..k] + [handle] + was[k + 1..];
        }
      }
    }

    /** `handle_context_dispose` on the instance at the position between
        `before` and `after` in the registry: a rooted wrapper is discarded
        and the instance leaves the registry; an unrooted one is left alone. */
    method HandleContextDispose(list: WrappedList, ghost before: seq<nat>, ghost after: seq<nat>)
      requires Valid() && list.Valid() && handle < list.prev.Length
      requires list.List == before + [handle] + after
      modifies this`wrapper, this`rooted, list, list.prev, list.next
      ensures Valid() && list.Valid()
      ensures Snap() == if old(rooted) then Discarded(old(Snap())) else old(Snap())
      ensures list.List == if old(rooted) then before + after else old(list.List)
      ensures forall h :: list.Linked(h) <==> old(list.Linked(h)) && !(old(rooted) && h == handle)
    {
      if rooted {
        DiscardWrapper();
        ThreadsDistinct(list.List, list.Pos, list.prev[..], list.next[..], list.head);
        SpliceOut(before, handle, after);
        IndexOfDistinct(list.List, |before|);
        Unlink(list);
      }
    }

    /** The set part of `associate_closure`: a closure is associated at
        most once and goes to the front. */
    method AddClosure(closure: nat)
      requires Valid() && closure !in closures
      modifies this`closures
      ensures Valid() && closures == [closure] + old(closures)
    {
      closures := [closure] + closures;
    }

    /** `closure_invalidated_notify`: the closure leaves the set, the others
        keep their order. */
    method ClosureInvalidatedNotify(closure: nat)
      requires Valid()
      modifies this`closures
      ensures Valid() && closure !in closures
      ensures closures == Filter(old(closures), {closure}, false)
      ensures forall c :: c in closures <==> c in old(closures) && c != closure
    {
      FilterDistinct(closures, {closure}, false);
      forall c ensures c in Filter(closures, {closure}, false) <==> c in closures && c != closure {
        FilterMembers(closures, {closure}, false, c);
      }
      closures := Filter(closures, {closure}, false);
    }

    /** `invalidate_all_closures`: drains the set although invalidating a
        closure already removes it through its invalidation notifier.
        `invalidated` lists the closures in the order they were invalidated. */
    method InvalidateAllClosures() returns (invalidated: seq<nat>)
      requires Valid()
      modifies this`closures
      ensures Valid() && closures == []
      ensures invalidated == old(closures)
    {
      invalidated := [];
      while closures != []
        invariant Valid()
        invariant invalidated + closures == old(closures)
        decreases |closures|
      {
        var closure := closures[0];
        ghost var rest := closures[1..];
        assert closures == [closure] + rest;
        assert closure !in rest;
        // g_closure_invalidate runs the notifier registered by associate_closure
        ClosureInvalidatedNotify(closure);
        assert closures == rest by {
          FilterCons(closure, rest, {closure}, false);
          FilterAbsent(rest, closure);
        }
        // "Erase element if not already erased": nothing is left to erase
        ClosureInvalidatedNotify(closure);
        FilterAbsent(rest, closure);
        invalidated := invalidated + [closure];
      }
    }
  }

  /** Every handle names its own instance, so distinct handles are
      distinct objects. */
  ghost predicate Handles(instances: seq<ObjectInstance>) {
    forall h :: 0 <= h < |instances| ==> instances[h].handle == h
  }

  /** The handles whose wrapper is rooted. */
  ghost function Rooted(instances: seq<ObjectInstance>): set<nat>
    reads instances
  {
    set h | 0 <= h < |instances| && instances[h].rooted
  }

  /** A walk over the registry that started from `states` has applied
      `effect` to the instances in `done` that are also `selected`, and left
      every other instance as it was. */
  ghost predicate Walked(instances: seq<ObjectInstance>, states: seq<State>, done: set<int>,
                         selected: set<nat>, effect: Effect)
    reads instances
  {
    |states| == |instances|
    && forall h :: 0 <= h < |instances| ==>
         instances[h].Snap() == if h in done && h in selected then Apply(effect, states[h]) else states[h]
  }

  /** The walk of `context_dispose_notify` over the registry `all`, which
      held `states` and had `rooted` rooted when it started, has visited the
      first `k` nodes (the set `done`), kept those in `kept`, and is at
      `link`. */
  ghost predicate DisposeWalk(list: WrappedList, instances: seq<ObjectInstance>, all: seq<nat>, k: nat,
                              link: int, kept: seq<nat>, done: set<int>, rooted: set<nat>, states: seq<State>)
    reads list, list.prev, list.next, instances
  {
    && list.Valid() && |instances| == list.prev.Length && Handles(instances)
    && Distinct(all) && Walked(instances, states, done, rooted, Discard)
    && (forall h :: 0 <= h < |states| ==> StateValid(states[h]) && states[h].rooted == (h in rooted))
    && k <= |all|
    && link == (if k < |all| then all[k] else Nil)
    && kept == Filter(all[..k], rooted, false)
    && list.List == kept + all[k..]
    && (forall h :: h in done <==> h in all[..k])
  }

  /** `handle_context_dispose` on the registered instance `link`, which
      the walk has not visited yet: the walk has then visited it too. */
  method ContextDisposeVisit(list: WrappedList, instances: seq<ObjectInstance>, link: nat,
                             ghost before: seq<nat>, ghost after: seq<nat>, ghost done: set<int>,
                             ghost rooted: set<nat>, ghost states: seq<State>)
    requires list.Valid() && |instances| == list.prev.Length && Handles(instances)
    requires link < |instances| && list.List == before + [link] + after
    requires Walked(instances, states, done, rooted, Discard) && link !in done
    requires StateValid(states[link]) && states[link].rooted == (link in rooted)
    modifies list, list.prev, list.next, instances[link]
    ensures list.Valid() && Walked(instances, states, done + {link}, rooted, Discard)
    ensures list.List == if link in rooted then before + after else before + [link] + after
  {
    label before:
    instances[link].HandleContextDispose(list, before, after);
    forall h | 0 <= h < |instances| && h != link
      ensures instances[h].Snap() == old@before(instances[h].Snap())
    {
      assert instances[h] != instances[link];
    }
  }

  /** One round of `iterate_wrapped_gobjects` with the callback of
      `context_dispose_notify` on `link`, the `k`-th node of the walk: the
      successor is read before the callback may unlink `link`. */
  method ContextDisposeStep(list: WrappedList, instances: seq<ObjectInstance>, link: int, ghost all: seq<nat>,
                            ghost k: nat, ghost kept: seq<nat>, ghost done: set<int>, ghost rooted: set<nat>,
                            ghost states: seq<State>)
    returns (nxt: int, ghost kept': seq<nat>, ghost done': set<int>)
    // compared with `true` so that each is checked as one fact rather than
    // conjunct by conjunct
    requires DisposeWalk(list, instances, all, k, link, kept, done, rooted, states) == true && link != Nil
    modifies list, list.prev, list.next, instances
    ensures k < |all| && DisposeWalk(list, instances, all, k + 1, nxt, kept', done', rooted, states) == true
  {
    RemoveStep(all, k, rooted, Filter(all[..k], rooted, true), kept);
    PrefixStep(all, k);
    nxt := list.Successor(link, all, k, kept);
    ContextDisposeVisit(list, instances, link, kept, all[k + 1..], done, rooted, states);
    kept' := if link in rooted then kept else kept + [link];
    done' := done + {link};
  }

  /** `context_dispose_notify`: `iterate_wrapped_gobjects` with
      `handle_context_dispose`. Every registered instance whose wrapper is
      rooted discards it and leaves the registry; the other registered
      instances stay in order, and no other instance changes. */
  method ContextDisposeNotify(list: WrappedList, instances: seq<ObjectInstance>)
    requires list.Valid() && |instances| == list.prev.Length && Handles(instances)
    requires forall h :: 0 <= h < |instances| ==> StateValid(instances[h].Snap())
    modifies list, list.prev, list.next, instances
    ensures list.Valid()
    ensures list.List == Filter(old(list.List), old(Rooted(instances)), false)
    ensures forall h :: 0 <= h < |instances| ==>
      instances[h].Snap() == if h in old(list.List) && h in old(Rooted(instances))
                             then Discarded(old(instances[h].Snap()))
                             else old(instances[h].Snap())
  {
    ghost var all := list.List;
    ghost var rooted := Rooted(instances);
    ghost var states := seq(|instances|, h requires 0 <= h < |instances| reads instances => instances[h].Snap());
    ThreadsDistinct(list.List, list.Pos, list.prev[..], list.next[..], list.head);
    ghost var k := 0;
    ghost var kept: seq<nat> := [];
    ghost var done: set<int> := {};
    var link := list.head;
    while link != Nil
      // compared with `true` so that the invariant is checked as one fact
      // rather than conjunct by conjunct
      invariant DisposeWalk(list, instances, all, k, link, kept, done, rooted, states) == true
      decreases |all| - k
    {
      link, kept, done := ContextDisposeStep(list, instances, link, all, k, kept, done, rooted, states);
      k := k + 1;
    }
    assert all[..k] == all;
  }

  /** `release_native_object` on the instance `h`, which the walk has
      not visited yet: the walk has then visited it too. */
  method ReleaseVisit(instances: seq<ObjectInstance>, h: nat, ghost states: seq<State>, ghost done: set<int>,
                      ghost selected: set<nat>)
    requires Handles(instances) && h < |instances| && h !in done && h in selected
    requires Walked(instances, states, done, selected, Release) && StateValid(states[h])
    modifies instances[h]
    ensures Walked(instances, states, done + {h}, selected, Release)
  {
    label before:
    var _ := instances[h].ReleaseNativeObject();
    forall x | 0 <= x < |instances| && x != h
      ensures instances[x].Snap() == old@before(instances[x].Snap())
    {
      assert instances[x] != instances[h];
    }
  }

  /** The action loop of `prepare_shutdown`: `release_native_object` on
      each of the distinct instances `removed`, and on no other. */
  method ReleaseEach(instances: seq<ObjectInstance>, removed: seq<nat>)
    requires Handles(instances) && Distinct(removed)
    requires forall h :: 0 <= h < |instances| ==> StateValid(instances[h].Snap())
    requires forall j :: 0 <= j < |removed| ==> removed[j] < |instances|
    modifies instances
    ensures forall h :: 0 <= h < |instances| ==>
      instances[h].Snap() == if h in removed then Released(old(instances[h].Snap())) else old(instances[h].Snap())
  {
    ghost var states := seq(|instances|, h requires 0 <= h < |instances| reads instances => instances[h].Snap());
    ghost var selected := set x | x in removed;
    ghost var done: set<int> := {};
    for i := 0 to |removed|
      invariant Walked(instances, states, done, selected, Release) == true
      invariant forall x :: x in done <==> x in removed[..i]
    {
      PrefixStep(removed, i);
      ReleaseVisit(instances, removed[i], states, done, selected);
      done := done + {removed[i]};
    }
    assert removed[..|removed|] == removed;
  }
}
