# The gjs object wrapper bridge, modelled in Dafny

gjs pairs every reference-counted GObject it exposes with a garbage-collected
JavaScript wrapper. This project models the core of that bridge in
`gi/object.cpp`:

- the process-wide registry of live wrappers, an intrusive doubly linked list;
- the rooting state of each wrapper pair and its lifecycle operations:
  association, dispose, context dispose, release, disassociation and
  finalization;
- the dispatch of toggle-reference notifications and the deferred toggle queue;
- the set of closures attached to a wrapper;
- the canonical spelling of property names and the lookups over
  introspection metadata;
- the precedence rules of the lazy resolve hook;
- the guards of the dynamic field and property accessors and of `emit`.

It also models the leak report of `gjs/mem.cpp`.

The model is organised by module:

| file | module | what it holds |
|---|---|---|
| `wrappers.dfy` | `Wrappers` | `Option` and `Outcome` (`Completed` or a `Fatal` abort with its message). |
| `seqs.dfy` | `Seqs` | Sequence helpers: `Filter`, `IndexOf`, `Distinct`. |
| `registry.dfy` | `Registry` | `WrappedList`: the registry as an arena of `prev`/`next` arrays addressed by instance handles, plus the head. The ghost `List` is the handles in list order. |
| `toggle_queue.dfy` | `ToggleQueues` | The toggle queue as a sequence of pending `(object, direction)` entries. |
| `toggle.dfy` | `Toggles` | The decision `wrapped_gobj_toggle_notify` takes. |
| `instance.dfy` | `Instances` | `ObjectInstance`, with the fields `m_ptr`, `m_wrapper`, the rooting flag, `m_uses_toggle_ref`, `m_gobj_disposed`, `m_wrapper_finalized` and `m_closures`. Its per-instance methods, and the walks over the registry that change only instances and the list. |
| `bridge.dfy` | `ObjectBridge` | `Bridge`: the registry, the toggle queue, the instances, the qdata back pointers (native object to instance), and the context's `destroying` and "collection scheduled" flags. Holds the operations that involve several of these. |
| `names.dfy` | `Names` | `canonicalize_key` over a NUL-terminated character buffer. |
| `introspection.dfy` | `Introspection` | Introspection records and the linear searches over them. |
| `resolver.dfy` | `Resolver` | `resolve_impl` and `resolve_no_info`. |
| `accessors.dfy` | `Accessors` | Field and property getters and setters, and the argument check of `emit`. |
| `mem.dfy` | `Memory` | The counters and `gjs_memory_report`. |

Native objects, wrappers and closures are represented by natural numbers.
Each instance is addressed by its handle, its index in `Bridge.instances`.
The `g_error` calls become an `Outcome.Fatal` carrying the message. So do the
`g_assert` checks of `ensure_uses_toggle_ref` and `associate_closure` in
`Bridge.EnsureUsesToggleRef` and `Bridge.AddClosure`. Some asserts are
preconditions instead, because callers are expected to meet them:

- `Bridge.Associate` requires the wrapper unrooted, the `g_assert` of
  `associate_js_gobject`;
- `ObjectInstance.EnsureUsesToggleRef` requires an unrooted wrapper for the
  switch;
- `ObjectInstance.AddClosure` requires a closure that is not yet in the set.

The `g_assert` of `prepend`, that the node is the instance's own link, holds
by construction, since a node is addressed by its instance's handle.

Names are sequences of characters, and a character stands for one byte of
the UTF-8 name.

## Model

| member | source | states |
|---|---|---|
| Registry.WrappedList.Prepend | gi/object.cpp:107-122 | Node `x` is spliced in just before node `h`: `next[x] == h` and `prev[h] == x`. When `h` had a predecessor `p`, `next[p] == x` and `prev[x] == p`. No other link changes. |
| Registry.WrappedList.UnlinkNode | gi/object.cpp:125-133 | The neighbours of `x` are joined to each other and both links of `x` are cleared. No other link changes. |
| Registry.WrappedList.Link | gi/object.cpp:151-155 | The unlinked `x` becomes the head and the list becomes `[x] + old list`. `next[x]` is the old head, and the old head's `prev` is `x`. The registry stays well threaded. |
| Registry.LinkThreads | gi/object.cpp:107-122 | Prepending an unlinked node to the head of a well-threaded list yields a well-threaded list `[x] + l`. |
| Registry.WrappedList.Unlink | gi/object.cpp:157-161 | A linked `x` leaves its position; the other nodes keep their relative order. The head moves on when `x` was the head. Both links of `x` end up cleared. Unlinking an unlinked node changes nothing. |
| Registry.UnlinkThreads | gi/object.cpp:125-133 | Unlinking the `k`-th node of a well-threaded list, and moving the head when it was the head, leaves a well-threaded list without it. |
| Registry.ThreadsDistinct | gi/object.cpp:107-161 | A well-threaded registry never holds a handle twice. |
| Registry.WrappedList.Size | gi/object.cpp:136-149 | The count is the number of nodes from `x` to the tail, `x` included: `|List| - index of x`. It is always at least 1, and exactly 1 for an unlinked node. |
| Registry.WrappedList.Visit | gi/object.cpp:1037-1058 | One round of the iteration: the successor is read before the callback runs, and the callback unlinks the node exactly when the predicate holds. |
| Registry.WrappedList.RemoveIf | gi/object.cpp:1048-1058 | `removed` is exactly the nodes satisfying the predicate, in list order. The list keeps exactly the others, in their original order. |
| Seqs.FilterMembers | gi/object.cpp:1048-1058 | Filtering keeps an element exactly when the predicate verdict matches. |
| ToggleQueues.ToggleQueue.Enqueue | gi/object.cpp:1224 | An entry is appended to the object's history and sets its queued flag for that direction. After shutdown nothing is accepted. |
| ToggleQueues.ToggleQueue.Cancel | gi/object.cpp:1426 | Returns the `(down, up)` flags that were queued for the object and drops exactly its entries. Afterwards nothing is queued for it, and every other object's flags are unchanged. |
| ToggleQueues.WithoutKeepsOthers | gi/object.cpp:1426 | Cancelling one object leaves the pending history of every other object unchanged. |
| ToggleQueues.WithoutMembers | gi/object.cpp:1569 | After cancelling `gobj`, an entry is pending exactly when it was pending before and is not about `gobj`. |
| ToggleQueues.HistoryMembers | gi/object.cpp:1207 | A direction is in an object's history exactly when an entry for it is queued. |
| ToggleQueues.ToggleQueue.HandleToggle | gi/object.cpp:1262 | The oldest pending entry is taken off, if there is one. |
| ToggleQueues.ToggleQueue.Shutdown | gi/object.cpp:1270 | The queue is shut down and its entries are kept. |
| Toggles.Decide | gi/object.cpp:1163-1242 | Dispatch rules for one notification. While the context is destroying, every notification is ignored, and nothing else is. An edge is applied inline only on the owner thread and only when nothing is queued for the object. A DOWN on the owner thread with anything queued is fatal. An UP on the owner thread with an UP queued and no DOWN queued is fatal. Every other edge off the owner thread, and an UP behind a queued DOWN, is deferred with its own direction. |
| Instances.ObjectInstance.ToggleDown | gi/object.cpp:1089-1120 | The wrapper ends up unrooted and nothing else changes. A collection is scheduled exactly when the wrapper was rooted and the context is not being destroyed. |
| Instances.ObjectInstance.ToggleUp | gi/object.cpp:1123-1145 | Without a wrapper nothing happens; otherwise the wrapper ends up rooted. Nothing else changes. |
| Instances.ObjectInstance.EnsureUsesToggleRef | gi/object.cpp:1374-1402 | The first call switches to a toggle reference and roots the wrapper; later calls change nothing. |
| Instances.ObjectInstance.DiscardWrapper | gi/object.cpp:1245-1247 | The wrapper is forgotten and unrooted. |
| Instances.ObjectInstance.ReleaseNativeObject | gi/object.cpp:1245-1253 | The wrapper is discarded and `m_ptr` cleared. The native reference is given back: by removing the toggle reference when the instance uses one, by a plain unref otherwise. |
| Instances.ObjectInstance.Disassociate | gi/object.cpp:1430-1443 | Afterwards the closure set is empty, the native pointer and the wrapper are gone, the wrapper is unrooted and `m_wrapper_finalized` is set. The native reference is released as `ReleaseNativeObject` does. |
| Instances.ObjectInstance.GObjDisposeNotify | gi/object.cpp:1030-1034 | The instance is marked disposed and leaves the registry. The other instances keep their order, and an instance that was not registered leaves the registry as it was. `m_ptr` is kept. |
| Instances.ObjectInstance.HandleContextDispose | gi/object.cpp:1080-1086 | A rooted wrapper is discarded and leaves the registry. An unrooted one is left alone. |
| Instances.ObjectInstance.AddClosure | gi/object.cpp:1728 | The new closure is put at the front of the set. |
| Instances.ObjectInstance.ClosureInvalidatedNotify | gi/object.cpp:1733-1736 | The closure leaves the set, and the others keep their order. |
| Instances.ObjectInstance.InvalidateAllClosures | gi/object.cpp:1404-1415 | The set is drained in order, every closure is invalidated once, and the set ends empty, although each invalidation may itself remove the closure being processed. |
| Instances.ContextDisposeNotify | gi/object.cpp:1069-1086 | Every registered instance whose wrapper is rooted is discarded and unlinked. The registry keeps the others in order, and instances outside the registry are untouched. |
| Instances.ReleaseEach | gi/object.cpp:1059-1060 | Every removed instance releases its native object; no other instance changes. |
| ObjectBridge.Bridge.constructor | gi/object.cpp:1289-1292 | An empty registry and toggle queue, no back pointers. |
| ObjectBridge.Bridge.Associate | gi/object.cpp:1356-1371 | The instance takes the native object and the wrapper, unrooted and without a toggle reference. The native object points back to it, and it becomes the head of the registry. |
| ObjectBridge.Bridge.GObjDisposeNotify | gi/object.cpp:1021-1034 | The instance is marked disposed and leaves the registry. The others stay, in their order. |
| ObjectBridge.Bridge.OnContextDispose | gi/object.cpp:1069-1086 | As `Instances.ContextDisposeNotify`, on the bridge's registry and instances. |
| ObjectBridge.Bridge.ToggleDown | gi/object.cpp:1089-1120 | `toggle_down` of an instance, with the collection recorded on the context. |
| ObjectBridge.Bridge.ToggleNotify | gi/object.cpp:1163-1242 | Carries out the `Decide` verdict for the instance that the native object points back to. An ignored notification changes nothing. An inline DOWN unroots the wrapper and scheduled a collection exactly when it was rooted and the context is live. An inline UP roots an existing wrapper. A deferred edge is appended to the queue with its direction. A fatal verdict aborts with its message and changes nothing. |
| ObjectBridge.Bridge.SwitchToToggleRef | gi/object.cpp:1394-1395 | The instance takes a toggle reference and roots its wrapper. |
| ObjectBridge.Bridge.EnsureUsesToggleRef | gi/object.cpp:1374-1402 | An instance already on a toggle reference is left alone. A rooted wrapper fails the assertion. Otherwise the instance switches and is rooted. When the final unref drops the count to one, the DOWN it delivers on the owner thread unroots the wrapper again and schedules a collection. That DOWN is ignored while the context is destroying, and is fatal when a toggle is still queued for the object. |
| ObjectBridge.Bridge.AddClosure | gi/object.cpp:1725-1728 | A closure already in the set is fatal and changes nothing. Otherwise it is put at the front. |
| ObjectBridge.Bridge.AssociateClosure | gi/object.cpp:1719-1731 | A duplicate closure is fatal. A completed association leaves the instance on a toggle reference, with the closure at the front of its set. An instance already on a toggle reference completes exactly when the closure is new, and changes nothing else. A rooted wrapper without a toggle reference fails the switch and nothing changes. Otherwise the instance switches to a toggle reference and is rooted. The DOWN delivered for a last reference unrooted it again, unless the context is being destroyed or a toggle is queued; a queued toggle is fatal. The call is fatal exactly when that DOWN is, or when the closure is a duplicate. A collection is scheduled exactly when that DOWN unroots the wrapper. |
| ObjectBridge.Bridge.HandleToggle | gi/object.cpp:1147-1161 | The oldest entry is taken off the queue and applied to its instance: UP roots an existing wrapper, DOWN unroots. No other instance changes. A DOWN that finds the wrapper rooted outside of teardown schedules a collection, and nothing else does. |
| ObjectBridge.Bridge.ClearToggles | gi/object.cpp:1259-1264 | The queue is drained, and instances change only in their rooting flag. The last pending entry about an instance decides its rooting: an UP roots it when it has a wrapper, a DOWN unroots it. An instance without an entry keeps its rooting. A collection ends up scheduled exactly when one already was, or when, outside of teardown, some drained DOWN finds its wrapper rooted at the point it is handled. |
| ObjectBridge.Bridge.ClearToggleStep | gi/object.cpp:1262 | One `handle_toggle` round. For every instance, handling the remaining entries from its new rooting ends where handling all of them from its old rooting would have. A DOWN that unroots it along the way is either this round's entry or still ahead, and only this round's entry schedules a collection now. |
| ObjectBridge.LastToggle | gi/object.cpp:1146-1160 | No direction is reported exactly when no entry is about the instance. |
| ObjectBridge.LastToggleAt | gi/object.cpp:1146-1160 | The direction reported is that of the last entry about the instance. |
| ObjectBridge.RootedAfterLast | gi/object.cpp:1146-1160 | Handling the entries in order leaves the instance rooted as the last entry about it says, an UP rooting only an instance with a wrapper. Without such an entry the rooting is unchanged. |
| ObjectBridge.Bridge.ShutdownToggleQueue | gi/object.cpp:1267-1271 | The queue is shut down with its entries kept. |
| ObjectBridge.Bridge.RemoveWrappedIf | gi/object.cpp:1048-1058 | The first half of `remove_wrapped_gobjects_if`: the matching instances are unlinked and returned in list order, and the others stay linked in order. |
| ObjectBridge.Bridge.ReleaseRemoved | gi/object.cpp:1059-1060 | The action half for `prepare_shutdown`: each removed instance releases its native object, and no other instance changes. |
| ObjectBridge.Bridge.PrepareShutdown | gi/object.cpp:1279-1287 | Every registered instance with a rooted wrapper leaves the registry and releases its native object. Nothing else changes. |
| ObjectBridge.Bridge.CancelToggles | gi/object.cpp:1425-1426 | The object's pending entries are dropped, and their flags are returned. |
| ObjectBridge.Bridge.Unassociate | gi/object.cpp:1433-1443 | The back pointer is removed, and the instance ends in the `Disassociated` state. |
| ObjectBridge.Bridge.Disassociate | gi/object.cpp:1418-1444 | The object's toggle entries are cancelled. An asymmetric cancellation (DOWN without UP or UP without DOWN) is fatal and leaves the instance and the back pointers untouched. Otherwise the back pointer is removed, the closure set is emptied, the native pointer and wrapper are cleared and `m_wrapper_finalized` is set. |
| ObjectBridge.Bridge.DisassociateVisit | gi/object.cpp:1059-1060 | One round of the action loop: a completed disassociation of the instance, with no other instance changed. |
| ObjectBridge.Bridge.DisassociateRemoved | gi/object.cpp:1059-1060 | When every disassociation completes, exactly the removed instances end `Disassociated`. |
| ObjectBridge.Bridge.UpdateHeapWrapperWeakPointers | gi/object.cpp:1315-1340 | The instances whose unrooted wrapper was swept leave the registry, and the others stay in order. When no disassociation is fatal, exactly those instances end `Disassociated`. |
| ObjectBridge.Bridge.Unlink | gi/object.cpp:157-161 | `ObjectInstance::unlink` on the bridge's registry. |
| ObjectBridge.Bridge.InvalidateClosures | gi/object.cpp:1554 | The closure set of the instance is drained, and nothing else changes. |
| ObjectBridge.Bridge.Retire | gi/object.cpp:1578-1595 | The instance leaves the registry and, if it still holds its native object, releases it. |
| ObjectBridge.Bridge.CheckFinalizable | gi/object.cpp:1557-1576 | Finalizing an instance that holds a native object is fatal when its reference count is not positive, or when only a DOWN was pending for it. Otherwise its pending toggles are cancelled. |
| ObjectBridge.Bridge.Finalize | gi/object.cpp:1551-1598 | The closures are invalidated. Finalization is fatal exactly as `CheckFinalizable` says. Otherwise the instance releases its native object, leaves the registry, and the object's toggle entries are gone. |
| Names.CanonicalChar | gi/object.cpp:587-588 | The result is `-`, a digit or an ASCII letter, and equals its input exactly when the input is one. |
| Names.CanonicalKeeps | gi/object.cpp:582-590 | `-`, digits and ASCII letters stay where they are, every other character becomes `-`, and the key has the same length. |
| Names.CanonicalIdempotent | gi/object.cpp:582-590 | Canonicalizing twice is the same as canonicalizing once. |
| Names.StrLen | gi/object.cpp:583 | The C string length: the characters before the first NUL, or the whole buffer. |
| Names.CanonicalizeKey | gi/object.cpp:582-590 | The C string in the buffer is canonicalized in place. Its terminating NUL and everything after it are untouched, and its length is unchanged. |
| Names.CanonicalCopy | gi/object.cpp:702-703 | A NUL-terminated copy canonicalized in place holds `Canonical(s)`. |
| Introspection.FieldIndex | gi/object.cpp:366-371 | The first position holding a field of that name, or the end. |
| Introspection.LookupFieldFirst | gi/object.cpp:360-377 | The first field of that name decides: it is found when readable, and nothing is found otherwise, even when a later field of the same name is readable. |
| Introspection.LookupFieldAbsent | gi/object.cpp:373-374 | Without a field of that name nothing is found. |
| Introspection.LookupFieldInfo | gi/object.cpp:360-377 | The fields are searched in order, the loop stops at the first name that matches, and a field that is not readable is not returned. |
| Introspection.IsGInterfacePropertyName | gi/object.cpp:594-607 | True exactly when the interface has a property of that (canonical) name. |
| Introspection.IsGObjectPropertyName | gi/object.cpp:694-723 | True exactly when the canonical spelling of the name is a property of the class or of one of its interfaces. |
| Introspection.FirstNamed | gi/object.cpp:660-661 | The record found has the name looked up and belongs to the list; when none is found, no record has that name. |
| Introspection.InterfacesMethod | gi/object.cpp:829-830 | A method found has the name looked up. Nothing is found exactly when no interface has a method of that name. |
| Introspection.InterfacesMethodFirst | gi/object.cpp:829-830 | The first interface with a method of that name provides it. |
| Introspection.FindMethodUsingInterfaces | gi/object.cpp:829-830 | A method found has the name looked up. The class's own method wins. Nothing is found exactly when neither the class nor any of its interfaces has a method of that name. |
| Introspection.FindMethodFromInterface | gi/object.cpp:829-830 | Without a method of its own, the class gets the method of the first interface that has one. |
| Introspection.InterfacesVFunc | gi/object.cpp:565-566 | A virtual function found has the name looked up. Nothing is found exactly when no interface has one of that name. |
| Introspection.FindVFuncUsingInterfaces | gi/object.cpp:565-566 | The class's own virtual function wins. Nothing is found exactly when neither the class nor an interface has one of that name. |
| Introspection.VFuncInParents | gi/object.cpp:567-573 | A virtual function found on an ancestor has the name looked up. Nothing is found exactly when no ancestor has one of that name. |
| Introspection.VFuncInNearestParent | gi/object.cpp:567-573 | The nearest ancestor with a virtual function of that name provides it. |
| Introspection.FindVFuncOnParents | gi/object.cpp:553-579 | Searches the class with its interfaces, then each ancestor on its own. `definedByParent` is set as soon as the class itself lacks the function, whether or not an ancestor has it. |
| Resolver.LazyProperty | gi/object.cpp:609-638 | A property is defined exactly when the object does not already have the name. |
| Resolver.NoInfo | gi/object.cpp:640-690 | Only real methods of the interfaces are defined, and a method defined belongs to one of them. A property is defined only when properties are asked for, the name is new and some interface has that property. |
| Resolver.NoInfoFirstHit | gi/object.cpp:654-685 | The first interface that has a real method of that name, or the property when properties are asked for, decides. Its method is defined, or else its property unless the name is already taken. |
| Resolver.NoInfoNoHit | gi/object.cpp:687-689 | When no interface has such a method or property, nothing is defined. |
| Resolver.NoInfoHit | gi/object.cpp:654-685 | When some interface has such a method or property, something is defined, unless only a property is found and the name is taken. |
| Resolver.ResolveNoInfo | gi/object.cpp:640-690 | The interface loop of `resolve_no_info` computes `NoInfo`. Interfaces without introspection data are skipped. |
| Resolver.Resolve | gi/object.cpp:735-859 | Resolution precedence. A class defined in JS resolves through its interfaces alone, properties included. For a `vfunc_` name that the class, its interfaces or an ancestor defines, the vfunc decides alone: it is defined unless inherited and unchanged. Otherwise a property of the class or its interfaces becomes the lazy property. Else a readable field is defined, read-only exactly when not writable, unless the name is taken. Else a method of the class or its interfaces is defined when it is a real method. Only when there is none of these are the methods of the type interfaces tried. Conversely, a property, field or method is defined only in its case. |
| Resolver.ResolveImpl | gi/object.cpp:735-859 | The steps of `resolve_impl` compute `Resolve`. |
| Accessors.FieldGetter | gi/object.cpp:379-431 | A prototype or disposed object is skipped, and nothing else is. Only scalar-typed fields are ever read. The other type tags, and a failed field read, throw. |
| Accessors.FieldSetter | gi/object.cpp:490-530 | No field is ever written. A writable field only logs a message, and any other field throws the read-only error carrying its name. |
| Accessors.PropGetter | gi/object.cpp:306-357 | A property overridden in JS, a prototype and a disposed object are skipped. An unreadable property gives `undefined`. Only a readable property is fetched. |
| Accessors.PropSetter | gi/object.cpp:435-488 | Only a writable property that is not overridden in JS is ever written. An unwritable one throws the read-only error with its name, and an unknown one fails. |
| Accessors.EmitCheck | gi/object.cpp:1811-1847 | A disposed object is skipped. Without a signal-name argument the call fails. A signal is emitted only when it exists and exactly one argument per parameter follows the name. The unsigned `argc - 1` never wraps, because `argc >= 1` has been established. |
| Accessors.ResolvedFieldAccess | gi/object.cpp:395-431 | A field the resolve hook defines is read when its type is scalar. Its setter throws exactly when the hook marked it read-only. |
| Memory.MemCounters.constructor | gjs/mem.cpp:36-53 | Every counter, `everything` included, starts at zero. |
| Memory.MemCounters.MemoryReport | gjs/mem.cpp:84-121 | The total is the sum of all 18 category counters; `everything` is not among them. A mismatch is only reported, never fatal. Every category is listed, in array order and with in-bounds indices, exactly when `everything > 0`. The report aborts exactly when `everything > 0` and the caller asked to die on leaks. No counter is written. |
| Memory.SumSnoc | gjs/mem.cpp:99-101 | Accumulating one more counter adds its value to the sum. |

## Left out

- gi/toggle.cpp is not part of this model. The toggle queue is modelled by the operations `is_queued`, `enqueue`, `cancel`, `handle_toggle` and `shutdown` as the bridge uses them: a FIFO sequence of entries. Its locking and cross-thread delivery are not modelled.
- JSAPI plumbing is out of scope:
  - rooting through `JS::Heap` is a boolean, and the wrapper is an optional handle;
  - property definition is the `Resolution` that would be defined;
  - a thrown exception is an `Access` value;
  - the class and constructor tables and `JS_Enumerate` are not modelled.
- Calls into GLib and the garbage collector become parameters:
  - the collector's `update_after_gc` verdict is the `swept` set of `UpdateHeapWrapperWeakPointers`;
  - the native reference count is `Finalize`'s `refCount`;
  - `is_vfunc_unchanged` is `vfuncUnchanged`;
  - `g_field_info_get_field` and the value marshalling calls are `readOk` and `convertOk`;
  - `gjs_parse_call_args` is `nameParsed`, and `g_signal_parse_name` and `g_signal_query` are `signal`.
- Adding and removing weak-reference hooks (`g_object_weak_ref`/`unref`) and `ensure_weak_pointer_callback` are left out: they only register callbacks.
- `init_impl`, `init_custom_class_from_gobject`, `new_for_gobject`, `hook_up_vfunc_impl`, `find_vfunc_info`, `connect_impl`, the emission itself, `check_js_object_finalized`, `lookup_cached_field_info`, `find_param_spec_from_id` and `new_enumerate_impl` are out of scope. They are construction through GObject floating references, raw struct-offset writes, and foreign calls. The field info and the param spec they would find are given to the accessors directly.
- `Names.Canonical`: a character stands for one byte of the name. `canonicalize_key` rewrites the bytes of a UTF-8 string, so for a name with a multi-byte character such as "é" the source writes one `-` per byte and the model writes one per character. The model does not decode UTF-8, and `Names.CanonicalizeKey` counts lengths in characters.
- `gjs_hyphen_from_camel` is not part of this model. Its result is the `hyphenated` parameter of the property lookups.
- Prototypes own no native object. `associate_closure` on a prototype skips `ensure_uses_toggle_ref`; the model's `AssociateClosure` covers instances only.
- `ObjectBridge.Bridge.ToggleNotify` omits the type name from its fatal messages. It models `wrapped_gobj_toggle_notify` only for native objects that have an instance; `for_gobject` on any other object is outside the model.
- `ObjectBridge.Bridge.EnsureUsesToggleRef` models the re-entrant notification of the final `g_object_unref` only as the owner-thread DOWN toggle it delivers when `lastRef` says the count drops to one.
- `ObjectBridge.Bridge.UpdateHeapWrapperWeakPointers` does not state the queue and back-pointer changes of each disassociation. `Bridge.Disassociate` states them for one instance. After a fatal disassociation it only states the registry.
- `ObjectBridge.Bridge.Finalize` performs the source's unlink before the release rather than after it. The final state is the same, and the registry never holds a released instance. The discarding of a still-rooted wrapper after the release is not modelled, because after a release no wrapper is left.
- `Memory.MemCounters.MemoryReport` does not model 32-bit overflow of `total_objects`; it sums unbounded integers. The debug log lines are the `countsAddUp` flag and the `listing`. The increments and decrements of the counters (`GJS_INC_COUNTER`/`GJS_DEC_COUNTER`, in a header that is not part of this model) are not modelled.
- `Accessors.EmitCheck` stops at the argument-count check. The marshalling of arguments and `g_signal_emitv` are foreign.
- Debug logging and `TRACE` probes are not modelled.
- Where the code and the usual description of the bridge differ, the model follows the code:
  - `m_ptr` is kept after `gobj_dispose_notify`, so "the native pointer is set exactly while not disposed" is not an invariant;
  - the registry holds only associated and undisposed instances, while the `object_instance` counter counts every constructed instance, so the two are not kept equal;
  - `disassociate_js_gobject` does not unlink: `remove_wrapped_gobjects_if` has already unlinked the instance.
