/** The decision `wrapped_gobj_toggle_notify` takes for one crossing of
    the native reference count between one and two. */
module Toggles {
  import opened ToggleQueues

  /** What happens to one notification. */
  datatype Decision =
    | Ignore                          // the context is being destroyed
    | ToggleDownNow                   // unrooted inline on the owner thread
    | ToggleUpNow                     // rooted inline on the owner thread
    | Defer(direction: Direction)     // handed to the toggle queue
    | Fatal(message: string)          // g_error: overlapping notifications

  /** The dispatch of gi/object.cpp: `isLastRef` is a 2 -> 1 edge (DOWN),
      otherwise the edge is 1 -> 2 (UP); `downQueued` and `upQueued` are
      what the toggle queue holds for the object. */
  function Decide(destroying: bool, isMainThread: bool, downQueued: bool, upQueued: bool,
                  isLastRef: bool): (d: Decision)
    // teardown ignores every notification, and nothing else is ignored
    ensures d == Ignore <==> destroying
    // an edge is only applied inline on the owner thread, and never ahead
    // of an entry already queued for the same object
    ensures d == ToggleDownNow || d == ToggleUpNow ==> isMainThread && !downQueued && !upQueued
    ensures d == ToggleDownNow ==> isLastRef
    ensures d == ToggleUpNow ==> !isLastRef
    // a deferred notification keeps the direction of its edge
    ensures d.Defer? ==> d.direction == if isLastRef then Down else Up
    ensures d.Defer? <==> !destroying && (!isMainThread || (!isLastRef && downQueued))
    // an owner-thread DOWN meeting any queued entry, or an owner-thread UP
    // meeting a queued UP and no queued DOWN, is fatal
    ensures d.Fatal? <==> !destroying && isMainThread
                          && (if isLastRef then downQueued || upQueued else upQueued && !downQueued)
  {
    if destroying then Ignore
    else if isLastRef then
      if isMainThread then
        if upQueued || downQueued then
          Fatal("toggling down object that's already queued to toggle "
                + (if upQueued && downQueued then "up and down" else if upQueued then "up" else "down"))
        else ToggleDownNow
      else Defer(Down)
    else if isMainThread && !downQueued then
      if upQueued then Fatal("toggling up object that's already queued to toggle up")
      else ToggleUpNow
    else Defer(Up)
  }
}
