/** The process-wide registry of live wrappers, `wrapped_gobject_list`: an
    intrusive doubly linked list threaded through the `GjsListLink` member of
    every `ObjectInstance`. Instances live in an arena and are addressed by
    handle; `prev[h]` and `next[h]` are the `m_prev` and `m_next` pointers of
    instance `h`, and `Nil` is the null pointer. */
module Registry {
  import opened Seqs

  const Nil: int := -1

  /** The pointer values `pv`, `nx` and the head `hd` thread exactly the
      list `l` of distinct handles, `pos[h]` is the index of `h` in `l` (or
      `Nil`), and every handle outside the list has both links cleared. */
  ghost predicate Threads(l: seq<nat>, pos: seq<int>, pv: seq<int>, nx: seq<int>, hd: int) {
    && |pv| == |nx| == |pos|
    && (forall i {:trigger l[i]} :: 0 <= i < |l| ==> l[i] < |pos|)
    && (forall i {:trigger pos[l[i]]} :: 0 <= i < |l| ==> pos[l[i]] == i)
    && (forall h {:trigger pos[h]} :: 0 <= h < |pos| && pos[h] != Nil ==> 0 <= pos[h] < |l| && l[pos[h]] == h)
    && (forall h {:trigger pv[h]} {:trigger nx[h]} :: 0 <= h < |pos| && pos[h] == Nil ==> pv[h] == Nil && nx[h] == Nil)
    && hd == (if l == [] then Nil else l[0])
    && (forall i {:trigger nx[l[i]]} :: 0 <= i < |l| ==> nx[l[i]] == if i + 1 < |l| then l[i + 1] else Nil)
    && (forall i {:trigger pv[l[i]]} :: 0 <= i < |l| ==> pv[l[i]] == if i == 0 then Nil else l[i - 1])
  }

  /** Positions after `x` has been put in front of the list. */
  function PushPos(pos: seq<int>, x: nat): (r: seq<int>)
    ensures |r| == |pos|
  {
    seq(|pos|, h requires 0 <= h < |pos| => if h == x then 0 else if pos[h] == Nil then Nil else pos[h] + 1)
  }

  /** Positions after the node at index `k`, handle `x`, has left the list. */
  function DropPos(pos: seq<int>, x: nat, k: nat): (r: seq<int>)
    ensures |r| == |pos|
  {
    seq(|pos|, h requires 0 <= h < |pos| =>
      if pos[h] == Nil || h == x then Nil else if pos[h] > k then pos[h] - 1 else pos[h])
  }

  /** A handle is linked exactly when it has a position, and that position
      is its index in the list. */
  lemma PosOf(l: seq<nat>, pos: seq<int>, pv: seq<int>, nx: seq<int>, hd: int, x: nat)
    requires Threads(l, pos, pv, nx, hd) && x < |pos|
    ensures (x in l) == (pos[x] != Nil)
    ensures x in l ==> IndexOf(l, x) == pos[x]
  {
    if pos[x] != Nil {
      assert l[pos[x]] == x;
    }
    if x in l {
      var i := IndexOf(l, x);
      assert pos[l[i]] == i;
    }
  }

  /** A threaded list holds no handle twice. */
  lemma ThreadsDistinct(l: seq<nat>, pos: seq<int>, pv: seq<int>, nx: seq<int>, hd: int)
    requires Threads(l, pos, pv, nx, hd)
    ensures Distinct(l)
  {
    forall i, j | 0 <= i < j < |l| ensures l[i] != l[j] {
      assert pos[l[i]] == i && pos[l[j]] == j;
    }
  }

  /** `link` on an unlinked `x`: `prepend` before the old head `hd` (its
      predecessor is null, so only `hd.prev` and `x.next` change), then `x`
      becomes the head. */
  lemma {:induction false} LinkThreads(l: seq<nat>, pos: seq<int>, pv: seq<int>, nx: seq<int>, hd: int, x: nat)
    requires Threads(l, pos, pv, nx, hd) && x < |pos| && pos[x] == Nil
    ensures Threads([x] + l, PushPos(pos, x),
                    if hd != Nil then pv[hd := x] else pv,
                    if hd != Nil then nx[x := hd] else nx, x)
  {
    var l', pos' := [x] + l, PushPos(pos, x);
    var pv' := if hd != Nil then pv[hd := x] else pv;
    var nx' := if hd != Nil then nx[x := hd] else nx;
    assert pv[x] == Nil && nx[x] == Nil;
    forall i | 0 <= i < |l'|
      ensures l'[i] < |pos'| && pos'[l'[i]] == i
      ensures nx'[l'[i]] == if i + 1 < |l'| then l'[i + 1] else Nil
      ensures pv'[l'[i]] == if i == 0 then Nil else l'[i - 1]
    {
      if i > 0 {
        assert l'[i] == l[i - 1] && pos[l[i - 1]] == i - 1;
      }
    }
    forall h | 0 <= h < |pos'| && pos'[h] != Nil
      ensures 0 <= pos'[h] < |l'| && l'[pos'[h]] == h
    {
      if h != x {
        assert l'[pos[h] + 1] == l[pos[h]];
      }
    }
    forall h | 0 <= h < |pos'| && pos'[h] == Nil
      ensures pv'[h] == Nil && nx'[h] == Nil
    {
      assert pos[h] == Nil && h != x;
      if l != [] {
        assert pos[l[0]] == 0;
      }
    }
  }

  /** Positions of the list `l'` that is `l` with its `k`-th node `x`
      removed. */
  lemma {:induction false} DropPositions(l: seq<nat>, pos: seq<int>, x: nat, k: nat, l': seq<nat>, pos': seq<int>)
    requires k < |l| && l[k] == x && l' == l[..k] + l[k + 1..] && pos' == DropPos(pos, x, k)
    requires forall i {:trigger l[i]} :: 0 <= i < |l| ==> l[i] < |pos|
    requires forall i {:trigger pos[l[i]]} :: 0 <= i < |l| ==> pos[l[i]] == i
    requires forall h {:trigger pos[h]} :: 0 <= h < |pos| && pos[h] != Nil ==> 0 <= pos[h] < |l| && l[pos[h]] == h
    ensures forall i {:trigger l'[i]} :: 0 <= i < |l'| ==> l'[i] == if i < k then l[i] else l[i + 1]
    ensures forall i {:trigger l'[i]} :: 0 <= i < |l'| ==> l'[i] < |pos'|
    ensures forall i {:trigger pos'[l'[i]]} :: 0 <= i < |l'| ==> pos'[l'[i]] == i
    ensures forall h {:trigger pos'[h]} :: 0 <= h < |pos'| && pos'[h] != Nil ==> 0 <= pos'[h] < |l'| && l'[pos'[h]] == h
  {
    forall i | 0 <= i < |l'| ensures l'[i] == if i < k then l[i] else l[i + 1] {
    }
    forall i | 0 <= i < |l'| ensures l'[i] < |pos'| && pos'[l'[i]] == i {
      if i < k {
        assert pos[l[i]] == i;
      } else {
        assert pos[l[i + 1]] == i + 1;
      }
    }
    forall h | 0 <= h < |pos'| && pos'[h] != Nil
      ensures 0 <= pos'[h] < |l'| && l'[pos'[h]] == h
    {
      assert pos[h] != Nil && l[pos[h]] == h;
    }
  }

  /** After `unlink` of the `k`-th node `x`, `nx'` threads the remaining
      nodes forwards. */
  lemma {:induction false} UnlinkNext(l: seq<nat>, pos: seq<int>, pv: seq<int>, nx: seq<int>, hd: int, x: nat,
                                      l': seq<nat>, nx': seq<int>)
    requires Threads(l, pos, pv, nx, hd) && x < |pos| && pos[x] != Nil
    requires l' == l[..pos[x]] + l[pos[x] + 1..]
    requires nx' == (if pv[x] != Nil then nx[pv[x] := nx[x]] else nx)[x := Nil]
    ensures forall i {:trigger nx'[l'[i]]} :: 0 <= i < |l'| ==> nx'[l'[i]] == if i + 1 < |l'| then l'[i + 1] else Nil
  {
    var k := pos[x];
    assert l[k] == x;
    assert pv[x] == if k == 0 then Nil else l[k - 1];
    forall i | 0 <= i < |l'|
      ensures nx'[l'[i]] == if i + 1 < |l'| then l'[i + 1] else Nil
    {
      var j := if i < k then i else i + 1;
      assert l'[i] == l[j] && pos[l[j]] == j;
      if i + 1 < |l'| {
        assert l'[i + 1] == if i + 1 < k then l[i + 1] else l[i + 2];
      }
    }
  }

  /** After `unlink` of the `k`-th node `x`, `pv'` threads the remaining
      nodes backwards. */
  lemma {:induction false} UnlinkPrev(l: seq<nat>, pos: seq<int>, pv: seq<int>, nx: seq<int>, hd: int, x: nat,
                                      l': seq<nat>, pv': seq<int>)
    requires Threads(l, pos, pv, nx, hd) && x < |pos| && pos[x] != Nil
    requires l' == l[..pos[x]] + l[pos[x] + 1..]
    requires pv' == (if nx[x] != Nil then pv[nx[x] := pv[x]] else pv)[x := Nil]
    ensures forall i {:trigger pv'[l'[i]]} :: 0 <= i < |l'| ==> pv'[l'[i]] == if i == 0 then Nil else l'[i - 1]
  {
    var k := pos[x];
    assert l[k] == x;
    assert nx[x] == if k + 1 < |l| then l[k + 1] else Nil;
    forall i | 0 <= i < |l'|
      ensures pv'[l'[i]] == if i == 0 then Nil else l'[i - 1]
    {
      var j := if i < k then i else i + 1;
      assert l'[i] == l[j] && pos[l[j]] == j;
      if i > 0 {
        assert l'[i - 1] == if i - 1 < k then l[i - 1] else l[i];
      }
    }
  }

  /** After `unlink` of `x`, every handle without a position has both links
      cleared, and the head is the first remaining node. */
  lemma {:induction false} UnlinkDetached(l: seq<nat>, pos: seq<int>, pv: seq<int>, nx: seq<int>, hd: int, x: nat)
    requires Threads(l, pos, pv, nx, hd) && x < |pos| && pos[x] != Nil
    ensures
      var k, p, n := pos[x], pv[x], nx[x];
      var pos', pv', nx' := DropPos(pos, x, k), (if n != Nil then pv[n := p] else pv)[x := Nil],
                            (if p != Nil then nx[p := n] else nx)[x := Nil];
      && (forall h {:trigger pv'[h]} {:trigger nx'[h]} :: 0 <= h < |pos'| && pos'[h] == Nil ==> pv'[h] == Nil && nx'[h] == Nil)
      && (if hd == x then n else hd) == (if l[..k] + l[k + 1..] == [] then Nil else (l[..k] + l[k + 1..])[0])
  {
    var k, p, n := pos[x], pv[x], nx[x];
    var l', pos' := l[..k] + l[k + 1..], DropPos(pos, x, k);
    var pv' := (if n != Nil then pv[n := p] else pv)[x := Nil];
    var nx' := (if p != Nil then nx[p := n] else nx)[x := Nil];
    assert l[k] == x;
    assert p == if k == 0 then Nil else l[k - 1];
    assert n == if k + 1 < |l| then l[k + 1] else Nil;
    forall h | 0 <= h < |pos'| && pos'[h] == Nil
      ensures pv'[h] == Nil && nx'[h] == Nil
    {
      if h != x {
        assert pos[h] == Nil;
        if p != Nil {
          assert pos[l[k - 1]] == k - 1;
        }
        if n != Nil {
          assert pos[l[k + 1]] == k + 1;
        }
      }
    }
    assert l' == [] || l'[0] == if k == 0 then l[1] else l[0];
  }

  /** `unlink` on the `k`-th node `x`: the head moves on when `x` was the
      head, the neighbours of `x` are joined and both links of `x` cleared. */
  lemma UnlinkThreads(l: seq<nat>, pos: seq<int>, pv: seq<int>, nx: seq<int>, hd: int, x: nat)
    requires Threads(l, pos, pv, nx, hd) && x < |pos| && pos[x] != Nil
    ensures
      var k, p, n := pos[x], pv[x], nx[x];
      Threads(l[..k] + l[k + 1..], DropPos(pos, x, k),
              (if n != Nil then pv[n := p] else pv)[x := Nil],
              (if p != Nil then nx[p := n] else nx)[x := Nil],
              if hd == x then n else hd)
  {
    var k, p, n := pos[x], pv[x], nx[x];
    var l', pos' := l[..k] + l[k + 1..], DropPos(pos, x, k);
    var pv' := (if n != Nil then pv[n := p] else pv)[x := Nil];
    var nx' := (if p != Nil then nx[p := n] else nx)[x := Nil];
    assert l[k] == x;
    DropPositions(l, pos, x, k, l', pos');
    UnlinkNext(l, pos, pv, nx, hd, x, l', nx');
    UnlinkPrev(l, pos, pv, nx, hd, x, l', pv');
    UnlinkDetached(l, pos, pv, nx, hd, x);
  }

  /** After filtering, a handle has a position exactly when it had one
      and is not filtered out. */
  lemma FilterPositions(l: seq<nat>, pos: seq<int>, pv: seq<int>, nx: seq<int>, hd: int,
                        l': seq<nat>, pos': seq<int>, pv': seq<int>, nx': seq<int>, hd': int, pred: set<nat>)
    requires Threads(l, pos, pv, nx, hd) && Threads(l', pos', pv', nx', hd')
    requires l' == Filter(l, pred, false) && |pos'| == |pos|
    ensures forall h: nat :: (h < |pos'| && pos'[h] != Nil) <==> (h < |pos| && pos[h] != Nil && h !in pred)
  {
    forall h: nat | h < |pos|
      ensures pos'[h] != Nil <==> pos[h] != Nil && h !in pred
    {
      PosOf(l, pos, pv, nx, hd, h);
      PosOf(l', pos', pv', nx', hd', h);
      FilterMembers(l, pred, false, h);
    }
  }

  /** One step of `RemoveIf` on values: the `k`-th node of `all` joins the
      removed or the kept nodes, and the unvisited suffix shrinks by one. */
  lemma RemoveStep(all: seq<nat>, k: nat, pred: set<nat>, removed: seq<nat>, kept: seq<nat>)
    requires k < |all|
    requires removed == Filter(all[..k], pred, true) && kept == Filter(all[..k], pred, false)
    ensures kept + all[k..] == kept + [all[k]] + all[k + 1..]
    ensures Filter(all[..k + 1], pred, true) == if all[k] in pred then removed + [all[k]] else removed
    ensures Filter(all[..k + 1], pred, false) == if all[k] in pred then kept else kept + [all[k]]
  {
    assert all[k..] == [all[k]] + all[k + 1..];
    assert all[..k + 1] == all[..k] + [all[k]];
    FilterSnoc(all[..k], all[k], pred, true);
    FilterSnoc(all[..k], all[k], pred, false);
  }

  /** Removing the element that follows `kept` leaves `kept` and `rest`. */
  lemma SpliceOut<T>(kept: seq<T>, x: T, rest: seq<T>)
    ensures (kept + [x] + rest)[|kept|] == x
    ensures (kept + [x] + rest)[..|kept|] + (kept + [x] + rest)[|kept| + 1..] == kept + rest
  {
    var l := kept + [x] + rest;
    assert l[..|kept|] == kept;
    assert l[|kept| + 1..] == rest;
  }

  class WrappedList {
    const prev: array<int>
    const next: array<int>
    /** `ObjectInstance::wrapped_gobject_list`, the head pointer. */
    var head: int
    /** The handles reachable from `head`, in list order. */
    ghost var List: seq<nat>
    /** `Pos[h]` is the index of handle `h` in `List`, or `Nil`. */
    ghost var Pos: seq<int>

    ghost predicate Valid()
      reads this, prev, next
    {
      prev != next && Threads(List, Pos, prev[..], next[..], head)
    }

    /** Whether handle `h` is in the registry. */
    ghost predicate Linked(h: nat)
      reads this
    {
      h < |Pos| && Pos[h] != Nil
    }

    /** `Linked` is membership of the list. */
    lemma LinkedIff(h: nat)
      requires Valid()
      ensures Linked(h) <==> h in List
    {
      if h < |Pos| {
        PosOf(List, Pos, prev[..], next[..], head, h);
      } else {
        assert forall i :: 0 <= i < |List| ==> List[i] < |Pos|;
      }
    }

    /** An empty registry with room for `capacity` instances. */
    constructor (capacity: nat)
      ensures Valid() && fresh(prev) && fresh(next)
      ensures prev.Length == capacity && List == []
    {
      prev := new int[capacity](_ => Nil);
      next := new int[capacity](_ => Nil);
      head := Nil;
      List := [];
      Pos := seq(capacity, _ => Nil);
    }

    /** `GjsListLink::prepend`: splices node `x` in just before node `h`,
        taking over `h`'s predecessor when it has one. */
    method Prepend(x: nat, h: nat)
      requires x < prev.Length && h < prev.Length && prev.Length == next.Length && prev != next
      requires prev[h] == Nil || 0 <= prev[h] < next.Length
      modifies prev, next
      ensures var p := old(prev[h]);
        next[..] == (if p != Nil then old(next[..])[p := x] else old(next[..]))[x := h]
      ensures var p := old(prev[h]);
        prev[..] == (if p != Nil then old(prev[..])[x := p] else old(prev[..]))[h := x]
    {
      var p := prev[h];
      if p != Nil {
        next[p] := x;
        prev[x] := p;
      }
      prev[h] := x;
      next[x] := h;
    }

    /** `GjsListLink::unlink`: joins the neighbours of `x` to each other and
        clears both links of `x`. */
    method UnlinkNode(x: nat)
      requires x < prev.Length && prev.Length == next.Length && prev != next
      requires prev[x] == Nil || 0 <= prev[x] < next.Length
      requires next[x] == Nil || 0 <= next[x] < prev.Length
      modifies prev, next
      ensures var p, n := old(prev[x]), old(next[x]);
        next[..] == (if p != Nil then old(next[..])[p := n] else old(next[..]))[x := Nil]
      ensures var p, n := old(prev[x]), old(next[x]);
        prev[..] == (if n != Nil then old(prev[..])[n := p] else old(prev[..]))[x := Nil]
    {
      var p, n := prev[x], next[x];
      if p != Nil {
        next[p] := n;
      }
      if n != Nil {
        prev[n] := p;
      }
      prev[x] := Nil;
      next[x] := Nil;
    }

    /** `ObjectInstance::link`: makes the unlinked `x` the new head of the
        registry. */
    method Link(x: nat)
      requires Valid() && x < prev.Length && x !in List
      modifies this, prev, next
      ensures Valid()
      ensures List == [x] + old(List)
      ensures head == x && prev[x] == Nil && next[x] == old(head)
      ensures old(head) != Nil ==> prev[old(head)] == x
      ensures forall h :: Linked(h) <==> old(Linked(h)) || h == x
    {
      PosOf(List, Pos, prev[..], next[..], head, x);
      LinkThreads(List, Pos, prev[..], next[..], head, x);
      if head != Nil {
        assert prev[head] == Nil by {
          assert prev[..][List[0]] == Nil;
        }
        Prepend(x, head);
      }
      head := x;
      List := [x] + List;
      Pos := PushPos(Pos, x);
    }

    /** `ObjectInstance::unlink`: removes `x` from the registry, moving the
        head on when `x` was the head; a no-op when `x` is not linked. */
    method Unlink(x: nat)
      requires Valid() && x < prev.Length
      modifies this, prev, next
      ensures Valid()
      ensures x !in List && prev[x] == Nil && next[x] == Nil
      ensures x in old(List) ==>
        List == old(List)[..IndexOf(old(List), x)] + old(List)[IndexOf(old(List), x) + 1..]
      ensures x !in old(List) ==>
        List == old(List) && head == old(head) && prev[..] == old(prev[..]) && next[..] == old(next[..])
      ensures forall h :: Linked(h) <==> old(Linked(h)) && h != x
    {
      PosOf(List, Pos, prev[..], next[..], head, x);
      ghost var k := Pos[x];
      if k != Nil {
        UnlinkThreads(List, Pos, prev[..], next[..], head, x);
      } else {
        assert prev[..][x] == Nil && next[..][x] == Nil;
      }
      if head == x {
        head := next[x];
      }
      UnlinkNode(x);
      if k != Nil {
        List := List[..k] + List[k + 1..];
        Pos := DropPos(Pos, x, k);
        PosOf(List, Pos, prev[..], next[..], head, x);
      } else {
        assert prev[..] == old(prev[..]);
        assert next[..] == old(next[..]);
      }
      assert prev[..][x] == Nil && next[..][x] == Nil;
    }

    /** `GjsListLink::size`: counts the nodes from `x` to the tail, `x`
        included. */
    method Size(x: nat) returns (count: nat)
      requires Valid() && x < prev.Length
      ensures x in List ==> count == |List| - IndexOf(List, x)
      ensures x !in List ==> count == 1
    {
      PosOf(List, Pos, prev[..], next[..], head, x);
      ghost var first := if x in List then Pos[x] else 0;
      ghost var j := first;
      var elem: nat := x;
      count := 1;
      while next[elem] != Nil
        invariant elem < next.Length
        invariant x in List ==> j < |List| && elem == List[j] && count == j - first + 1
        invariant x !in List ==> elem == x && count == 1
        decreases if x in List then |List| - j else 0
      {
        assert next[..][List[j]] == next[elem];
        assert j + 1 < |List|;
        elem := next[elem];
        j := j + 1;
        count := count + 1;
      }
      assert next[..][elem] == Nil;
      assert x in List ==> j == |List| - 1;
    }

    /** The callback `remove_wrapped_gobjects_if` hands to the iteration:
        unlinks `x`, whose neighbourhood in the list is `before` and `after`,
        when it satisfies `pred`. */
    method UnlinkIf(x: nat, pred: set<nat>, ghost before: seq<nat>, ghost after: seq<nat>) returns (hit: bool)
      requires Valid() && x < prev.Length && List == before + [x] + after
      modifies this, prev, next
      ensures Valid() && hit == (x in pred)
      ensures List == if hit then before + after else before + [x] + after
      ensures forall h :: Linked(h) <==> old(Linked(h)) && !(hit && h == x)
    {
      hit := x in pred;
      if hit {
        SpliceOut(before, x, after);
        ThreadsDistinct(List, Pos, prev[..], next[..], head);
        IndexOfDistinct(List, |before|);
        Unlink(x);
      }
    }

    /** The first half of one round of `iterate_wrapped_gobjects`: reads
        the successor of `link`, the `k`-th node of the walk over `all`,
        before the callback may unlink `link`. */
    method Successor(link: nat, ghost all: seq<nat>, ghost k: nat, ghost kept: seq<nat>) returns (nxt: int)
      requires Valid() && k < |all| && link == all[k] && List == kept + all[k..]
      ensures nxt == if k + 1 < |all| then all[k + 1] else Nil
      ensures List == kept + [link] + all[k + 1..] && link < prev.Length
    {
      assert List == kept + [link] + all[k + 1..] by {
        assert all[k..] == [all[k]] + all[k + 1..];
      }
      assert List[|kept|] == link && link < next.Length;
      nxt := next[link];
      assert next[..][List[|kept|]] == nxt;
      if k + 1 < |all| {
        assert List[|kept| + 1] == all[k + 1];
      }
    }

    /** One round of `iterate_wrapped_gobjects` with the callback of
        `remove_wrapped_gobjects_if`. */
    method Visit(link: nat, pred: set<nat>, ghost all: seq<nat>, ghost k: nat, ghost kept: seq<nat>)
      returns (hit: bool, nxt: int)
      requires Valid() && k < |all| && link == all[k] && List == kept + all[k..]
      modifies this, prev, next
      ensures Valid() && hit == (link in pred)
      ensures nxt == if k + 1 < |all| then all[k + 1] else Nil
      ensures List == (if hit then kept else kept + [link]) + all[k + 1..]
      ensures forall h :: Linked(h) <==> old(Linked(h)) && !(hit && h == link)
    {
      nxt := Successor(link, all, k, kept);
      hit := UnlinkIf(link, pred, kept, all[k + 1..]);
    }

    /** `ObjectInstance::remove_wrapped_gobjects_if`, first half: walks the
        registry from the head, reading each successor before the current
        node may be unlinked, and unlinks every instance in `pred`. Returns
        the removed instances, in list order, for the caller to run its
        action on. */
    method RemoveIf(pred: set<nat>) returns (removed: seq<nat>)
      requires Valid()
      modifies this, prev, next
      ensures Valid()
      ensures removed == Filter(old(List), pred, true)
      ensures List == Filter(old(List), pred, false)
      ensures forall h :: Linked(h) <==> old(Linked(h)) && h !in pred
    {
      ghost var all, pos0, prev0, next0, head0 := List, Pos, prev[..], next[..], head;
      ghost var k := 0;
      ghost var kept: seq<nat> := [];
      removed := [];
      var link := head;
      while link != Nil
        invariant Valid()
        invariant 0 <= k <= |all|
        invariant link == if k < |all| then all[k] else Nil
        invariant removed == Filter(all[..k], pred, true)
        invariant kept == Filter(all[..k], pred, false)
        invariant List == kept + all[k..]
        decreases |all| - k
      {
        RemoveStep(all, k, pred, removed, kept);
        var hit, nxt := Visit(link, pred, all, k, kept);
        if hit {
          removed := removed + [link];
        } else {
          kept := kept + [link];
        }
        link := nxt;
        k := k + 1;
      }
      assert all[..k] == all;
      FilterPositions(all, pos0, prev0, next0, head0, List, Pos, prev[..], next[..], head, pred);
    }
  }
}
