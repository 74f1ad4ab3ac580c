/** Sequence helpers used to state the abstract contents of the registry,
    the toggle queue and the closure list. */
module Seqs {

  /** No element occurs twice. */
  ghost predicate Distinct<T>(s: seq<T>) {
    forall i, j :: 0 <= i < j < |s| ==> s[i] != s[j]
  }

  /** The elements `x` of `s` with `(x in p) == keep`, in their original order:
      `Filter(s, p, true)` selects, `Filter(s, p, false)` rejects. */
  function Filter<T>(s: seq<T>, p: set<T>, keep: bool): (r: seq<T>)
    ensures |r| <= |s|
  {
    if s == [] then []
    else Filter(s[..|s| - 1], p, keep) + (if (s[|s| - 1] in p) == keep then [s[|s| - 1]] else [])
  }

  /** `Filter` keeps exactly the elements that satisfy `p`. */
  lemma {:induction false} FilterMembers<T>(s: seq<T>, p: set<T>, keep: bool, x: T)
    ensures x in Filter(s, p, keep) <==> x in s && (x in p) == keep
  {
    if s != [] {
      var init := s[..|s| - 1];
      FilterMembers(init, p, keep, x);
      assert s == init + [s[|s| - 1]];
    }
  }

  /** Position of the first occurrence of `x` in `s`. */
  function IndexOf<T(==)>(s: seq<T>, x: T): (i: nat)
    requires x in s
    ensures i < |s| && s[i] == x && x !in s[..i]
  {
    if s[0] == x then 0 else 1 + IndexOf(s[1..], x)
  }

  /** Filtering an extended sequence extends the filtered sequence. */
  lemma FilterSnoc<T>(s: seq<T>, x: T, p: set<T>, keep: bool)
    ensures Filter(s + [x], p, keep) == Filter(s, p, keep) + (if (x in p) == keep then [x] else [])
  {
    assert (s + [x])[..|s + [x]| - 1] == s;
  }

  /** Filtering a sequence with a new first element. */
  lemma {:induction false} FilterCons<T>(x: T, s: seq<T>, p: set<T>, keep: bool)
    ensures Filter([x] + s, p, keep) == (if (x in p) == keep then [x] else []) + Filter(s, p, keep)
  {
    if s != [] {
      var init, last := s[..|s| - 1], s[|s| - 1];
      FilterCons(x, init, p, keep);
      assert [x] + s == ([x] + init) + [last];
      FilterSnoc([x] + init, last, p, keep);
      assert s == init + [last];
      FilterSnoc(init, last, p, keep);
    } else {
      assert [x] + s == [] + [x];
      FilterSnoc([], x, p, keep);
    }
  }

  /** Filtering out an absent element changes nothing. */
  lemma {:induction false} FilterAbsent<T>(s: seq<T>, x: T)
    requires x !in s
    ensures Filter(s, {x}, false) == s
  {
    if s != [] {
      var init := s[..|s| - 1];
      assert s == init + [s[|s| - 1]];
      FilterAbsent(init, x);
    }
  }

  /** Extending a prefix of a sequence without repetitions by one element. */
  lemma PrefixStep<T>(s: seq<T>, k: nat)
    requires Distinct(s) && k < |s|
    ensures s[..k + 1] == s[..k] + [s[k]] && s[k] !in s[..k]
    ensures forall x :: x in s[..k + 1] <==> x in s[..k] || x == s[k]
  {
    assert s[..k + 1] == s[..k] + [s[k]];
  }

  /** In a sequence without repetitions, the element at `i` has index `i`. */
  lemma IndexOfDistinct<T>(s: seq<T>, i: nat)
    requires Distinct(s) && i < |s|
    ensures IndexOf(s, s[i]) == i
  {
    var k := IndexOf(s, s[i]);
    assert k <= i by {
      assert s[..i + 1][i] == s[i];
    }
  }

  /** Filtering keeps a sequence free of repetitions. */
  lemma {:induction false} FilterDistinct<T>(s: seq<T>, p: set<T>, keep: bool)
    requires Distinct(s)
    ensures Distinct(Filter(s, p, keep))
  {
    if s != [] {
      var init := s[..|s| - 1];
      assert Distinct(init) by {
        forall i, j | 0 <= i < j < |init| ensures init[i] != init[j] {
          assert init[i] == s[i] && init[j] == s[j];
        }
      }
      FilterDistinct(init, p, keep);
      var last := s[|s| - 1];
      assert forall k :: 0 <= k < |init| ==> init[k] == s[k];
      FilterMembers(init, p, keep, last);
    }
  }
}
