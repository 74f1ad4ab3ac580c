/** The instance counters of gjs/mem.cpp and `gjs_memory_report`. */
module Memory {
  import opened Wrappers

  /** The categories of `counters[]`, in the order of the array. The
      `everything` counter is kept apart and is not one of them. */
  const CounterNames: seq<string> := [
    "boxed_instance", "boxed_prototype", "closure", "function",
    "fundamental_instance", "fundamental_prototype", "gerror_instance",
    "gerror_prototype", "importer", "interface", "module", "ns",
    "object_instance", "object_prototype", "param", "repo",
    "union_instance", "union_prototype"]

  /** `G_N_ELEMENTS(counters)` */
  const NCounters := 18

  /** The sum of the counter values. */
  function Sum(values: seq<int>): int {
    if values == [] then 0 else values[0] + Sum(values[1..])
  }

  /** Summing one more counter adds its value. */
  lemma {:induction false} SumSnoc(values: seq<int>, v: int)
    ensures Sum(values + [v]) == Sum(values) + v
  {
    if values != [] {
      assert (values + [v])[1..] == values[1..] + [v];
      SumSnoc(values[1..], v);
    }
  }

  /** What the report does once the totals are known. */
  datatype Report = Report(
    total: int,                          // `total_objects`
    countsAddUp: bool,                   // false: "Object counts don't add up!" is logged
    listing: seq<(string, int)>,         // the per-category lines
    outcome: Outcome)                    // Fatal: `g_error`, leaks were found

  /** The process-wide counters. */
  class MemCounters {
    /** `counters[i]->value` */
    var counters: array<int>
    /** `gjs_counter_everything.value` */
    var everything: int

    predicate Valid()
      reads this
    {
      counters.Length == NCounters
    }

    /** The static initialization: every counter starts at zero. */
    constructor ()
      ensures Valid() && fresh(counters)
      ensures everything == 0 && forall i :: 0 <= i < NCounters ==> counters[i] == 0
    {
      counters := new int[NCounters](_ => 0);
      everything := 0;
    }

    /** `gjs_memory_report`: the 18 category counters are summed and compared
        with `everything`, a mismatch being only logged; when `everything` is
        positive every category is listed, and the report aborts when the
        caller asked it to die on leaks. Nothing is written. */
    method MemoryReport(where: string, dieIfLeaks: bool) returns (r: Report)
      requires Valid()
      ensures r.total == Sum(counters[..])
      ensures r.countsAddUp <==> r.total == everything
      // the abort depends on `everything` and the flag only, never on the sum
      ensures r.outcome.Fatal? <==> everything > 0 && dieIfLeaks
      ensures r.outcome.Fatal? ==> r.outcome.reason == where + ": JavaScript objects were leaked."
      ensures everything <= 0 ==> r.listing == []
      ensures everything > 0 ==> |r.listing| == NCounters
                                 && forall i :: 0 <= i < NCounters ==> r.listing[i] == (CounterNames[i], counters[i])
    {
      var nCounters := counters.Length;
      var totalObjects := 0;
      for i := 0 to nCounters
        invariant totalObjects == Sum(counters[..i])
      {
        assert counters[..i + 1] == counters[..i] + [counters[i]];
        SumSnoc(counters[..i], counters[i]);
        totalObjects := totalObjects + counters[i];
      }
      assert counters[..nCounters] == counters[..];
      var listing: seq<(string, int)> := [];
      var outcome := Completed;
      if everything > 0 {
        for i := 0 to nCounters
          invariant |listing| == i
          invariant forall j :: 0 <= j < i ==> listing[j] == (CounterNames[j], counters[j])
        {
          listing := listing + [(CounterNames[i], counters[i])];
        }
        if dieIfLeaks {
          outcome := Outcome.Fatal(where + ": JavaScript objects were leaked.");
        }
      }
      r := Report(totalObjects, totalObjects == everything, listing, outcome);
    }
  }
}
