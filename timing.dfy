/** `TimeAndMemory`: the algorithms whose running time and memory use the
    investigation measures (a naive substring search and a selection sort),
    and the dictionary of saved measurements. The measurements themselves,
    the random inputs and the plots are not modelled; a table of results is
    an arbitrary value of type `D`. */
module Timing {
  import opened Wrappers
  import opened PyText

  /** The algorithm names whose results `save_results` stores. */
  const Investigated: set<string> := {"mat_mult", "mat_mult_np", "sort_ints", "substring_inv", "python_find_inv"}

  /** `self.results[name] = table` for a known name; any other name leaves
      the dictionary as it was (the ValueError is built but never raised). */
  function Save<D>(results: map<string, D>, name: string, table: D): (r: map<string, D>)
    ensures name in Investigated ==> name in r && r[name] == table
    ensures name !in Investigated ==> r == results
    ensures forall k :: k != name ==> (k in r <==> k in results)
    ensures forall k :: k != name && k in results ==> r[k] == results[k]
  {
    if name in Investigated then results[name := table] else results
  }

  /** Saving only ever creates entries for investigated algorithms. */
  lemma SaveKeepsKeys<D>(results: map<string, D>, name: string, table: D)
    requires results.Keys <= Investigated
    ensures Save(results, name, table).Keys <= Investigated
  {
    if name in Investigated {
      assert Save(results, name, table).Keys == results.Keys + {name};
    }
  }

  /** Saving the same table twice is the same as saving it once. */
  lemma SaveIdempotent<D>(results: map<string, D>, name: string, table: D)
    ensures Save(Save(results, name, table), name, table) == Save(results, name, table)
  {
  }

  predicate Sorted(s: seq<int>) {
    forall p, q :: 0 <= p < q < |s| ==> s[p] <= s[q]
  }

  /** The first `i` elements are in order. */
  predicate SortedUpTo(s: seq<int>, i: int) {
    forall p, q :: 0 <= p < q < i && q < |s| ==> s[p] <= s[q]
  }

  /** No element of the first `i` exceeds an element after them. */
  predicate SplitAt(s: seq<int>, i: int) {
    forall p, q :: 0 <= p < i <= q < |s| ==> s[p] <= s[q]
  }

  /** One outer pass of the selection sort: swapping the minimum of the
      unsorted suffix to its front extends the sorted prefix by one. */
  lemma SwapMinimum(before: seq<int>, after: seq<int>, i: int, m: int)
    requires 0 <= i <= m < |before|
    requires after == before[i := before[m]][m := before[i]]
    requires SortedUpTo(before, i) && SplitAt(before, i)
    requires forall q :: i <= q < |before| ==> before[m] <= before[q]
    ensures SortedUpTo(after, i + 1) && SplitAt(after, i + 1)
    ensures multiset(after) == multiset(before)
  {
  }

  class TimeAndMemory<D> {
    var results: map<string, D>

    /** The hard-coded tables of earlier measurements are given as `initial`. */
    constructor(initial: map<string, D>)
      ensures results == initial
    {
      results := initial;
    }

    /** `save_results(name, func_df)`. */
    method SaveResults(name: string, table: D)
      modifies this
      ensures results == Save(old(results), name, table)
    {
      if name in Investigated {
        results := results[name := table];
      }
    }

    /** `substring_check(string, substring)`: compares every slice of the
        substring's length with it, left to right. */
    method SubstringCheck(s: string, sub: string) returns (r: Result<bool>)
      ensures r.Err? <==> s == "" || sub == ""
      ensures r.Err? ==> r.error == ValueError
      ensures r.Ok? ==> (r.value <==> Contains(s, sub))
      ensures s != "" && sub != "" && |sub| > |s| ==> r == Ok(false)
    {
      if s == "" || sub == "" {
        return Err(ValueError);
      }
      if |sub| > |s| {
        return Ok(false);
      }
      for i := 0 to |s| - |sub| + 1
        invariant forall j :: 0 <= j < i ==> !OccursAt(s, sub, j)
      {
        if s[i..i + |sub|] == sub {
          assert OccursAt(s, sub, i);
          return Ok(true);
        }
      }
      return Ok(false);
    }

    /** `sort_ints(length)` on a given array of that length: validates the
        length, then selection-sorts the array in place. */
    method SortInts(length: int, values: array<int>) returns (r: Result<()>)
      requires length <= 0 || values.Length == length
      modifies values
      ensures r.Err? <==> length <= 0
      ensures r.Err? ==> r.error == ValueError && values[..] == old(values[..])
      ensures r.Ok? ==> Sorted(values[..])
      ensures multiset(values[..]) == multiset(old(values[..]))
    {
      if length <= 0 {
        return Err(ValueError);
      }
      for i := 0 to length - 1
        invariant SortedUpTo(values[..], i) && SplitAt(values[..], i)
        invariant multiset(values[..]) == multiset(old(values[..]))
      {
        var minIndex := i;
        for j := i + 1 to length
          invariant i <= minIndex < j
          invariant forall q :: i <= q < j ==> values[minIndex] <= values[q]
        {
          if values[j] < values[minIndex] {
            minIndex := j;
          }
        }
        ghost var before := values[..];
        values[i], values[minIndex] := values[minIndex], values[i];
        SwapMinimum(before, values[..], i, minIndex);
      }
      assert SortedUpTo(values[..], length - 1) && SplitAt(values[..], length - 1);
      return Ok(());
    }
  }
}
