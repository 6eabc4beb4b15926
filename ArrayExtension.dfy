/**
 * ArrayExtension: concatenating two arrays, an in-place shuffle by swaps, and
 * picking a random element. The random indices UnityEngine.Random.Range
 * would draw are passed in.
 */
module ArrayExtension {
  import opened Numeric
  import opened Results
  import opened Permutations

  /** Merge: a fresh array holding `first` followed by `second`; neither input changes.
      The size `first.Length + second.Length` is an unchecked 32-bit sum: past
      int.MaxValue it wraps negative and the allocation throws OverflowException. */
  method Merge<T(0)>(first: array<T>, second: array<T>) returns (r: Result<array<T>>)
    ensures r.Err? <==> first.Length + second.Length > INT_MAX
    ensures r.Err? ==> r.error == Overflow
    ensures r.Ok? ==> fresh(r.value) && r.value.Length == first.Length + second.Length
    ensures r.Ok? ==> r.value[..first.Length] == first[..] && r.value[first.Length..] == second[..]
  {
    if first.Length + second.Length > INT_MAX {
      return Err(Overflow);
    }
    var result := new T[first.Length + second.Length];
    // first.CopyTo(result, 0)
    forall i | 0 <= i < first.Length {
      result[i] := first[i];
    }
    // second.CopyTo(result, first.Length)
    forall i | 0 <= i < second.Length {
      result[first.Length + i] := second[i];
    }
    assert result[..first.Length] == first[..];
    assert result[first.Length..] == second[..];
    r := Ok(result);
  }

  /** Draws of `Random.Range(0, len)`, one per position: each in `[0, len)`. */
  predicate RangePicks(picks: seq<int>, len: nat)
  {
    |picks| == len && forall i :: 0 <= i < len ==> 0 <= picks[i] < len
  }

  /** The contents after the first `n` iterations of Shuffle: position `i` exchanged with `picks[i]`, for i = 0, 1, ... */
  function ShuffleSteps<T>(s: seq<T>, picks: seq<int>, n: nat): (t: seq<T>)
    requires RangePicks(picks, |s|) && n <= |s|
    ensures |t| == |s|
  {
    if n == 0 then s else Swap(ShuffleSteps(s, picks, n - 1), n - 1, picks[n - 1])
  }

  /** The shuffle keeps the elements: the result is a permutation of the input. */
  lemma {:induction false} ShuffleStepsPermutes<T>(s: seq<T>, picks: seq<int>, n: nat)
    requires RangePicks(picks, |s|) && n <= |s|
    ensures Permutes(ShuffleSteps(s, picks, n), s)
  {
    if n > 0 {
      ShuffleStepsPermutes(s, picks, n - 1);
      ShuffleStepPermutes(s, picks, n);
    }
  }

  /** One more step keeps the elements when the steps before it kept them. */
  lemma ShuffleStepPermutes<T>(s: seq<T>, picks: seq<int>, n: nat)
    requires RangePicks(picks, |s|) && 0 < n <= |s|
    requires Permutes(ShuffleSteps(s, picks, n - 1), s)
    ensures Permutes(ShuffleSteps(s, picks, n), s)
  {
    var prev := ShuffleSteps(s, picks, n - 1);
    SwapPermutes(prev, n - 1, picks[n - 1]);
  }

  /** Shuffle: for each position in turn, exchange it with the one drawn for it. */
  method Shuffle<T>(items: array<T>, picks: seq<int>)
    requires RangePicks(picks, items.Length)
    modifies items
    ensures items[..] == ShuffleSteps(old(items[..]), picks, items.Length)
    ensures multiset(items[..]) == multiset(old(items[..]))
  {
    for i := 0 to items.Length
      invariant items[..] == ShuffleSteps(old(items[..]), picks, i)
    {
      var temp := items[i];
      var randomIndex := picks[i];
      items[i] := items[randomIndex];
      items[randomIndex] := temp;
    }
    ShuffleStepsPermutes(old(items[..]), picks, items.Length);
  }

  /**
   * GetRandom: the element at the drawn index. `Random.Range(0, 0)` gives 0,
   * so an empty array fails on the index.
   */
  function GetRandom<T>(items: array<T>, pick: int): (r: Result<T>)
    requires if items.Length == 0 then pick == 0 else 0 <= pick < items.Length
    reads items
    ensures r.Ok? <==> items.Length > 0
    ensures r.Err? ==> r.error == IndexOutOfRange
    ensures r.Ok? ==> r.value in items[..] && r.value == items[pick]
  {
    if pick < items.Length then Ok(items[pick]) else Err(IndexOutOfRange)
  }
}
