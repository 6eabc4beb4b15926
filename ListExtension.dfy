/**
 * ListExtension.Shuffle: the Fisher-Yates shuffle of an `IList<T>` in place,
 * from the last position down. The list is an array of fixed length (the
 * shuffle only reads and writes elements). The draw `random.Next(n + 1)` made
 * at the step that fixes position `n` is passed in as `picks[n]`.
 */
module ListExtension {
  import opened Permutations

  /** One draw of `Next(n + 1)` for each position `n`: each in `[0, n]`. */
  predicate NextPicks(picks: seq<int>, count: nat)
  {
    |picks| == count && forall n :: 0 <= n < count ==> 0 <= picks[n] <= n
  }

  /**
   * The contents after the first `k` steps: the step that fixes position
   * `n = |s| - k` exchanges `picks[n]` and `n`.
   */
  function Steps<T>(s: seq<T>, picks: seq<int>, k: nat): (t: seq<T>)
    requires NextPicks(picks, |s|) && k <= |s|
    ensures |t| == |s|
  {
    if k == 0 then s else Swap(Steps(s, picks, k - 1), picks[|s| - k], |s| - k)
  }

  /** The number of steps the loop makes on a list of `count` elements: it stops when one position is left. */
  function Rounds(count: nat): (k: nat)
    ensures k <= count && (count >= 1 ==> k == count - 1)
  {
    if count == 0 then 0 else count - 1
  }

  /** The shuffle keeps the elements: its result is a permutation of the list. */
  lemma {:induction false} StepsPermutes<T>(s: seq<T>, picks: seq<int>, k: nat)
    requires NextPicks(picks, |s|) && k <= |s|
    ensures Permutes(Steps(s, picks, k), s)
  {
    if k > 0 {
      StepsPermutes(s, picks, k - 1);
      StepPermutes(s, picks, k);
    }
  }

  /** One more step keeps the elements when the steps before it kept them. */
  lemma StepPermutes<T>(s: seq<T>, picks: seq<int>, k: nat)
    requires NextPicks(picks, |s|) && 0 < k <= |s|
    requires Permutes(Steps(s, picks, k - 1), s)
    ensures Permutes(Steps(s, picks, k), s)
  {
    SwapPermutes(Steps(s, picks, k - 1), picks[|s| - k], |s| - k);
  }

  /**
   * Once `k` steps are done, the positions they fixed (`|s| - k` and above)
   * keep their elements through every later step.
   */
  lemma {:induction false} SuffixFixed<T>(s: seq<T>, picks: seq<int>, k: nat, j: nat)
    requires NextPicks(picks, |s|) && k <= j <= |s|
    ensures forall i :: |s| - k <= i < |s| ==> Steps(s, picks, j)[i] == Steps(s, picks, k)[i]
  {
    if k < j {
      SuffixFixed(s, picks, k, j - 1);
      var n := |s| - j;
      assert picks[n] <= n;
    }
  }

  /**
   * Stopping with one position left loses nothing: the step that would fix
   * position 0 can only draw 0, so it would change nothing.
   */
  lemma LastStepIsIdentity<T>(s: seq<T>, picks: seq<int>)
    requires NextPicks(picks, |s|) && |s| >= 1
    ensures Steps(s, picks, |s|) == Steps(s, picks, Rounds(|s|))
  {
    var before := Steps(s, picks, |s| - 1);
    assert picks[0] == 0;
    assert Swap(before, 0, 0) == before;
  }

  /** The step that fixes position `n` extends the first `|s| - n - 1` steps by exchanging `picks[n]` and `n`. */
  lemma StepAt<T>(s: seq<T>, picks: seq<int>, n: nat, before: seq<T>, after: seq<T>)
    requires NextPicks(picks, |s|) && n < |s|
    requires before == Steps(s, picks, |s| - n - 1)
    requires after == before[picks[n] := before[n]][n := before[picks[n]]]
    ensures after == Steps(s, picks, |s| - n)
  {
    var k := picks[n];
    var t := Swap(before, k, n);
    assert Steps(s, picks, |s| - n) == t;
    forall i | 0 <= i < |s|
      ensures after[i] == t[i]
    {
    }
    assert after == t;
  }

  /** When the loop stops it has made `Rounds(|s|)` steps, and those steps kept the elements. */
  lemma LoopExit<T>(s: seq<T>, picks: seq<int>, swaps: nat, t: seq<T>)
    requires NextPicks(picks, |s|) && swaps <= |s| && (|s| >= 1 ==> swaps == |s| - 1)
    requires t == Steps(s, picks, swaps)
    ensures swaps == Rounds(|s|)
    ensures multiset(t) == multiset(s)
  {
    StepsPermutes(s, picks, swaps);
  }

  /**
   * Shuffle: while `n > 1`, decrement `n` and exchange `list[k]` and `list[n]`
   * for the drawn `k`. The ghost `swaps` counts the exchanges made.
   */
  method Shuffle<T>(list: array<T>, picks: seq<int>) returns (ghost swaps: nat)
    requires NextPicks(picks, list.Length)
    modifies list
    ensures swaps == Rounds(list.Length)
    ensures list[..] == Steps(old(list[..]), picks, swaps)
    ensures multiset(list[..]) == multiset(old(list[..]))
  {
    ghost var s := list[..];
    var n := list.Length;
    swaps := 0;
    while n > 1
      invariant 0 <= n <= |s| == list.Length
      invariant |s| >= 1 ==> 1 <= n
      invariant swaps == |s| - n
      invariant list[..] == Steps(s, picks, swaps)
      decreases n
    {
      n := n - 1;
      ghost var before := list[..];
      var k := picks[n];
      var value := list[k];
      list[k] := list[n];
      list[n] := value;
      ghost var after := before[k := before[n]][n := before[k]];
      assert list[..] == after;
      StepAt(s, picks, n, before, after);
      swaps := swaps + 1;
    }
    LoopExit(s, picks, swaps, list[..]);
  }
}
