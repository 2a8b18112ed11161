/** Fisher-Yates shuffle by in-place swaps, with the random index of each step
    supplied by the caller. */
module Shuffling {
  import opened Grid

  ghost predicate Distinct(s: seq<int>) {
    forall i, j | 0 <= i < j < |s| :: s[i] != s[j]
  }

  function Swap(s: seq<int>, i: int, j: int): (t: seq<int>)
    requires 0 <= i < |s| && 0 <= j < |s|
    ensures |t| == |s| && t[i] == s[j] && t[j] == s[i]
    ensures forall k | 0 <= k < |s| && k != i && k != j :: t[k] == s[k]
  {
    s[i := s[j]][j := s[i]]
  }

  /** Random indices for a shuffle of n elements: picks[k] is the index j drawn
      at the step with i == n - 1 - k, so 0 <= j <= i. */
  ghost predicate ValidPicks(n: int, picks: seq<int>) {
    |picks| == (if n > 0 then n - 1 else 0) &&
    forall k | 0 <= k < |picks| :: 0 <= picks[k] <= n - 1 - k
  }

  /** The steps i, i - 1, ..., 1 of the shuffle, with their picks. */
  ghost function ShuffleFrom(s: seq<int>, i: int, picks: seq<int>): (t: seq<int>)
    requires 0 <= i < |s| && |picks| == i
    requires forall k | 0 <= k < i :: 0 <= picks[k] <= i - k
    ensures |t| == |s|
    decreases i
  {
    if i == 0 then s
    else ShuffleFrom(Swap(s, i, picks[0]), i - 1, picks[1..])
  }

  /** The array contents after shuffle(array) with the given picks. */
  ghost function Shuffled(s: seq<int>, picks: seq<int>): (t: seq<int>)
    requires ValidPicks(|s|, picks)
    ensures |t| == |s|
  {
    if |s| == 0 then s else ShuffleFrom(s, |s| - 1, picks)
  }

  /** shuffle: for i from the last index down to 1, swap a[i] with a[j], j = picks[n - 1 - i]. */
  method Shuffle(a: array<int>, picks: seq<int>)
    requires ValidPicks(a.Length, picks)
    modifies a
    ensures a[..] == Shuffled(old(a[..]), picks)
  {
    var i := a.Length - 1;
    while i > 0
      invariant -1 <= i < a.Length
      invariant a.Length > 0 ==> 0 <= i
      invariant a.Length > 0 ==> ShuffleFrom(a[..], i, picks[a.Length - 1 - i..]) == Shuffled(old(a[..]), picks)
    {
      var j := picks[a.Length - 1 - i];
      ghost var before := a[..];
      a[i], a[j] := a[j], a[i];
      assert a[..] == Swap(before, i, j);
      assert picks[a.Length - 1 - i..][1..] == picks[a.Length - 1 - (i - 1)..];
      i := i - 1;
    }
  }

  lemma SwapPermutes(s: seq<int>, i: int, j: int)
    requires 0 <= i < |s| && 0 <= j < |s|
    ensures multiset(Swap(s, i, j)) == multiset(s)
  {
  }

  lemma SwapKeepsDistinct(s: seq<int>, i: int, j: int)
    requires 0 <= i < |s| && 0 <= j < |s| && Distinct(s)
    ensures Distinct(Swap(s, i, j))
  {
  }

  /** Every step of the shuffle is a swap, so the result is a permutation of the
      input and keeps distinct elements distinct. */
  lemma {:induction false} ShuffleFromPermutes(s: seq<int>, i: int, picks: seq<int>)
    requires 0 <= i < |s| && |picks| == i
    requires forall k | 0 <= k < i :: 0 <= picks[k] <= i - k
    ensures multiset(ShuffleFrom(s, i, picks)) == multiset(s)
    ensures Distinct(s) ==> Distinct(ShuffleFrom(s, i, picks))
    decreases i
  {
    if i > 0 {
      SwapPermutes(s, i, picks[0]);
      if Distinct(s) {
        SwapKeepsDistinct(s, i, picks[0]);
      }
      ShuffleFromPermutes(Swap(s, i, picks[0]), i - 1, picks[1..]);
    }
  }

  lemma ShuffledPermutes(s: seq<int>, picks: seq<int>)
    requires ValidPicks(|s|, picks)
    ensures multiset(Shuffled(s, picks)) == multiset(s)
    ensures Distinct(s) ==> Distinct(Shuffled(s, picks))
  {
    if |s| > 0 {
      ShuffleFromPermutes(s, |s| - 1, picks);
    }
  }

  /** Two sequences with the same multiset have the same members. */
  lemma SameMembers(s: seq<int>, t: seq<int>)
    requires multiset(s) == multiset(t)
    ensures forall v :: v in s <==> v in t
  {
    forall v ensures v in s <==> v in t {
      assert v in s <==> v in multiset(s);
      assert v in t <==> v in multiset(t);
    }
  }

  /** Shuffling the digits 1..9 gives each of 1..9 exactly once. */
  lemma ShuffledDigits(picks: seq<int>)
    requires ValidPicks(9, picks)
    ensures |Shuffled(Digits, picks)| == 9
    ensures Distinct(Shuffled(Digits, picks))
    ensures forall v :: v in Shuffled(Digits, picks) <==> 1 <= v <= 9
  {
    DigitsDistinct();
    ShuffledPermutes(Digits, picks);
    SameMembers(Shuffled(Digits, picks), Digits);
    DigitsAt();
  }

  lemma DigitsDistinct()
    ensures Distinct(Digits)
  {
    DigitsAt();
  }
}
