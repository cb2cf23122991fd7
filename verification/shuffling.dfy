/** `random.shuffle`: Fisher–Yates from the last position down, with the
    random positions supplied instead of drawn. */
module Shuffling {

  /** swaps[i] is the position exchanged with i; `random.shuffle` draws it
      below i + 1. swaps[0] is never read. */
  predicate ValidSwaps(swaps: seq<nat>, n: nat)
  {
    |swaps| == n && forall i :: 0 <= i < n ==> swaps[i] <= i
  }

  /** Exchanges the elements at positions i and j. */
  function Swap<T>(s: seq<T>, i: nat, j: nat): (r: seq<T>)
    requires i < |s| && j < |s|
    ensures |r| == |s| && r[i] == s[j] && r[j] == s[i]
    ensures forall k :: 0 <= k < |s| && k != i && k != j ==> r[k] == s[k]
  {
    s[i := s[j]][j := s[i]]
  }

  lemma SwapPermutes<T>(s: seq<T>, i: nat, j: nat)
    requires i < |s| && j < |s|
    ensures multiset(Swap(s, i, j)) == multiset(s)
  {
    if i != j {
      var t := s[i := s[j]];
      assert multiset(t) == multiset(s) - multiset{s[i]} + multiset{s[j]};
      assert multiset(t[j := s[i]]) == multiset(t) - multiset{s[j]} + multiset{s[i]};
    }
  }

  /** `for i in reversed(range(1, len(x))): x[i], x[j] = x[j], x[i]`: after
      step i, position i is final and the rest is shuffled below it. */
  function Shuffle<T>(s: seq<T>, swaps: seq<nat>): (r: seq<T>)
    requires ValidSwaps(swaps, |s|)
    decreases |s|
    ensures |r| == |s| && multiset(r) == multiset(s)
  {
    if |s| <= 1 then s
    else
      var i := |s| - 1;
      var t := Swap(s, i, swaps[i]);
      SwapPermutes(s, i, swaps[i]);
      assert ValidSwaps(swaps[..i], i);
      var r := Shuffle(t[..i], swaps[..i]) + [t[i]];
      assert t == t[..i] + [t[i]];
      r
  }

  /** Swapping every position with itself leaves the order unchanged. */
  lemma {:induction false} ShuffleIdentity<T>(s: seq<T>, swaps: seq<nat>)
    requires ValidSwaps(swaps, |s|)
    requires forall i :: 0 <= i < |s| ==> swaps[i] == i
    decreases |s|
    ensures Shuffle(s, swaps) == s
  {
    if |s| > 1 {
      var i := |s| - 1;
      assert Swap(s, i, i) == s;
      assert ValidSwaps(swaps[..i], i);
      ShuffleIdentity(s[..i], swaps[..i]);
    }
  }

  /** Swapping only the last position, with the one before it, exchanges
      the last two elements and leaves the rest in place. */
  lemma ShuffleLastTwo<T>(s: seq<T>, swaps: seq<nat>)
    requires ValidSwaps(swaps, |s|) && |s| >= 2
    requires forall i :: 0 <= i < |s| - 1 ==> swaps[i] == i
    requires swaps[|s| - 1] == |s| - 2
    ensures Shuffle(s, swaps) == s[..|s| - 2] + [s[|s| - 1], s[|s| - 2]]
  {
    ShuffleOnlyLast(s, swaps);
    SwapLastTwo(s);
  }

  /** Shuffling with identity swaps below the last position is the one
      swap of the last position. */
  lemma ShuffleOnlyLast<T>(s: seq<T>, swaps: seq<nat>)
    requires ValidSwaps(swaps, |s|) && |s| >= 2
    requires forall i :: 0 <= i < |s| - 1 ==> swaps[i] == i
    ensures Shuffle(s, swaps) == Swap(s, |s| - 1, swaps[|s| - 1])
  {
    var i := |s| - 1;
    var t := Swap(s, i, swaps[i]);
    var head, rest := t[..i], swaps[..i];
    ShuffleStep(s, swaps);
    IdentityPrefix(swaps, i);
    ShuffleIdentity(head, rest);
    LastSplit(t);
  }

  lemma LastSplit<T>(t: seq<T>)
    requires |t| > 0
    ensures t[..|t| - 1] + [t[|t| - 1]] == t
  {
  }

  /** One step of Shuffle, unfolded. */
  lemma ShuffleStep<T>(s: seq<T>, swaps: seq<nat>)
    requires ValidSwaps(swaps, |s|) && |s| >= 2
    ensures ValidSwaps(swaps[..|s| - 1], |s| - 1)
    ensures Shuffle(s, swaps)
      == Shuffle(Swap(s, |s| - 1, swaps[|s| - 1])[..|s| - 1], swaps[..|s| - 1]) + [Swap(s, |s| - 1, swaps[|s| - 1])[|s| - 1]]
  {
  }

  lemma IdentityPrefix(swaps: seq<nat>, i: nat)
    requires i <= |swaps| && forall k :: 0 <= k < i ==> swaps[k] == k
    ensures ValidSwaps(swaps[..i], i) && forall k :: 0 <= k < i ==> swaps[..i][k] == k
  {
  }

  lemma SwapLastTwo<T>(s: seq<T>)
    requires |s| >= 2
    ensures Swap(s, |s| - 1, |s| - 2) == s[..|s| - 2] + [s[|s| - 1], s[|s| - 2]]
  {
  }

  /** Every element of the shuffled sequence comes from the original. */
  lemma ShuffleMembers<T>(s: seq<T>, swaps: seq<nat>, k: nat)
    requires ValidSwaps(swaps, |s|) && k < |s|
    ensures Shuffle(s, swaps)[k] in s
  {
    var r := Shuffle(s, swaps);
    assert r[k] in multiset(r);
  }
}
