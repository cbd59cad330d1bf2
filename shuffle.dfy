/**
 * `shuffleArray`: the Fisher-Yates shuffle the panel applies to the entries it receives.
 * It copies the input and, for `i` from the last index down to 1, swaps the element at
 * `i` with the one at a random index `j` in `[0, i]`. The random indices are supplied
 * by the caller: `choices[i]` is the `j` drawn when the loop is at `i`.
 */
module Shuffle {

  /** `choices` supplies an index in `[0, i]` for every step `i` of a shuffle of `n` elements. */
  predicate ValidChoices(choices: seq<nat>, n: nat) {
    |choices| == n && forall i :: 0 < i < n ==> choices[i] <= i
  }

  /** `s` with the elements at `i` and `j` exchanged. */
  function Swap<T>(s: seq<T>, i: nat, j: nat): (r: seq<T>)
    requires i < |s| && j < |s|
    ensures |r| == |s|
  {
    s[i := s[j]][j := s[i]]
  }

  /** Exchanging two elements keeps every element and its multiplicity. */
  lemma SwapPermutes<T>(s: seq<T>, i: nat, j: nat)
    requires i < |s| && j < |s|
    ensures multiset(Swap(s, i, j)) == multiset(s)
  {
    var t := s[i := s[j]];
    assert multiset(t) == multiset(s) - multiset{s[i]} + multiset{s[j]};
  }

  /** The steps `i`, `i - 1`, ..., 1 of the shuffle applied to `s`. */
  function ShuffleFrom<T>(s: seq<T>, choices: seq<nat>, i: nat): seq<T>
    requires i < |s| && ValidChoices(choices, |s|)
    decreases i
  {
    if i == 0 then s else ShuffleFrom(Swap(s, i, choices[i]), choices, i - 1)
  }

  /** What `shuffleArray` returns for `items` when the random draws are `choices`. */
  function Shuffled<T>(items: seq<T>, choices: seq<nat>): seq<T>
    requires ValidChoices(choices, |items|)
  {
    if |items| == 0 then items else ShuffleFrom(items, choices, |items| - 1)
  }

  /** Every step of the shuffle keeps the length and the elements. */
  lemma {:induction false} ShuffleFromPermutes<T>(s: seq<T>, choices: seq<nat>, i: nat)
    requires i < |s| && ValidChoices(choices, |s|)
    ensures |ShuffleFrom(s, choices, i)| == |s|
    ensures multiset(ShuffleFrom(s, choices, i)) == multiset(s)
    decreases i
  {
    if i > 0 {
      var swapped := Swap(s, i, choices[i]);
      assert ShuffleFrom(s, choices, i) == ShuffleFrom(swapped, choices, i - 1);
      SwapPermutes(s, i, choices[i]);
      ShuffleFromPermutes(swapped, choices, i - 1);
    }
  }

  /**
   * The shuffle returns a permutation of its input: same length, same elements with
   * the same multiplicities; and an input of at most one element comes back as it is.
   */
  lemma ShuffledPermutes<T>(items: seq<T>, choices: seq<nat>)
    requires ValidChoices(choices, |items|)
    ensures |Shuffled(items, choices)| == |items|
    ensures multiset(Shuffled(items, choices)) == multiset(items)
    ensures |items| <= 1 ==> Shuffled(items, choices) == items
  {
    if |items| > 0 {
      ShuffleFromPermutes(items, choices, |items| - 1);
    }
  }

  /**
   * `shuffleArray`: copy the input into a fresh array and swap in place from the last
   * index down to 1. The input is a value, so it is left as it was.
   */
  method ShuffleArray<T>(items: seq<T>, choices: seq<nat>) returns (r: seq<T>)
    requires ValidChoices(choices, |items|)
    ensures r == Shuffled(items, choices)
    ensures |r| == |items| && multiset(r) == multiset(items)
    ensures |items| <= 1 ==> r == items
  {
    var shuffled := new T[|items|](k requires 0 <= k < |items| => items[k]);
    assert shuffled[..] == items;
    var i := shuffled.Length - 1;
    while i > 0
      invariant -1 <= i < shuffled.Length
      invariant i == -1 ==> items == [] && shuffled[..] == items
      invariant i >= 0 ==> ShuffleFrom(shuffled[..], choices, i) == Shuffled(items, choices)
    {
      var j := choices[i];
      shuffled[i], shuffled[j] := shuffled[j], shuffled[i];
      i := i - 1;
    }
    assert i == 0 ==> ShuffleFrom(shuffled[..], choices, i) == shuffled[..];
    r := shuffled[..];
    ShuffledPermutes(items, choices);
  }
}
