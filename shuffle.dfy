/** Fisher-Yates shuffle of a copy of the input. The random index drawn
    at each step is a nondeterministic choice in range, so every property
    proved here holds whatever the random source returns. */
module Shuffle {

  /** Copies `input` into a fresh array, then walks `i` down from the last
      index to 1, swapping cell `i` with a cell `j` chosen in `[0, i]`.
      The caller's sequence is a value and is never touched. */
  method ShuffleArray<T>(input: seq<T>) returns (r: seq<T>)
    ensures |r| == |input|
    ensures multiset(r) == multiset(input)
  {
    var a := new T[|input|](k requires 0 <= k < |input| => input[k]);
    assert a[..] == input;
    var i := a.Length - 1;
    while i > 0
      invariant -1 <= i < a.Length
      invariant multiset(a[..]) == multiset(input)
    {
      var j :| 0 <= j <= i;
      ghost var before := a[..];
      a[i], a[j] := a[j], a[i];
      assert a[..] == before[i := before[j]][j := before[i]];
      SwapKeepsMultiset(before, i, j);
      i := i - 1;
    }
    r := a[..];
  }

  /** Exchanging two cells keeps the multiset of a sequence. */
  lemma SwapKeepsMultiset<T>(s: seq<T>, i: nat, j: nat)
    requires i < |s| && j < |s|
    ensures multiset(s[i := s[j]][j := s[i]]) == multiset(s)
  {
  }
}
