// The Fisher–Yates shuffle over a copy of an array. The source's
// `Math.random()` draws are an input: a sequence of reals in [0, 1), consumed
// one per swap, from the last position of the array down to the second.
module Shuffle {

  /** A value `Math.random()` can return. */
  predicate IsRoll(r: real)
  {
    0.0 <= r < 1.0
  }

  predicate AreRolls(rolls: seq<real>)
  {
    forall k :: 0 <= k < |rolls| ==> IsRoll(rolls[k])
  }

  /** `Math.floor(roll * bound)`: a uniform index below `bound`. */
  function Draw(roll: real, bound: nat): (j: nat)
    requires IsRoll(roll) && bound > 0
    ensures j < bound
  {
    var x := roll * bound as real;
    assert 0.0 <= x < bound as real;
    x.Floor
  }

  /** Exchanges the elements at positions i and j. */
  function Swap<T>(s: seq<T>, i: nat, j: nat): (r: seq<T>)
    requires i < |s| && j < |s|
    ensures |r| == |s| && r[i] == s[j] && r[j] == s[i]
    ensures forall k :: 0 <= k < |s| && k != i && k != j ==> r[k] == s[k]
  {
    s[i := s[j]][j := s[i]]
  }

  lemma SwapPermutes<T>(s: seq<T>, i: nat, j: nat)
    requires i < |s| && j < |s|
    ensures multiset(Swap(s, i, j)) == multiset(s)
  {
  }

  /** Enough valid draws for shuffling a sequence of length n: one per position but the first. */
  predicate RollsFor(n: nat, rolls: seq<real>)
  {
    AreRolls(rolls) && n <= |rolls| + 1
  }

  /**
   * The shuffle loop from position i down to position 1: at each position i
   * the element is exchanged with one drawn from positions 0..i. The draw for
   * position i is the (|s| - 1 - i)-th roll.
   */
  function ShuffleDown<T>(s: seq<T>, i: int, rolls: seq<real>): (r: seq<T>)
    requires -1 <= i < |s| && RollsFor(|s|, rolls)
    ensures |r| == |s|
    decreases i
  {
    if i <= 0 then s
    else ShuffleDown(Swap(s, i, Draw(rolls[|s| - 1 - i], i + 1)), i - 1, rolls)
  }

  /** `shuffleArray`: the shuffled copy, a permutation of the input. */
  function Shuffled<T>(s: seq<T>, rolls: seq<real>): (r: seq<T>)
    requires RollsFor(|s|, rolls)
    ensures |r| == |s|
  {
    ShuffleDown(s, |s| - 1, rolls)
  }

  lemma {:induction false} ShuffleDownPermutes<T>(s: seq<T>, i: int, rolls: seq<real>)
    requires -1 <= i < |s| && RollsFor(|s|, rolls)
    ensures multiset(ShuffleDown(s, i, rolls)) == multiset(s)
    decreases i
  {
    if i > 0 {
      var j := Draw(rolls[|s| - 1 - i], i + 1);
      SwapPermutes(s, i, j);
      ShuffleDownPermutes(Swap(s, i, j), i - 1, rolls);
    }
  }

  /** The shuffled copy is a permutation of the input: same length, same multiset. */
  lemma ShuffledIsPermutation<T>(s: seq<T>, rolls: seq<real>)
    requires RollsFor(|s|, rolls)
    ensures |Shuffled(s, rolls)| == |s|
    ensures multiset(Shuffled(s, rolls)) == multiset(s)
  {
    ShuffleDownPermutes(s, |s| - 1, rolls);
  }

  /** Every element of a shuffled sequence comes from the input, and every input element is kept. */
  lemma ShuffledSameElements<T>(s: seq<T>, rolls: seq<real>)
    requires RollsFor(|s|, rolls)
    ensures forall x :: x in Shuffled(s, rolls) <==> x in s
  {
    var r := Shuffled(s, rolls);
    ShuffledIsPermutation(s, rolls);
    forall x ensures x in r <==> x in s {
      assert x in r <==> x in multiset(r);
      assert x in s <==> x in multiset(s);
    }
  }

  ghost predicate Distinct<T>(s: seq<T>)
  {
    forall i, j :: 0 <= i < j < |s| ==> s[i] != s[j]
  }

  lemma SwapDistinct<T>(s: seq<T>, i: nat, j: nat)
    requires i < |s| && j < |s| && Distinct(s)
    ensures Distinct(Swap(s, i, j))
  {
    var r := Swap(s, i, j);
    forall a, b | 0 <= a < b < |r| ensures r[a] != r[b] {
      var a' := if a == i then j else if a == j then i else a;
      var b' := if b == i then j else if b == j then i else b;
      assert r[a] == s[a'] && r[b] == s[b'] && a' != b';
    }
  }

  lemma {:induction false} ShuffleDownDistinct<T>(s: seq<T>, i: int, rolls: seq<real>)
    requires -1 <= i < |s| && RollsFor(|s|, rolls) && Distinct(s)
    ensures Distinct(ShuffleDown(s, i, rolls))
    decreases i
  {
    if i > 0 {
      var s' := Swap(s, i, Draw(rolls[|s| - 1 - i], i + 1));
      SwapDistinct(s, i, Draw(rolls[|s| - 1 - i], i + 1));
      ShuffleDownDistinct(s', i - 1, rolls);
    }
  }

  /** Shuffling a sequence without repeated elements gives one without repeated elements. */
  lemma ShuffledDistinct<T>(s: seq<T>, rolls: seq<real>)
    requires RollsFor(|s|, rolls) && Distinct(s)
    ensures Distinct(Shuffled(s, rolls))
  {
    ShuffleDownDistinct(s, |s| - 1, rolls);
  }

  /**
   * `shuffleArray`: copies the array and shuffles the copy in place, leaving
   * the argument untouched (the method may not modify it).
   */
  method ShuffleArray<T>(source: array<T>, rolls: seq<real>) returns (shuffled: array<T>)
    requires RollsFor(source.Length, rolls)
    ensures fresh(shuffled)
    ensures shuffled[..] == Shuffled(source[..], rolls)
  {
    shuffled := new T[source.Length](k reads source requires 0 <= k < source.Length => source[k]);
    ghost var original := source[..];
    assert shuffled[..] == original;
    var i := shuffled.Length - 1;
    while i > 0
      invariant -1 <= i < shuffled.Length
      invariant ShuffleDown(shuffled[..], i, rolls) == Shuffled(original, rolls)
    {
      var j := Draw(rolls[shuffled.Length - 1 - i], i + 1);
      ghost var before := shuffled[..];
      var t := shuffled[i];
      shuffled[i] := shuffled[j];
      shuffled[j] := t;
      assert shuffled[..] == Swap(before, i, j);
      i := i - 1;
    }
  }
}
