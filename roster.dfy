/** The hidden presentation order and the display shuffle (constants.ts). */
module Roster {

  /** No element occurs twice. */
  ghost predicate Distinct<T>(s: seq<T>) {
    forall i, j :: 0 <= i < j < |s| ==> s[i] != s[j]
  }

  /** The fixed priority list that decides who presents next. */
  function SecretOrder(): (r: seq<string>)
    ensures |r| == 10
    ensures Distinct(r)
    ensures "" !in r
  {
    ["Mission", "DDIL", "DevOps", "Core", "UI",
     "Effects", "Semantics", "Sensemaking", "AI", "Aggressor"]
  }

  /** A sequence is duplicate-free exactly when no element has multiplicity above one. */
  lemma {:induction false} DistinctMultiplicity<T>(s: seq<T>)
    ensures Distinct(s) <==> forall x :: multiset(s)[x] <= 1
  {
    if |s| > 0 {
      var rest := s[1..];
      DistinctMultiplicity(rest);
      assert s == [s[0]] + rest;
      assert multiset(s) == multiset{s[0]} + multiset(rest);
      if Distinct(s) {
        assert Distinct(rest) by {
          forall i, j | 0 <= i < j < |rest| ensures rest[i] != rest[j] {
            assert rest[i] == s[i + 1] && rest[j] == s[j + 1];
          }
        }
        assert s[0] !in rest by {
          forall j | 0 <= j < |rest| ensures rest[j] != s[0] {
            assert rest[j] == s[j + 1];
          }
        }
      } else {
        var i, j :| 0 <= i < j < |s| && s[i] == s[j];
        if i == 0 {
          assert s[j] == rest[j - 1];
          assert multiset(s)[s[0]] >= 2;
        } else {
          assert rest[i - 1] == s[i] && rest[j - 1] == s[j];
          assert !Distinct(rest);
          var x :| multiset(rest)[x] > 1;
          assert multiset(s)[x] > 1;
        }
      }
    }
  }

  /** A permutation of a duplicate-free sequence is duplicate-free. */
  lemma DistinctPermutation<T>(s: seq<T>, t: seq<T>)
    requires multiset(s) == multiset(t)
    requires Distinct(t)
    ensures Distinct(s)
  {
    DistinctMultiplicity(t);
    DistinctMultiplicity(s);
  }

  /** One step of the shuffle: exchange the elements at i and j. */
  function Swap<T>(s: seq<T>, i: nat, j: nat): (r: seq<T>)
    requires i < |s| && j < |s|
    ensures |r| == |s| && r[i] == s[j] && r[j] == s[i]
    ensures forall k :: 0 <= k < |s| && k != i && k != j ==> r[k] == s[k]
  {
    s[i := s[j]][j := s[i]]
  }

  /** Each exchange keeps the multiset of elements. */
  lemma SwapPermutes<T>(s: seq<T>, i: nat, j: nat)
    requires i < |s| && j < |s|
    ensures multiset(Swap(s, i, j)) == multiset(s)
  {
  }

  /**
   * The random indices the shuffle draws for an input of length n:
   * draws[i] is the j picked when the loop index is i, and lies in [0, i].
   * draws[0] is never consulted, because the loop stops before i reaches 0.
   */
  ghost predicate ValidDraws(draws: seq<nat>, n: nat) {
    |draws| == n && forall i :: 0 <= i < n ==> draws[i] <= i
  }

  /** The sequence after the loop steps i, i-1, ..., 1 have been applied to s. */
  function SwapsDown<T>(s: seq<T>, draws: seq<nat>, i: nat): (r: seq<T>)
    requires i < |s| && ValidDraws(draws, |s|)
    ensures |r| == |s|
    decreases i
  {
    if i == 0 then s else SwapsDown(Swap(s, i, draws[i]), draws, i - 1)
  }

  /** Every step of the loop keeps the multiset, so all of them together do. */
  lemma {:induction false} SwapsDownPermutes<T>(s: seq<T>, draws: seq<nat>, i: nat)
    requires i < |s| && ValidDraws(draws, |s|)
    ensures multiset(SwapsDown(s, draws, i)) == multiset(s)
    decreases i
  {
    if i > 0 {
      SwapPermutes(s, i, draws[i]);
      SwapsDownPermutes(Swap(s, i, draws[i]), draws, i - 1);
    }
  }

  /** What the Fisher-Yates shuffle returns for the input s and the given draws. */
  function Shuffled<T>(s: seq<T>, draws: seq<nat>): (r: seq<T>)
    requires ValidDraws(draws, |s|)
    ensures |r| == |s|
    ensures |s| <= 1 ==> r == s
  {
    if |s| == 0 then s else SwapsDown(s, draws, |s| - 1)
  }

  /** The shuffle returns a permutation of its input. */
  lemma ShuffledPermutes<T>(s: seq<T>, draws: seq<nat>)
    requires ValidDraws(draws, |s|)
    ensures multiset(Shuffled(s, draws)) == multiset(s)
  {
    if |s| > 0 {
      SwapsDownPermutes(s, draws, |s| - 1);
    }
  }

  /** The destructuring exchange of the loop body, on the array itself. */
  method SwapInPlace<T>(a: array<T>, i: nat, j: nat)
    requires i < a.Length && j < a.Length
    modifies a
    ensures a[..] == Swap(old(a[..]), i, j)
  {
    a[i], a[j] := a[j], a[i];
  }

  /**
   * The shuffle: copies the input into a new array, then for i from n-1
   * down to 1 exchanges the elements at i and draws[i]. The input array is
   * not in the frame, so it cannot change.
   */
  method ShuffleArray<T>(input: array<T>, draws: seq<nat>) returns (output: array<T>)
    requires ValidDraws(draws, input.Length)
    ensures fresh(output)
    ensures output[..] == Shuffled(input[..], draws)
    ensures multiset(output[..]) == multiset(input[..])
  {
    output := new T[input.Length](k requires 0 <= k < input.Length reads input => input[k]);
    ghost var copy := output[..];
    assert copy == input[..];
    var i := output.Length - 1;
    while i > 0
      invariant -1 <= i < output.Length
      invariant output.Length > 0 ==> i >= 0
      invariant multiset(output[..]) == multiset(copy)
      invariant i >= 0 ==> SwapsDown(output[..], draws, i) == Shuffled(copy, draws)
    {
      SwapPermutes(output[..], i, draws[i]);
      SwapInPlace(output, i, draws[i]);
      i := i - 1;
    }
  }
}
