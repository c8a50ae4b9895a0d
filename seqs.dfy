/**
 * Sequence helpers shared by the state-stack models: the top and the rest
 * of a stack kept as a sequence (top last), reversal, and distinctness.
 */
module Seqs {
  function Last<T>(s: seq<T>): T
    requires s != []
  {
    s[|s| - 1]
  }

  function Pop<T>(s: seq<T>): seq<T>
    requires s != []
  {
    s[..|s| - 1]
  }

  function Reversed<T>(s: seq<T>): (r: seq<T>)
    ensures |r| == |s|
    ensures forall i :: 0 <= i < |s| ==> r[i] == s[|s| - 1 - i]
  {
    if s == [] then [] else [Last(s)] + Reversed(Pop(s))
  }

  predicate Distinct<T(==)>(s: seq<T>)
  {
    forall i, j :: 0 <= i < j < |s| ==> s[i] != s[j]
  }

  lemma ConcatAssoc<T>(a: seq<T>, b: seq<T>, c: seq<T>)
    ensures (a + b) + c == a + (b + c)
  {
  }

  lemma {:induction false} DistinctCount<T>(s: seq<T>, x: T)
    requires Distinct(s)
    ensures multiset(s)[x] == (if x in s then 1 else 0)
    decreases |s|
  {
    if s != [] {
      assert s == [s[0]] + s[1..];
      assert Distinct(s[1..]) by {
        forall i, j | 0 <= i < j < |s[1..]| ensures s[1..][i] != s[1..][j] {
          assert s[1..][i] == s[i + 1] && s[1..][j] == s[j + 1];
        }
      }
      assert s[0] !in s[1..] by {
        forall i | 0 <= i < |s[1..]| ensures s[1..][i] != s[0] {
          assert s[1..][i] == s[i + 1];
        }
      }
      DistinctCount(s[1..], x);
    }
  }

  /**
   * Removal of the element at `i` by moving the last element into its
   * place and dropping the last slot.
   */
  function SwapRemove<T>(s: seq<T>, i: nat): (r: seq<T>)
    requires i < |s|
    ensures |r| == |s| - 1
    ensures forall p :: 0 <= p < i ==> r[p] == s[p]
  {
    var last := |s| - 1;
    if i == last then s[..last]
    else s[..i] + [s[last]] + s[i + 1..last]
  }

  /** Swap-removal puts the last element at `i` and leaves every other position as it was. */
  lemma SwapRemoveAt<T>(s: seq<T>, i: nat)
    requires i < |s|
    ensures forall p :: 0 <= p < |s| - 1 ==> SwapRemove(s, i)[p] == (if p == i then s[|s| - 1] else s[p])
  {
  }

  /** Swap-removal is overwriting slot `i` with the last element and dropping the last slot. */
  lemma SwapRemoveInPlace<T>(s: seq<T>, i: nat)
    requires i < |s|
    ensures SwapRemove(s, i) == s[i := s[|s| - 1]][..|s| - 1]
  {
    SwapRemoveAt(s, i);
  }

  /** Swap-removal takes out exactly the element at `i`. */
  lemma SwapRemoveMultiset<T>(s: seq<T>, i: nat)
    requires i < |s|
    ensures multiset(SwapRemove(s, i)) + multiset{s[i]} == multiset(s)
  {
    var last := |s| - 1;
    if i == last {
      assert s == s[..last] + [s[last]];
    } else {
      assert s == s[..i] + [s[i]] + s[i + 1..last] + [s[last]];
    }
  }
}
