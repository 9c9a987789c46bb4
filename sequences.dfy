/** Generic facts about sequences used by the aggregation proofs. */
module Sequences {

  /** Applies `f` to every element, keeping the order: Python's `[f(x) for x in s]`. */
  function MapSeq<A, B>(f: A -> B, s: seq<A>): (r: seq<B>)
    ensures |r| == |s|
    ensures forall i :: 0 <= i < |s| ==> r[i] == f(s[i])
  {
    seq(|s|, i requires 0 <= i < |s| => f(s[i]))
  }

  lemma MapSeqAppend<A, B>(f: A -> B, a: seq<A>, b: seq<A>)
    ensures MapSeq(f, a + b) == MapSeq(f, a) + MapSeq(f, b)
  {
  }

  /** The first element of `a` occurs somewhere in every permutation `b` of `a`,
      and removing it from both leaves permutations of each other. */
  lemma PermutationSplit<T>(a: seq<T>, b: seq<T>) returns (k: nat)
    requires |a| > 0 && multiset(a) == multiset(b)
    ensures k < |b| && b[k] == a[0]
    ensures multiset(a[1..]) == multiset(b[..k] + b[k + 1..])
  {
    assert a[0] in multiset(b);
    k :| 0 <= k < |b| && b[k] == a[0];
    assert a == [a[0]] + a[1..];
    calc {
      multiset(b);
      { assert b == b[..k] + [b[k]] + b[k + 1..]; }
      multiset(b[..k]) + multiset{b[k]} + multiset(b[k + 1..]);
      multiset(b[..k] + b[k + 1..]) + multiset{a[0]};
    }
    assert multiset(a) == multiset{a[0]} + multiset(a[1..]);
    assert multiset(a[1..]) == multiset(a) - multiset{a[0]};
    assert multiset(b[..k] + b[k + 1..]) == multiset(b) - multiset{a[0]};
  }

  /** A permutation of the input gives a permutation of the mapped output. */
  lemma {:induction false} MapSeqPermutation<A, B>(f: A -> B, a: seq<A>, b: seq<A>)
    requires multiset(a) == multiset(b)
    ensures multiset(MapSeq(f, a)) == multiset(MapSeq(f, b))
    decreases |a|
  {
    if |a| == 0 {
      assert b == [];
    } else {
      var k := PermutationSplit(a, b);
      var rest := b[..k] + b[k + 1..];
      MapSeqPermutation(f, a[1..], rest);
      assert a == [a[0]] + a[1..];
      MapSeqAppend(f, [a[0]], a[1..]);
      MapSeqAppend(f, b[..k], b[k + 1..]);
      assert b == b[..k] + ([b[k]] + b[k + 1..]);
      MapSeqAppend(f, b[..k], [b[k]] + b[k + 1..]);
      MapSeqAppend(f, [b[k]], b[k + 1..]);
    }
  }
}
