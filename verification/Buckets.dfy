/** Counting sort of the suffixes by their first byte, with the empty suffix in slot 0. */
module Buckets {
  import opened Lex
  import opened Ranking

  /** How many of the first i bytes equal c. */
  function CountOf(text: seq<byte>, c: int, i: nat): nat
    requires i <= |text|
  {
    if i == 0 then 0 else CountOf(text, c, i - 1) + if text[i - 1] == c then 1 else 0
  }

  /** How many of the first i bytes are below c. */
  function CountBelow(text: seq<byte>, c: int, i: nat): nat
    requires i <= |text|
    decreases c
  {
    if c <= 0 then 0 else CountBelow(text, c - 1, i) + CountOf(text, c - 1, i)
  }

  /** Slots (Start(c), End(c)] are the bucket of the suffixes that start with c. */
  function Start(text: seq<byte>, c: int): nat
  {
    CountBelow(text, c, |text|)
  }

  function End(text: seq<byte>, c: int): nat
  {
    Start(text, c) + CountOf(text, c, |text|)
  }

  /** The slot of suffix i: buckets in order of the byte, text order inside a bucket. */
  function Slot(text: seq<byte>, i: int): nat
    requires 0 <= i < |text|
  {
    Start(text, text[i]) + CountOf(text, text[i], i + 1)
  }

  lemma {:induction false} CountMonotone(text: seq<byte>, c: int, i: nat, j: nat)
    requires i <= j <= |text|
    ensures CountOf(text, c, i) <= CountOf(text, c, j)
    decreases j
  {
    if i < j {
      CountMonotone(text, c, i, j - 1);
    }
  }

  /** The bucket of a smaller byte ends where or before that of a larger byte starts. */
  lemma {:induction false} BucketsInOrder(text: seq<byte>, c: int, d: int)
    requires 0 <= c < d
    ensures End(text, c) <= Start(text, d)
    decreases d - c
  {
    if c + 1 < d {
      BucketsInOrder(text, c, d - 1);
    }
  }

  /** A suffix lies in the bucket of its first byte. */
  lemma SlotInBucket(text: seq<byte>, i: int)
    requires 0 <= i < |text|
    ensures Start(text, text[i]) < Slot(text, i) <= End(text, text[i])
  {
    CountMonotone(text, text[i], i + 1, |text|);
  }

  lemma {:induction false} CountBelowStep(text: seq<byte>, c: int, i: nat)
    requires i < |text| && 0 <= c
    ensures CountBelow(text, c, i + 1) == CountBelow(text, c, i) + if text[i] < c then 1 else 0
    decreases c
  {
    if 0 < c {
      CountBelowStep(text, c - 1, i);
    }
  }

  lemma {:induction false} CountBelowZero(text: seq<byte>, c: int)
    ensures CountBelow(text, c, 0) == 0
    decreases c
  {
    if 0 < c {
      CountBelowZero(text, c - 1);
    }
  }

  lemma {:induction false} CountBelowAll(text: seq<byte>, i: nat)
    requires i <= |text|
    ensures CountBelow(text, 256, i) == i
    decreases i
  {
    hide CountBelow, CountOf;
    if i > 0 {
      CountBelowAll(text, i - 1);
      CountBelowStep(text, 256, i - 1);
    } else {
      CountBelowZero(text, 256);
    }
  }

  /** Every slot but the first lies in the bucket of some byte. */
  lemma BucketOf(text: seq<byte>, k: int) returns (c: byte)
    requires 0 < k <= |text|
    ensures Start(text, c) < k <= End(text, c)
  {
    CountBelowAll(text, |text|);
    c := BucketBelow(text, k, 256);
  }

  lemma {:induction false} BucketBelow(text: seq<byte>, k: int, d: int) returns (c: byte)
    requires 0 < k <= Start(text, d) && d <= 256
    ensures Start(text, c) < k <= End(text, c)
    decreases d
  {
    if k <= Start(text, d - 1) {
      c := BucketBelow(text, k, d - 1);
    } else {
      c := d - 1;
    }
  }

  lemma EndInRange(text: seq<byte>, c: byte)
    ensures End(text, c) <= |text|
  {
    CountBelowAll(text, |text|);
    if c < 255 {
      BucketsInOrder(text, c, 256);
    }
  }

  /** Buckets of different bytes have no slot in common. */
  lemma BucketUnique(text: seq<byte>, c: byte, d: byte, k: int)
    requires Start(text, c) < k <= End(text, c) && Start(text, d) < k <= End(text, d)
    ensures c == d
  {
    if c < d {
      BucketsInOrder(text, c, d);
    } else if d < c {
      BucketsInOrder(text, d, c);
    }
  }

  // ---- The sorted buckets as groups ------------------------------------------------

  /** P lists the suffixes by bucket and V numbers each with the end of its bucket. */
  ghost predicate Bucketed(text: seq<byte>, P: seq<int>, V: seq<int>)
  {
    && |P| == |V| == |text| + 1
    && P[0] == |text| && V[|text|] == 0
    && (forall k :: 1 <= k < |P| ==> 0 <= P[k] < |text| && Slot(text, P[k]) == k)
    && (forall i :: 0 <= i < |text| ==> V[i] == End(text, text[i]))
  }

  lemma BucketedSlot(text: seq<byte>, P: seq<int>, V: seq<int>, k: int)
    requires Bucketed(text, P, V) && 0 <= k < |P|
    ensures k == 0 ==> P[k] == |text| && V[P[k]] == 0
    ensures 0 < k ==> 0 <= P[k] < |text| && V[P[k]] == End(text, text[P[k]])
    ensures 0 < k ==> Start(text, text[P[k]]) < k <= V[P[k]] <= |text|
  {
    if 0 < k {
      SlotInBucket(text, P[k]);
      EndInRange(text, text[P[k]]);
    }
  }

  lemma BucketedPermutation(text: seq<byte>, P: seq<int>, V: seq<int>)
    requires Bucketed(text, P, V)
    ensures IsPermutation(P)
  {}

  /** Slots with the same number hold suffixes with the same first byte, and conversely. */
  lemma SameBucket(text: seq<byte>, P: seq<int>, V: seq<int>, j: int, k: int)
    requires Bucketed(text, P, V) && 0 < j < |P| && 0 < k < |P|
    ensures 0 <= P[j] < |text| && 0 <= P[k] < |text|
    ensures text[P[j]] < text[P[k]] ==> V[P[j]] < k && V[P[j]] < V[P[k]]
    ensures text[P[j]] == text[P[k]] ==> V[P[j]] == V[P[k]]
  {
    hide Slot, End, Start;
    BucketedSlot(text, P, V, j);
    BucketedSlot(text, P, V, k);
    if text[P[j]] < text[P[k]] {
      BucketsInOrder(text, text[P[j]], text[P[k]]);
    }
  }

  lemma BucketedGrouped(text: seq<byte>, P: seq<int>, V: seq<int>)
    requires Bucketed(text, P, V) && IsPermutation(P)
    ensures Grouped(P, V)
  {
    forall k | 0 <= k < |P|
      ensures k <= V[P[k]] < |P|
    {
      BucketedSlot(text, P, V, k);
    }
    forall j, k | 0 <= j < k < |P| && k <= V[P[j]]
      ensures V[P[k]] == V[P[j]]
    {
      if j > 0 {
        BucketedSlot(text, P, V, j);
        SameBucket(text, P, V, j, k);
        SameBucket(text, P, V, k, j);
      }
    }
  }

  /** Sorted buckets start the invariant with one shared byte. */
  lemma BucketedRanks(text: seq<byte>, P: seq<int>, V: seq<int>)
    requires Bucketed(text, P, V)
    ensures Ranks(text, P, V, 1)
  {
    BucketedPermutation(text, P, V);
    BucketedGrouped(text, P, V);
    BucketedOrdered(text, P, V);
    BucketedDeep(text, P, V);
  }

  lemma BucketedOrdered(text: seq<byte>, P: seq<int>, V: seq<int>)
    requires Bucketed(text, P, V) && IsPermutation(P)
    ensures Ordered(text, P, V)
  {
    forall j, k | 0 <= j < |P| && 0 <= k < |P| && V[P[j]] < V[P[k]]
      ensures SuffixLess(text, P[j], P[k])
    {
      BucketedSlot(text, P, V, j);
      if j > 0 && k > 0 {
        SameBucket(text, P, V, j, k);
        SameBucket(text, P, V, k, j);
      }
    }
  }

  lemma BucketedDeep(text: seq<byte>, P: seq<int>, V: seq<int>)
    requires Bucketed(text, P, V) && IsPermutation(P)
    ensures Deep(text, P, V, 1)
  {
    forall j, k | 0 <= j < |P| && 0 <= k < |P| && j != k && V[P[j]] == V[P[k]]
      ensures Share(text, P[j], P[k], 1)
    {
      BucketedSlot(text, P, V, j);
      BucketedSlot(text, P, V, k);
      if j > 0 && k > 0 {
        SameBucket(text, P, V, j, k);
        SameBucket(text, P, V, k, j);
      }
    }
  }
}
