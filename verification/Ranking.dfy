/**
  Partially sorted suffixes. A text of n bytes has n + 1 suffixes, named by their start.
  `P` lists the suffixes slot by slot and `V` gives every suffix the number of its group.
  A group occupies consecutive slots and is numbered by the last of them.
 */
module Ranking {
  import opened Lex

  /** The suffix at a is lexicographically smaller than the one at b. */
  predicate SuffixLess(text: seq<byte>, a: int, b: int)
    requires 0 <= a <= |text| && 0 <= b <= |text|
    decreases |text| - a
  {
    && b < |text|
    && (a == |text| || text[a] < text[b] || (text[a] == text[b] && SuffixLess(text, a + 1, b + 1)))
  }

  lemma {:induction false} SuffixLessIsLess(text: seq<byte>, a: nat, b: nat)
    requires a <= |text| && b <= |text|
    ensures SuffixLess(text, a, b) <==> Less(text[a..], text[b..])
    decreases |text| - a
  {
    if a < |text| && b < |text| {
      assert text[a..][1..] == text[a + 1..] && text[b..][1..] == text[b + 1..];
      SuffixLessIsLess(text, a + 1, b + 1);
    }
  }

  /** The suffixes at a and b have h further bytes each, and these agree. */
  predicate Share(text: seq<byte>, a: int, b: int, h: nat)
    requires 0 <= a && 0 <= b
    decreases h
  {
    && a + h <= |text| && b + h <= |text|
    && (h == 0 || (text[a] == text[b] && Share(text, a + 1, b + 1, h - 1)))
  }

  lemma {:induction false} ShareIsPrefix(text: seq<byte>, a: nat, b: nat, h: nat)
    requires a + h <= |text| && b + h <= |text|
    ensures Share(text, a, b, h) <==> text[a..a + h] == text[b..b + h]
    decreases h
  {
    if h > 0 {
      ShareIsPrefix(text, a + 1, b + 1, h - 1);
      var s, t := text[a..a + h], text[b..b + h];
      assert s[1..] == text[a + 1..a + h] && t[1..] == text[b + 1..b + h];
      assert s == [s[0]] + s[1..] && t == [t[0]] + t[1..];
    }
  }

  /** P is a permutation of 0..|P|-1. */
  predicate IsPermutation(P: seq<int>)
  {
    && (forall k :: 0 <= k < |P| ==> 0 <= P[k] < |P|)
    && (forall j, k :: 0 <= j < k < |P| ==> P[j] != P[k])
  }

  /** P lists all suffixes of the text in strictly increasing order. */
  ghost predicate IsSuffixArray(text: seq<byte>, P: seq<int>)
  {
    && |P| == |text| + 1
    && IsPermutation(P)
    && forall j, k :: 0 <= j < k < |P| ==> Less(text[P[j]..], text[P[k]..])
  }

  /** Groups are runs of consecutive slots, numbered by their last slot. */
  predicate Grouped(P: seq<int>, V: seq<int>)
    requires |P| == |V| && IsPermutation(P)
  {
    && (forall k :: 0 <= k < |P| ==> k <= V[P[k]] < |P|)
    && (forall j, k :: 0 <= j < k < |P| && k <= V[P[j]] ==> V[P[k]] == V[P[j]])
  }

  /** A smaller group number means a smaller suffix. */
  ghost predicate Ordered(text: seq<byte>, P: seq<int>, V: seq<int>)
    requires |P| == |V| == |text| + 1 && IsPermutation(P)
  {
    forall j, k :: 0 <= j < |P| && 0 <= k < |P| && V[P[j]] < V[P[k]] ==> SuffixLess(text, P[j], P[k])
  }

  /** Different suffixes with the same group number share h bytes. */
  ghost predicate Deep(text: seq<byte>, P: seq<int>, V: seq<int>, h: nat)
    requires |P| == |V| == |text| + 1 && IsPermutation(P)
  {
    forall j, k :: 0 <= j < |P| && 0 <= k < |P| && j != k && V[P[j]] == V[P[k]] ==> Share(text, P[j], P[k], h)
  }

  /** The invariant that every step of the sorting algorithm keeps. */
  ghost predicate Ranks(text: seq<byte>, P: seq<int>, V: seq<int>, h: nat)
  {
    && |P| == |V| == |text| + 1
    && IsPermutation(P)
    && Grouped(P, V)
    && Ordered(text, P, V)
    && Deep(text, P, V, h)
  }

  /** Slot k is the first of its group, or lies just past the last group. */
  predicate GroupStart(P: seq<int>, V: seq<int>, k: int)
    requires |P| == |V| && IsPermutation(P) && 0 <= k <= |P|
  {
    k == 0 || V[P[k - 1]] == k - 1
  }

  predicate Singleton(P: seq<int>, V: seq<int>, k: int)
    requires |P| == |V| && IsPermutation(P) && 0 <= k < |P|
  {
    GroupStart(P, V, k) && V[P[k]] == k
  }

  // ---- Permutations ------------------------------------------------------------

  /** Distinct numbers below a bound are no more than the bound. */
  lemma {:induction false} Pigeonhole(s: seq<int>, values: set<int>)
    requires forall k :: 0 <= k < |s| ==> s[k] in values
    requires forall j, k :: 0 <= j < k < |s| ==> s[j] != s[k]
    ensures |s| <= |values|
  {
    if s != [] {
      Pigeonhole(s[1..], values - {s[0]});
    }
  }

  function UpTo(n: nat): (values: set<int>)
    ensures forall v :: v in values <==> 0 <= v < n
    ensures |values| == n
  {
    if n == 0 then {} else UpTo(n - 1) + {n - 1}
  }

  /** Every suffix has a slot. */
  lemma SlotOf(P: seq<int>, v: int) returns (k: nat)
    requires IsPermutation(P) && 0 <= v < |P|
    ensures k < |P| && P[k] == v
  {
    if v !in P {
      Pigeonhole(P, UpTo(|P|) - {v});
    }
    k :| 0 <= k < |P| && P[k] == v;
  }

  // ---- Comparing by the next h bytes ----------------------------------------------

  /** Suffixes that share h bytes compare like the suffixes h bytes further on. */
  lemma {:induction false} LessAfterShared(text: seq<byte>, a: nat, b: nat, h: nat)
    requires Share(text, a, b, h)
    ensures SuffixLess(text, a, b) <==> SuffixLess(text, a + h, b + h)
    decreases h
  {
    if h > 0 {
      LessAfterShared(text, a + 1, b + 1, h - 1);
    }
  }

  lemma {:induction false} ShareSum(text: seq<byte>, a: nat, b: nat, h: nat, g: nat)
    requires Share(text, a, b, h) && Share(text, a + h, b + h, g)
    ensures Share(text, a, b, h + g)
    decreases h
  {
    if h > 0 {
      ShareSum(text, a + 1, b + 1, h - 1, g);
    }
  }

  /**
    The doubling step. Suffixes that share h bytes compare like the group numbers h
    bytes further on, and if these are equal they share 2h bytes.
   */
  lemma Doubling(text: seq<byte>, P: seq<int>, V: seq<int>, h: nat, a: nat, b: nat)
    requires Ranks(text, P, V, h)
    requires a != b && Share(text, a, b, h)
    ensures V[a + h] < V[b + h] ==> SuffixLess(text, a, b)
    ensures V[a + h] == V[b + h] ==> Share(text, a, b, 2 * h)
  {
    var j := SlotOf(P, a + h);
    var k := SlotOf(P, b + h);
    LessAfterShared(text, a, b, h);
    if V[a + h] == V[b + h] {
      assert Share(text, P[j], P[k], h);
      ShareSum(text, a, b, h, h);
    }
  }

  // ---- Refining the groups --------------------------------------------------------

  /** The suffixes in slots [lo, hi) come before those in slots [hi, last]. */
  ghost predicate Precede(text: seq<byte>, P: seq<int>, lo: int, hi: int, last: int)
    requires |P| == |text| + 1 && IsPermutation(P) && 0 <= lo <= hi && last < |P|
  {
    forall j, k :: lo <= j < hi <= k <= last ==> SuffixLess(text, P[j], P[k])
  }

  /** V' is V with the suffixes in slots [lo, hi) renumbered to hi - 1. */
  predicate Renumbered(P: seq<int>, V: seq<int>, V': seq<int>, lo: int, hi: int)
    requires |P| == |V| && IsPermutation(P) && 0 <= lo < hi <= |P|
  {
    && |V'| == |V|
    && (forall k :: lo <= k < hi ==> V'[P[k]] == hi - 1)
    && (forall k :: 0 <= k < |P| && !(lo <= k < hi) ==> V'[P[k]] == V[P[k]])
  }

  lemma CarveGrouped(P: seq<int>, V: seq<int>, V': seq<int>, lo: int, hi: int)
    requires |P| == |V| && IsPermutation(P) && Grouped(P, V)
    requires 0 <= lo < hi <= |P| && GroupStart(P, V, lo) && hi <= V[P[lo]] + 1
    requires Renumbered(P, V, V', lo, hi)
    ensures Grouped(P, V')
  {
    assert forall j :: 0 <= j < lo ==> V[P[j]] < lo;
  }

  lemma CarveOrdered(text: seq<byte>, P: seq<int>, V: seq<int>, V': seq<int>, lo: int, hi: int)
    requires |P| == |V| == |text| + 1 && IsPermutation(P) && Grouped(P, V) && Ordered(text, P, V)
    requires 0 <= lo < hi <= |P| && GroupStart(P, V, lo) && hi <= V[P[lo]] + 1
    requires Precede(text, P, lo, hi, V[P[lo]])
    requires Renumbered(P, V, V', lo, hi)
    ensures Ordered(text, P, V')
  {
    var end := V[P[lo]];
    forall j, k | 0 <= j < |P| && 0 <= k < |P| && V'[P[j]] < V'[P[k]]
      ensures SuffixLess(text, P[j], P[k])
    {
      if V[P[j]] < V[P[k]] {
      } else {
        assert V[P[j]] == end == V[P[k]] by { CarveBands(P, V, lo, j); CarveBands(P, V, lo, k); }
        CarveBands(P, V, lo, j);
        CarveBands(P, V, lo, k);
      }
    }
  }

  /** Slots before, in and after the group that starts in slot lo. */
  lemma CarveBands(P: seq<int>, V: seq<int>, lo: int, k: int)
    requires |P| == |V| && IsPermutation(P) && Grouped(P, V)
    requires 0 <= lo < |P| && GroupStart(P, V, lo) && 0 <= k < |P|
    ensures k < lo ==> V[P[k]] < lo
    ensures lo <= k <= V[P[lo]] ==> V[P[k]] == V[P[lo]]
    ensures V[P[lo]] < k ==> V[P[lo]] < V[P[k]]
  {}

  lemma CarveDeep(text: seq<byte>, P: seq<int>, V: seq<int>, V': seq<int>, h: nat, lo: int, hi: int)
    requires |P| == |V| == |text| + 1 && IsPermutation(P) && Grouped(P, V) && Deep(text, P, V, h)
    requires 0 <= lo < hi <= |P| && GroupStart(P, V, lo) && hi <= V[P[lo]] + 1
    requires Renumbered(P, V, V', lo, hi)
    ensures Deep(text, P, V', h)
  {
    forall j, k | 0 <= j < |P| && 0 <= k < |P| && j != k && V'[P[j]] == V'[P[k]]
      ensures Share(text, P[j], P[k], h)
    {
      CarveBands(P, V, lo, j);
      CarveBands(P, V, lo, k);
    }
  }

  /** The numbers V' split the groups of V: suffixes that V' numbers alike were numbered alike. */
  predicate Refines(V: seq<int>, V': seq<int>)
  {
    && |V'| == |V|
    && forall a, b :: 0 <= a < |V| && 0 <= b < |V| && V'[a] == V'[b] ==> V[a] == V[b]
  }

  lemma RefinesSelf(V: seq<int>)
    ensures Refines(V, V)
  {}

  lemma RefinesTransitive(V: seq<int>, V': seq<int>, V'': seq<int>)
    requires Refines(V, V') && Refines(V', V'')
    ensures Refines(V, V'')
  {}

  /** Numbers are only ever refined, also for suffixes whose keys are still to be read. */
  lemma CarveRefines(P: seq<int>, V: seq<int>, V': seq<int>, lo: int, hi: int)
    requires |P| == |V| && IsPermutation(P) && Grouped(P, V)
    requires 0 <= lo < hi <= |P| && GroupStart(P, V, lo) && hi <= V[P[lo]] + 1
    requires Renumbered(P, V, V', lo, hi)
    ensures Refines(V, V')
  {
    forall a, b | 0 <= a < |V| && 0 <= b < |V| && V'[a] == V'[b]
      ensures V[a] == V[b]
    {
      var j := SlotOf(P, a);
      var k := SlotOf(P, b);
      CarveBands(P, V, lo, j);
      CarveBands(P, V, lo, k);
    }
  }

  /** Giving the first suffixes of a group a number of their own keeps the invariant. */
  lemma Carve(text: seq<byte>, P: seq<int>, V: seq<int>, V': seq<int>, h: nat, lo: int, hi: int)
    requires Ranks(text, P, V, h)
    requires 0 <= lo < hi <= |P| && GroupStart(P, V, lo) && hi <= V[P[lo]] + 1
    requires Precede(text, P, lo, hi, V[P[lo]])
    requires Renumbered(P, V, V', lo, hi)
    ensures Ranks(text, P, V', h)
    ensures GroupStart(P, V', lo) && GroupStart(P, V', hi)
    ensures hi <= V[P[lo]] ==> V'[P[hi]] == V[P[lo]]
  {
    CarveGrouped(P, V, V', lo, hi);
    CarveOrdered(text, P, V, V', lo, hi);
    CarveDeep(text, P, V, V', h, lo, hi);
  }

  // ---- Exchanging suffixes of one group -------------------------------------------

  /** P' is P with the suffixes in slots a and b exchanged. */
  predicate IsSwap(P: seq<int>, P': seq<int>, a: int, b: int)
    requires 0 <= a < |P| && 0 <= b < |P|
  {
    && |P'| == |P|
    && P'[a] == P[b]
    && P'[b] == P[a]
    && forall k :: 0 <= k < |P| && k != a && k != b ==> P'[k] == P[k]
  }

  lemma SwapPermutation(P: seq<int>, P': seq<int>, a: int, b: int)
    requires IsPermutation(P) && 0 <= a < |P| && 0 <= b < |P| && IsSwap(P, P', a, b)
    ensures IsPermutation(P')
  {}

  lemma SwapGrouped(P: seq<int>, P': seq<int>, V: seq<int>, a: int, b: int)
    requires IsPermutation(P) && |V| == |P| && Grouped(P, V)
    requires 0 <= a < |P| && 0 <= b < |P| && IsSwap(P, P', a, b) && V[P[a]] == V[P[b]]
    requires IsPermutation(P')
    ensures Grouped(P', V)
  {
    assert forall k :: 0 <= k < |P| ==> V[P'[k]] == V[P[k]];
  }

  lemma SwapOrdered(text: seq<byte>, P: seq<int>, P': seq<int>, V: seq<int>, a: int, b: int)
    requires IsPermutation(P) && |V| == |P| == |text| + 1 && Ordered(text, P, V)
    requires 0 <= a < |P| && 0 <= b < |P| && IsSwap(P, P', a, b) && V[P[a]] == V[P[b]]
    requires IsPermutation(P')
    ensures Ordered(text, P', V)
  {}

  lemma SwapDeep(text: seq<byte>, P: seq<int>, P': seq<int>, V: seq<int>, h: nat, a: int, b: int)
    requires IsPermutation(P) && |V| == |P| == |text| + 1 && Deep(text, P, V, h)
    requires 0 <= a < |P| && 0 <= b < |P| && IsSwap(P, P', a, b) && V[P[a]] == V[P[b]]
    requires IsPermutation(P')
    ensures Deep(text, P', V, h)
  {}

  /** Exchanging two suffixes of the same group keeps the invariant. */
  lemma SwapRanks(text: seq<byte>, P: seq<int>, P': seq<int>, V: seq<int>, h: nat, a: int, b: int)
    requires Ranks(text, P, V, h)
    requires 0 <= a < |P| && 0 <= b < |P| && IsSwap(P, P', a, b) && V[P[a]] == V[P[b]]
    ensures Ranks(text, P', V, h)
  {
    SwapPermutation(P, P', a, b);
    SwapGrouped(P, P', V, a, b);
    SwapOrdered(text, P, P', V, a, b);
    SwapDeep(text, P, P', V, h, a, b);
  }
}
