/**
  The slots one call of `split` works on. It is always called on the first slots of a
  group, so that the slots still to do stay a group of the invariant at every moment.
 */
module Window {
  import opened Lex
  import opened Ranking

  /**
    Slots [start, end) open a group whose members have h further bytes, and come before
    the other suffixes of that group.
   */
  ghost predicate IsWindow(text: seq<byte>, P: seq<int>, V: seq<int>, start: int, end: int, h: nat)
  {
    && Ranks(text, P, V, h)
    && 0 <= start < end <= |P|
    && GroupStart(P, V, start)
    && end <= V[P[start]] + 1
    && Precede(text, P, start, end, V[P[start]])
    && forall k :: start <= k < end ==> P[k] + h <= |text|
  }

  lemma WindowFacts(text: seq<byte>, P: seq<int>, V: seq<int>, start: int, end: int, h: nat)
    requires IsWindow(text, P, V, start, end, h)
    ensures |P| == |V| == |text| + 1 && IsPermutation(P) && Ranks(text, P, V, h)
    ensures 0 <= start < end <= |P| && GroupStart(P, V, start)
    ensures end <= V[P[start]] + 1 <= |P|
  {}

  lemma RanksFacts(text: seq<byte>, P: seq<int>, V: seq<int>, h: nat)
    requires Ranks(text, P, V, h)
    ensures |P| == |V| == |text| + 1 && IsPermutation(P) && Grouped(P, V)
  {}

  /** All slots of a window belong to the group of its first slot. */
  lemma WindowGroup(text: seq<byte>, P: seq<int>, V: seq<int>, start: int, end: int, h: nat, k: int)
    requires IsWindow(text, P, V, start, end, h) && start <= k < end
    ensures V[P[k]] == V[P[start]]
  {}

  /** Exchanging two suffixes of a window leaves it a window. */
  lemma SwapInWindow(text: seq<byte>, P: seq<int>, P': seq<int>, V: seq<int>, start: int, end: int, h: nat, a: int, b: int)
    requires IsWindow(text, P, V, start, end, h)
    requires start <= a < end && start <= b < end && IsSwap(P, P', a, b)
    ensures IsWindow(text, P', V, start, end, h)
  {
    WindowGroup(text, P, V, start, end, h, a);
    WindowGroup(text, P, V, start, end, h, b);
    SwapRanks(text, P, P', V, h, a, b);
  }

  /** The number by which `split` compares the suffix in slot k. */
  function Key(P: seq<int>, V: seq<int>, h: nat, k: int): int
  {
    if 0 <= k < |P| && 0 <= P[k] && P[k] + h < |V| then V[P[k] + h] else 0
  }

  lemma WindowDoubling(text: seq<byte>, P: seq<int>, V: seq<int>, start: int, end: int, h: nat, j: int, k: int)
    requires IsWindow(text, P, V, start, end, h)
    requires start <= j < end && start <= k < end && j != k
    ensures Key(P, V, h, j) < Key(P, V, h, k) ==> SuffixLess(text, P[j], P[k])
    ensures Key(P, V, h, j) == Key(P, V, h, k) ==> Share(text, P[j], P[k], 2 * h)
  {
    WindowGroup(text, P, V, start, end, h, j);
    WindowGroup(text, P, V, start, end, h, k);
    Doubling(text, P, V, h, P[j], P[k]);
  }

  /** Slots of a window with smaller keys than all later slots hold smaller suffixes. */
  lemma SmallerKeysPrecede(text: seq<byte>, P: seq<int>, V: seq<int>, start: int, end: int, h: nat, lo: int, hi: int)
    requires IsWindow(text, P, V, start, end, h)
    requires start <= lo <= hi <= end
    requires forall j, k :: lo <= j < hi <= k < end ==> Key(P, V, h, j) < Key(P, V, h, k)
    ensures Precede(text, P, lo, hi, V[P[start]])
  {
    forall j, k | lo <= j < hi <= k <= V[P[start]]
      ensures SuffixLess(text, P[j], P[k])
    {
      if k < end {
        WindowDoubling(text, P, V, start, end, h, j, k);
      }
    }
  }

  /** The suffixes in slots [lo, hi) pairwise share d bytes. */
  ghost predicate Alike(text: seq<byte>, P: seq<int>, lo: int, hi: int, d: nat)
    requires IsPermutation(P) && 0 <= lo <= hi <= |P|
  {
    forall j, k :: lo <= j < hi && lo <= k < hi && j != k ==> Share(text, P[j], P[k], d)
  }

  lemma EqualKeysAlike(text: seq<byte>, P: seq<int>, V: seq<int>, start: int, end: int, h: nat, lo: int, hi: int)
    requires IsWindow(text, P, V, start, end, h)
    requires start <= lo <= hi <= end
    requires forall j, k :: lo <= j < hi && lo <= k < hi ==> Key(P, V, h, j) == Key(P, V, h, k)
    ensures Alike(text, P, lo, hi, 2 * h)
  {
    forall j, k | lo <= j < hi && lo <= k < hi && j != k
      ensures Share(text, P[j], P[k], 2 * h)
    {
      WindowDoubling(text, P, V, start, end, h, j, k);
    }
  }

  // ---- Slots that are done for this pass -----------------------------------------

  /**
    Slots [start, end) consist of whole groups whose members share 2h bytes; I marks
    the singletons and lists the suffixes of the other groups.
   */
  ghost predicate Settled(text: seq<byte>, P: seq<int>, V: seq<int>, I: seq<int>, start: int, end: int, h: nat)
  {
    && |P| == |V| == |I| == |text| + 1 && IsPermutation(P) && 0 <= start <= end <= |P|
    && GroupStart(P, V, start)
    && GroupStart(P, V, end)
    && (forall j, k :: start <= j < end && start <= k < end && j != k && V[P[j]] == V[P[k]] ==>
          Share(text, P[j], P[k], 2 * h))
    && (forall k :: start <= k < end ==> Listed(text, P, V, I, k, h))
  }

  predicate Listed(text: seq<byte>, P: seq<int>, V: seq<int>, I: seq<int>, k: int, h: nat)
    requires |P| == |V| == |I| == |text| + 1 && IsPermutation(P) && 0 <= k < |P|
  {
    if Singleton(P, V, k) then I[k] == -1 else I[k] == P[k] && P[k] + 2 * h <= |text|
  }

  lemma SettledNone(text: seq<byte>, P: seq<int>, V: seq<int>, I: seq<int>, start: int, h: nat)
    requires |P| == |V| == |I| == |text| + 1 && IsPermutation(P) && 0 <= start <= |P|
    requires GroupStart(P, V, start)
    ensures Settled(text, P, V, I, start, start, h)
  {}

  /** One new group is settled. */
  lemma SettledGroup(text: seq<byte>, P: seq<int>, V: seq<int>, I: seq<int>, lo: int, hi: int, h: nat)
    requires |P| == |V| == |I| == |text| + 1 && IsPermutation(P) && 0 <= lo < hi <= |P|
    requires GroupStart(P, V, lo)
    requires forall k :: lo <= k < hi ==> V[P[k]] == hi - 1
    requires Alike(text, P, lo, hi, 2 * h)
    requires if lo + 1 == hi then I[lo] == -1 else forall k :: lo <= k < hi ==> I[k] == P[k]
    ensures Settled(text, P, V, I, lo, hi, h)
  {
    forall k | lo <= k < hi
      ensures Listed(text, P, V, I, k, h)
    {
      if lo + 1 < hi {
        assert Share(text, P[k], P[if k == lo then hi - 1 else lo], 2 * h);
      }
    }
  }

  /** The slots in [start, end) hold the same suffixes, numbers and entries as before. */
  predicate SameSlots(P: seq<int>, V: seq<int>, I: seq<int>, P': seq<int>, V': seq<int>, I': seq<int>, start: int, end: int)
    requires |P| == |V| == |I| == |P'| == |V'| == |I'| && IsPermutation(P)
    requires 0 <= start <= end <= |P|
  {
    forall k :: start <= k < end ==> P'[k] == P[k] && I'[k] == I[k] && V'[P[k]] == V[P[k]]
  }

  lemma SettledFrame(text: seq<byte>, P: seq<int>, V: seq<int>, I: seq<int>, P': seq<int>, V': seq<int>, I': seq<int>,
                     start: int, end: int, h: nat)
    requires Settled(text, P, V, I, start, end, h)
    requires |P'| == |V'| == |I'| == |P| && IsPermutation(P') && GroupStart(P', V', start)
    requires SameSlots(P, V, I, P', V', I', start, end)
    ensures Settled(text, P', V', I', start, end, h)
  {
    forall k | start <= k < end
      ensures Listed(text, P', V', I', k, h)
    {
      assert Listed(text, P, V, I, k, h);
      assert k > start ==> P'[k - 1] == P[k - 1];
    }
  }

  lemma SettledJoin(text: seq<byte>, P: seq<int>, V: seq<int>, I: seq<int>, a: int, b: int, c: int, h: nat)
    requires Settled(text, P, V, I, a, b, h) && Settled(text, P, V, I, b, c, h)
    requires Grouped(P, V)
    ensures Settled(text, P, V, I, a, c, h)
  {
    if a < b < c {
      forall j, k | a <= j < b <= k < c
        ensures V[P[j]] < V[P[k]]
      {
        assert V[P[j]] <= b - 1;
      }
    }
  }

  /** Only slots [start, end) hold other suffixes, numbers or entries than before. */
  predicate OnlyWithin(P: seq<int>, V: seq<int>, I: seq<int>, P': seq<int>, V': seq<int>, I': seq<int>, start: int, end: int)
  {
    && |P'| == |V'| == |I'| == |V| == |I| == |P| && IsPermutation(P) && 0 <= start <= end <= |P|
    && SameSlots(P, V, I, P', V', I', 0, start)
    && SameSlots(P, V, I, P', V', I', end, |P|)
  }

  lemma OnlyWithinSelf(P: seq<int>, V: seq<int>, I: seq<int>, start: int, end: int)
    requires |V| == |I| == |P| && IsPermutation(P) && 0 <= start <= end <= |P|
    ensures OnlyWithin(P, V, I, P, V, I, start, end)
  {}

  lemma OnlyWithinTransitive(P: seq<int>, V: seq<int>, I: seq<int>, P': seq<int>, V': seq<int>, I': seq<int>,
                             P'': seq<int>, V'': seq<int>, I'': seq<int>, start: int, lo: int, hi: int, end: int)
    requires start <= lo && hi <= end && IsPermutation(P')
    requires OnlyWithin(P, V, I, P', V', I', start, end)
    requires OnlyWithin(P', V', I', P'', V'', I'', lo, hi)
    ensures OnlyWithin(P, V, I, P'', V'', I'', start, end)
  {}

  /** Settled slots before a window stay settled when only the window changes. */
  lemma SettledBefore(text: seq<byte>, P: seq<int>, V: seq<int>, I: seq<int>, P': seq<int>, V': seq<int>, I': seq<int>,
                      start: int, lo: int, hi: int, h: nat)
    requires Settled(text, P, V, I, start, lo, h)
    requires OnlyWithin(P, V, I, P', V', I', lo, hi) && IsPermutation(P')
    ensures Settled(text, P', V', I', start, lo, h)
  {
    assert start > 0 ==> P'[start - 1] == P[start - 1];
    SettledFrame(text, P, V, I, P', V', I', start, lo, h);
  }

  /** The slots of a window behind finished groups are a window again. */
  lemma WindowRest(text: seq<byte>, P: seq<int>, V: seq<int>, I: seq<int>, P': seq<int>, V': seq<int>, I': seq<int>,
                   start: int, mid: int, end: int, h: nat)
    requires IsWindow(text, P, V, start, end, h) && start < mid < end
    requires Ranks(text, P', V', h) && GroupStart(P', V', mid)
    requires OnlyWithin(P, V, I, P', V', I', start, mid)
    ensures IsWindow(text, P', V', mid, end, h)
  {
    WindowGroup(text, P, V, start, end, h, mid);
  }

  /** Whatever is known about a later group stays known while earlier slots are sorted. */
  lemma GroupAhead(text: seq<byte>, P: seq<int>, V: seq<int>, I: seq<int>, P': seq<int>, V': seq<int>, I': seq<int>,
                   start: int, lo: int, hi: int, last: int, d: nat)
    requires |P| == |text| + 1 && 0 <= lo <= hi <= |P| && last < |P|
    requires OnlyWithin(P, V, I, P', V', I', start, lo) && IsPermutation(P')
    requires Precede(text, P, lo, hi, last) && Alike(text, P, lo, hi, d)
    ensures Precede(text, P', lo, hi, last) && Alike(text, P', lo, hi, d)
  {}

  // ---- Groups after a split against keys before it --------------------------------

  /** The suffixes in slots [start, end) have keys, and those that V numbers alike had the same key under V0. */
  ghost predicate EqualKeys(P: seq<int>, V: seq<int>, V0: seq<int>, start: int, end: int, h: nat)
  {
    && |P| == |V| == |V0| && IsPermutation(P) && 0 <= start <= end <= |P|
    && (forall k :: start <= k < end ==> P[k] + h < |P|)
    && forall j, k :: start <= j < end && start <= k < end && V[P[j]] == V[P[k]] ==>
         Key(P, V0, h, j) == Key(P, V0, h, k)
  }

  lemma EqualKeysNone(P: seq<int>, V: seq<int>, V0: seq<int>, start: int, h: nat)
    requires |P| == |V| == |V0| && IsPermutation(P) && 0 <= start <= |P|
    ensures EqualKeys(P, V, V0, start, start, h)
  {}

  lemma EqualKeysGroup(text: seq<byte>, P: seq<int>, V: seq<int>, V0: seq<int>, start: int, end: int, h: nat,
                       lo: int, hi: int)
    requires IsWindow(text, P, V0, start, end, h) && start <= lo <= hi <= end && |V| == |P|
    requires forall j, k :: lo <= j < hi && lo <= k < hi ==> Key(P, V0, h, j) == Key(P, V0, h, k)
    ensures EqualKeys(P, V, V0, lo, hi, h)
  {}

  /** Keys that are equal under finer numbers are equal under the coarser ones. */
  lemma EqualKeysCoarser(P: seq<int>, V: seq<int>, V0: seq<int>, V1: seq<int>, start: int, end: int, h: nat)
    requires EqualKeys(P, V, V1, start, end, h) && Refines(V0, V1)
    ensures EqualKeys(P, V, V0, start, end, h)
  {
    forall j, k | start <= j < end && start <= k < end && V[P[j]] == V[P[k]]
      ensures Key(P, V0, h, j) == Key(P, V0, h, k)
    {
      assert Key(P, V1, h, j) == Key(P, V1, h, k);
    }
  }

  /** Nothing changes for slots before the changed ones. */
  lemma EqualKeysBefore(P: seq<int>, V: seq<int>, I: seq<int>, P': seq<int>, V': seq<int>, I': seq<int>, V0: seq<int>,
                        start: int, lo: int, hi: int, h: nat)
    requires EqualKeys(P, V, V0, start, lo, h)
    requires OnlyWithin(P, V, I, P', V', I', lo, hi) && IsPermutation(P')
    ensures EqualKeys(P', V', V0, start, lo, h)
  {
    forall j, k | start <= j < lo && start <= k < lo && V'[P'[j]] == V'[P'[k]]
      ensures Key(P', V0, h, j) == Key(P', V0, h, k)
    {
      assert Key(P, V0, h, j) == Key(P, V0, h, k);
    }
  }

  lemma EqualKeysJoin(P: seq<int>, V: seq<int>, V0: seq<int>, a: int, b: int, c: int, h: nat)
    requires EqualKeys(P, V, V0, a, b, h) && EqualKeys(P, V, V0, b, c, h)
    requires Grouped(P, V) && GroupStart(P, V, b)
    ensures EqualKeys(P, V, V0, a, c, h)
  {
    if a < b < c {
      forall j, k | a <= j < b <= k < c
        ensures V[P[j]] < V[P[k]]
      {
        assert V[P[j]] <= b - 1;
      }
    }
  }

  // ---- The array I against the listing ------------------------------------------

  /** Slots [start, end) of I hold the suffixes that P lists there. */
  predicate Lists(I: seq<int>, P: seq<int>, start: int, end: int)
  {
    && |I| == |P| && 0 <= start <= end <= |P|
    && forall m :: start <= m < end ==> I[m] == P[m]
  }

  lemma ListsPart(I: seq<int>, P: seq<int>, start: int, end: int, lo: int, hi: int)
    requires Lists(I, P, start, end) && start <= lo <= hi <= end
    ensures Lists(I, P, lo, hi)
  {}

  predicate SameOutside(s: seq<int>, s': seq<int>, start: int, end: int)
  {
    && |s| == |s'|
    && forall m :: 0 <= m < |s| && !(start <= m < end) ==> s'[m] == s[m]
  }

  lemma SameOutsideSelf(s: seq<int>, start: int, end: int)
    ensures SameOutside(s, s, start, end)
  {}

  /** The entry of a window slot is a suffix, and its key is where `split` looks it up. */
  lemma WindowEntry(text: seq<byte>, I: seq<int>, P: seq<int>, V: seq<int>, start: int, end: int, h: nat, k: int)
    requires IsWindow(text, P, V, start, end, h) && Lists(I, P, start, end)
    requires start <= k < end
    ensures 0 <= start && end <= |P| == |I| == |V| == |text| + 1
    ensures 0 <= I[k] && I[k] + h < |V| && V[I[k] + h] == Key(P, V, h, k)
  {}

  lemma ListsLater(P: seq<int>, V: seq<int>, I: seq<int>, P': seq<int>, V': seq<int>, I': seq<int>,
                   start: int, mid: int, end: int)
    requires OnlyWithin(P, V, I, P', V', I', start, mid) && mid <= end && Lists(I, P, start, end)
    ensures Lists(I', P', mid, end)
  {}

  lemma OutsideOnlyWithin(P: seq<int>, V: seq<int>, I: seq<int>, P': seq<int>, I': seq<int>, start: int, end: int)
    requires |P| == |V| == |I| && IsPermutation(P) && 0 <= start <= end <= |P|
    requires SameOutside(P, P', start, end) && SameOutside(I, I', start, end)
    ensures OnlyWithin(P, V, I, P', V, I', start, end)
  {}
}
