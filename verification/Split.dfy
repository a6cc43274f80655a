/**
  `split` sorts the suffixes of one window by their keys and gives different keys different
  groups. It reads keys from numbers that it is changing, but these are only ever refined: what
  it orders is ordered by the keys before the split too, and only suffixes with equal keys share
  a group. The listing P is ghost: finished slots of I are overwritten with -1, so I alone forgets
  which suffix they hold.
 */
module Splitting {
  import opened Lex
  import opened Ranking
  import opened Window
  import opened Tally
  import opened Partition

  /** Exchanges two entries of a window; I0 and P0 are entries and listing at some earlier moment. */
  method Swap(ghost text: seq<byte>, I: array<int>, ghost I0: seq<int>, ghost P0: seq<int>, ghost P: seq<int>,
              ghost N: seq<int>, ghost start: int, ghost end: int, ghost h: nat, a: int, b: int)
    returns (ghost P': seq<int>)
    requires I.Length == |text| + 1 && IsWindow(text, P, N, start, end, h)
    requires start <= a < end && start <= b < end
    requires Lists(I[..], P, start, end)
    requires SameOutside(I0, I[..], start, end) && SameOutside(P0, P, start, end)
    modifies I
    ensures IsWindow(text, P', N, start, end, h)
    ensures IsSwap(P, P', a, b)
    ensures Lists(I[..], P', start, end)
    ensures SameOutside(I0, I[..], start, end) && SameOutside(P0, P', start, end)
  {
    P' := P[a := P[b]][b := P[a]];
    SwapInWindow(text, P, P', N, start, end, h, a, b);
    I[a], I[b] := I[b], I[a];
  }

  /** Of the i slots from k on, the first j have key x and the others larger keys. */
  ghost predicate Sifted(P: seq<int>, V: seq<int>, h: nat, k: int, j: int, i: int, x: int)
  {
    && (forall m :: k <= m < k + j ==> Key(P, V, h, m) == x)
    && (forall m :: k + j <= m < k + i ==> x < Key(P, V, h, m))
  }

  lemma SiftStart(P: seq<int>, V: seq<int>, h: nat, k: int)
    ensures Sifted(P, V, h, k, 1, 1, Key(P, V, h, k))
  {}

  lemma SiftNext(P: seq<int>, V: seq<int>, h: nat, k: int, j: int, i: int, x: int)
    requires 0 <= j <= i && Sifted(P, V, h, k, j, i, x)
    ensures Key(P, V, h, k + i) < x ==> Sifted(P, V, h, k, 0, i, Key(P, V, h, k + i))
    ensures Key(P, V, h, k + i) > x ==> Sifted(P, V, h, k, j, i + 1, x)
  {}

  lemma SiftSwap(P: seq<int>, P': seq<int>, V: seq<int>, h: nat, k: int, j: int, i: int, x: int)
    requires 0 <= k && 0 <= j <= i && k + i < |P|
    requires Sifted(P, V, h, k, j, i, x)
    requires Key(P, V, h, k + i) == x
    requires IsSwap(P, P', k + i, k + j)
    ensures Sifted(P', V, h, k, j + 1, i + 1, x)
  {
    assert Key(P', V, h, k + j) == x;
    forall m | k + j < m <= k + i
      ensures x < Key(P', V, h, m)
    {
      if m == k + i {
        assert x < Key(P, V, h, k + j);
      } else {
        assert x < Key(P, V, h, m);
      }
    }
    forall m | k <= m < k + j
      ensures Key(P', V, h, m) == x
    {
      assert Key(P, V, h, m) == x;
    }
  }

  lemma SiftEnd(P: seq<int>, V: seq<int>, h: nat, k: int, j: int, i: int, x: int)
    requires 0 < j <= i
    requires Sifted(P, V, h, k, j, i, x)
    ensures forall m :: k <= m < k + j ==> Key(P, V, h, m) == Key(P, V, h, k)
    ensures forall m :: k + j <= m < k + i ==> Key(P, V, h, k) < Key(P, V, h, m)
  {}

  /** Moves the suffixes with the least key of slots [k, end) to the front. */
  method SelectLeast(ghost text: seq<byte>, I: array<int>, V: array<int>, ghost P: seq<int>, k: int, end: int, h: nat)
    returns (j: int, ghost P': seq<int>)
    requires I != V && I.Length == V.Length == |text| + 1
    requires IsWindow(text, P, V[..], k, end, h)
    requires Lists(I[..], P, k, end)
    modifies I
    ensures 1 <= j <= end - k
    ensures IsWindow(text, P', V[..], k, end, h)
    ensures Lists(I[..], P', k, end)
    ensures SameOutside(old(I[..]), I[..], k, end) && SameOutside(P, P', k, end)
    ensures forall m :: k <= m < k + j ==> Key(P', V[..], h, m) == Key(P', V[..], h, k)
    ensures forall m :: k + j <= m < end ==> Key(P', V[..], h, k) < Key(P', V[..], h, m)
  {
    hide *;
    ghost var N, I0 := V[..], I[..];
    P' := P;
    WindowFacts(text, P, N, k, end, h);
    WindowEntry(text, I[..], P, N, k, end, h, k);
    SameOutsideSelf(I[..], k, end);
    SameOutsideSelf(P, k, end);
    j := 1;
    var x := V[I[k] + h];
    SiftStart(P, N, h, k);
    var i := 1;
    while k + i < end
      invariant 1 <= j <= i <= end - k
      invariant IsWindow(text, P', N, k, end, h)
      invariant Lists(I[..], P', k, end)
      invariant Sifted(P', N, h, k, j, i, x)
      invariant SameOutside(I0, I[..], k, end) && SameOutside(P, P', k, end)
    {
      WindowEntry(text, I[..], P', N, k, end, h, k + i);
      SiftNext(P', N, h, k, j, i, x);
      if V[I[k + i] + h] < x {
        x := V[I[k + i] + h];
        j := 0;
      }
      if V[I[k + i] + h] == x {
        ghost var P1 := P';
        P' := Swap(text, I, I0, P, P1, N, k, end, h, k + i, k + j);
        SiftSwap(P1, P', N, h, k, j, i, x);
        j := j + 1;
      }
      i := i + 1;
    }
    assert V[..] == N;
    SiftEnd(P', N, h, k, j, i, x);
  }

  /** Numbers the suffixes in slots [lo, hi) with hi - 1; a lone suffix is marked as finished. */
  method Renumber(I: array<int>, V: array<int>, ghost P: seq<int>, lo: int, hi: int)
    requires I != V && I.Length == V.Length == |P|
    requires IsPermutation(P) && Lists(I[..], P, lo, hi) && lo < hi
    modifies I, V
    ensures Renumbered(P, old(V[..]), V[..], lo, hi)
    ensures I[..] == if lo + 1 == hi then old(I[..])[lo := -1] else old(I[..])
  {
    var i := 0;
    while i < hi - lo
      invariant 0 <= i <= hi - lo
      invariant I[..] == old(I[..])
      invariant forall m :: lo <= m < lo + i ==> V[P[m]] == hi - 1
      invariant forall m :: 0 <= m < |P| && !(lo <= m < lo + i) ==> V[P[m]] == old(V[P[m]])
    {
      V[I[lo + i]] := hi - 1;
      i := i + 1;
    }
    if lo == hi - 1 {
      I[lo] := -1;
    }
  }

  /** What numbering a group achieves when its members precede the rest and share 2h bytes. */
  lemma GroupClosed(text: seq<byte>, P: seq<int>, V: seq<int>, I: seq<int>, V': seq<int>, I': seq<int>,
                    lo: int, hi: int, h: nat)
    requires Ranks(text, P, V, h) && |I| == |P|
    requires 0 <= lo < hi <= |P| && GroupStart(P, V, lo) && hi <= V[P[lo]] + 1
    requires Precede(text, P, lo, hi, V[P[lo]]) && Alike(text, P, lo, hi, 2 * h)
    requires Lists(I, P, lo, hi)
    requires Renumbered(P, V, V', lo, hi)
    requires I' == if lo + 1 == hi then I[lo := -1] else I
    ensures Ranks(text, P, V', h)
    ensures Settled(text, P, V', I', lo, hi, h)
    ensures OnlyWithin(P, V, I, P, V', I', lo, hi)
    ensures Refines(V, V')
  {
    Carve(text, P, V, V', h, lo, hi);
    CarveRefines(P, V, V', lo, hi);
    SettledGroup(text, P, V', I', lo, hi, h);
  }

  /** Closing a group selected at slot k leaves [start, mid) settled and the rest a window. */
  lemma RoundDone(text: seq<byte>, P: seq<int>, V: seq<int>, I: seq<int>, P': seq<int>, I': seq<int>,
                  V'': seq<int>, I'': seq<int>, start: int, k: int, mid: int, end: int, h: nat)
    requires IsWindow(text, P, V, k, end, h) && Settled(text, P, V, I, start, k, h)
    requires IsWindow(text, P', V, k, end, h) && Lists(I', P', k, end)
    requires SameOutside(I, I', k, end) && SameOutside(P, P', k, end)
    requires k < mid <= end && Ranks(text, P', V'', h) && Settled(text, P', V'', I'', k, mid, h)
    requires OnlyWithin(P', V, I', P', V'', I'', k, mid)
    ensures OnlyWithin(P, V, I, P', V'', I'', k, end)
    ensures Settled(text, P', V'', I'', start, mid, h)
    ensures mid < end ==> IsWindow(text, P', V'', mid, end, h) && Lists(I'', P', mid, end)
  {
    SettledBefore(text, P, V, I, P', V, I', start, k, end, h);
    SettledBefore(text, P', V, I', P', V'', I'', start, k, mid, h);
    SettledJoin(text, P', V'', I'', start, k, mid, h);
    if mid < end {
      WindowRest(text, P', V, I', P', V'', I'', k, mid, end, h);
    }
  }

  /** One round of the selection: the suffixes with the least key become a group. */
  method SelectionRound(ghost text: seq<byte>, I: array<int>, V: array<int>, ghost P: seq<int>,
                        ghost start: int, k: int, end: int, h: nat)
    returns (j: int, ghost P': seq<int>)
    requires I != V && I.Length == V.Length == |text| + 1
    requires IsWindow(text, P, V[..], k, end, h) && Lists(I[..], P, k, end)
    requires Settled(text, P, V[..], I[..], start, k, h)
    modifies I, V
    ensures 1 <= j <= end - k
    ensures Ranks(text, P', V[..], h) && Settled(text, P', V[..], I[..], start, k + j, h)
    ensures k + j < end ==> IsWindow(text, P', V[..], k + j, end, h) && Lists(I[..], P', k + j, end)
    ensures OnlyWithin(P, old(V[..]), old(I[..]), P', V[..], I[..], k, end)
    ensures Refines(old(V[..]), V[..])
    ensures EqualKeys(P', V[..], old(V[..]), k, k + j, h)
  {
    hide *;
    ghost var V1, I1 := V[..], I[..];
    j, P' := SelectLeast(text, I, V, P, k, end, h);
    ghost var I2 := I[..];
    assert V[..] == V1;
    WindowFacts(text, P', V1, k, end, h);
    SmallerKeysPrecede(text, P', V1, k, end, h, k, k + j);
    EqualKeysAlike(text, P', V1, k, end, h, k, k + j);
    ListsPart(I2, P', k, end, k, k + j);
    Renumber(I, V, P', k, k + j);
    GroupClosed(text, P', V1, I2, V[..], I[..], k, k + j, h);
    EqualKeysGroup(text, P', V[..], V1, k, end, h, k, k + j);
    RoundDone(text, P, V1, I1, P', I2, V[..], I[..], start, k, k + j, end, h);
  }

  lemma GroupStartBefore(P: seq<int>, V: seq<int>, I: seq<int>, P': seq<int>, V': seq<int>, I': seq<int>, k: int, end: int)
    requires OnlyWithin(P, V, I, P', V', I', k, end) && IsPermutation(P') && GroupStart(P, V, k)
    ensures |P'| == |V'| && GroupStart(P', V', k)
  {}

  /**
    When the groups up to mid had equal keys under V0, and those made since then, up to end, had equal
    keys under the finer numbers V1, all of them had equal keys under V0.
   */
  lemma EqualKeysNext(text: seq<byte>, P: seq<int>, V: seq<int>, I: seq<int>, P': seq<int>, V': seq<int>, I': seq<int>,
                      V0: seq<int>, V1: seq<int>, start: int, mid: int, end: int, last: int, h: nat)
    requires EqualKeys(P, V, V0, start, mid, h) && OnlyWithin(P, V, I, P', V', I', mid, last) && mid < last
    requires GroupStart(P, V, mid) && Refines(V0, V1) && EqualKeys(P', V', V1, mid, end, h)
    requires Ranks(text, P', V', h) && Refines(V1, V')
    ensures EqualKeys(P', V', V0, start, end, h) && Refines(V0, V')
  {
    hide *;
    RanksFacts(text, P', V', h);
    GroupStartBefore(P, V, I, P', V', I', mid, last);
    EqualKeysBefore(P, V, I, P', V', I', V0, start, mid, last, h);
    EqualKeysCoarser(P', V', V0, V1, mid, end, h);
    EqualKeysJoin(P', V', V0, start, mid, end, h);
    RefinesTransitive(V0, V1, V');
  }

  /** The case of less than 16 suffixes: repeated selection of the least key. */
  method SelectionSplit(ghost text: seq<byte>, I: array<int>, V: array<int>, ghost P: seq<int>,
                        start: int, length: int, h: nat)
    returns (ghost P': seq<int>)
    requires I != V && I.Length == V.Length == |text| + 1
    requires IsWindow(text, P, V[..], start, start + length, h)
    requires Lists(I[..], P, start, start + length)
    modifies I, V
    ensures Ranks(text, P', V[..], h)
    ensures Settled(text, P', V[..], I[..], start, start + length, h)
    ensures OnlyWithin(P, old(V[..]), old(I[..]), P', V[..], I[..], start, start + length)
    ensures Refines(old(V[..]), V[..])
    ensures EqualKeys(P', V[..], old(V[..]), start, start + length, h)
  {
    hide *;
    WindowFacts(text, P, V[..], start, start + length, h);
    SettledNone(text, P, V[..], I[..], start, h);
    OnlyWithinSelf(P, V[..], I[..], start, start + length);
    RefinesSelf(V[..]);
    EqualKeysNone(P, V[..], V[..], start, h);
    P' := P;
    var k := start;
    while k < start + length
      invariant start <= k <= start + length
      invariant Ranks(text, P', V[..], h) && Settled(text, P', V[..], I[..], start, k, h)
      invariant k < start + length ==>
          IsWindow(text, P', V[..], k, start + length, h) && Lists(I[..], P', k, start + length)
      invariant OnlyWithin(P, old(V[..]), old(I[..]), P', V[..], I[..], start, start + length)
      invariant Refines(old(V[..]), V[..]) && EqualKeys(P', V[..], old(V[..]), start, k, h)
    {
      ghost var P1, V1, I1 := P', V[..], I[..];
      WindowFacts(text, P1, V1, k, start + length, h);
      var j;
      j, P' := SelectionRound(text, I, V, P', start, k, start + length, h);
      OnlyWithinTransitive(P, old(V[..]), old(I[..]), P1, V1, I1, P', V[..], I[..],
                           start, k, start + length, start + length);
      EqualKeysNext(text, P1, V1, I1, P', V[..], I[..], old(V[..]), V1, start, k, k + j, start + length, h);
      k := k + j;
    }
  }

  /** Counts the keys below and at the pivot x. */
  method CountKeys(ghost text: seq<byte>, I: array<int>, V: array<int>, ghost P: seq<int>,
                   start: int, length: int, h: nat, x: int)
    returns (jj: nat, kk: nat)
    requires I != V && I.Length == V.Length == |text| + 1
    requires IsWindow(text, P, V[..], start, start + length, h)
    requires Lists(I[..], P, start, start + length)
    ensures jj == Count(P, V[..], h, start, start + length, x, Below)
    ensures kk == Count(P, V[..], h, start, start + length, x, At)
  {
    hide IsWindow, Lists, Key, Ranks;
    WindowFacts(text, P, V[..], start, start + length, h);
    jj, kk := 0, 0;
    for i := start to start + length
      invariant jj == Count(P, V[..], h, start, i, x, Below)
      invariant kk == Count(P, V[..], h, start, i, x, At)
    {
      WindowEntry(text, I[..], P, V[..], start, start + length, h, i);
      if V[I[i] + h] < x {
        jj := jj + 1;
      }
      if V[I[i] + h] == x {
        kk := kk + 1;
      }
    }
  }

  /** Fills [start, jj) with the suffixes whose keys lie below the pivot. */
  method FillBelow(ghost text: seq<byte>, I: array<int>, V: array<int>, ghost P: seq<int>,
                   start: int, jj: int, kk: int, end: int, h: nat, pivot: int)
    returns (j: int, k: int, ghost P': seq<int>)
    requires I != V && I.Length == V.Length == |text| + 1
    requires IsWindow(text, P, V[..], start, end, h) && Lists(I[..], P, start, end)
    requires Bands(P, V[..], h, start, start, jj, 0, kk, 0, end, pivot)
    modifies I
    ensures IsWindow(text, P', V[..], start, end, h) && Lists(I[..], P', start, end)
    ensures SameOutside(old(I[..]), I[..], start, end) && SameOutside(P, P', start, end)
    ensures Bands(P', V[..], h, start, jj, jj, j, kk, k, end, pivot)
  {
    hide *;
    ghost var N, I0 := V[..], I[..];
    P' := P;
    SameOutsideSelf(I[..], start, end);
    SameOutsideSelf(P, start, end);
    BandsFacts(P, N, h, start, start, jj, 0, kk, 0, end, pivot);
    var i := start;
    j, k := 0, 0;
    while i < jj
      invariant Bands(P', N, h, start, i, jj, j, kk, k, end, pivot)
      invariant IsWindow(text, P', N, start, end, h) && Lists(I[..], P', start, end)
      invariant SameOutside(I0, I[..], start, end) && SameOutside(P, P', start, end)
      decreases jj - i + (kk - jj - j) + (end - kk - k)
    {
      ghost var P1 := P';
      BandsFacts(P', N, h, start, i, jj, j, kk, k, end, pivot);
      WindowEntry(text, I[..], P', N, start, end, h, i);
      SideOfKey(P', N, h, i, pivot);
      BandsRoom(P', N, h, start, i, jj, j, kk, k, end, pivot, i);
      if V[I[i] + h] < pivot {
        BandsExtend(P', N, h, start, i, jj, j, kk, k, end, pivot);
        i := i + 1;
      } else if V[I[i] + h] == pivot {
        P' := Swap(text, I, I0, P, P1, N, start, end, h, i, jj + j);
        BandsSwap(P1, P', N, h, start, i, jj, j, kk, k, end, pivot, i, jj + j);
        BandsExtend(P', N, h, start, i, jj, j, kk, k, end, pivot);
        j := j + 1;
      } else {
        P' := Swap(text, I, I0, P, P1, N, start, end, h, i, kk + k);
        BandsSwap(P1, P', N, h, start, i, jj, j, kk, k, end, pivot, i, kk + k);
        BandsExtend(P', N, h, start, i, jj, j, kk, k, end, pivot);
        k := k + 1;
      }
    }
    BandsFacts(P', N, h, start, i, jj, j, kk, k, end, pivot);
    assert V[..] == N;
  }

  /** Fills [jj, kk) with the suffixes whose keys equal the pivot; [jj, jj + j0) and [kk, kk + k0) are filled. */
  method FillAt(ghost text: seq<byte>, I: array<int>, V: array<int>,
                   ghost I0: seq<int>, ghost P0: seq<int>, ghost P: seq<int>,
                   start: int, jj: int, j0: int, kk: int, k0: int, end: int, h: nat, pivot: int)
    returns (j: int, k: int, ghost P': seq<int>)
    requires I != V && I.Length == V.Length == |text| + 1
    requires IsWindow(text, P, V[..], start, end, h) && Lists(I[..], P, start, end)
    requires SameOutside(I0, I[..], start, end) && SameOutside(P0, P, start, end)
    requires Bands(P, V[..], h, start, jj, jj, j0, kk, k0, end, pivot)
    modifies I
    ensures IsWindow(text, P', V[..], start, end, h) && Lists(I[..], P', start, end)
    ensures SameOutside(I0, I[..], start, end) && SameOutside(P0, P', start, end)
    ensures Bands(P', V[..], h, start, jj, jj, j, kk, k, end, pivot) && jj + j == kk
  {
    hide *;
    ghost var N := V[..];
    P' := P;
    j, k := j0, k0;
    BandsFacts(P, N, h, start, jj, jj, j, kk, k, end, pivot);
    while jj + j < kk
      invariant Bands(P', N, h, start, jj, jj, j, kk, k, end, pivot)
      invariant IsWindow(text, P', N, start, end, h) && Lists(I[..], P', start, end)
      invariant SameOutside(I0, I[..], start, end) && SameOutside(P0, P', start, end)
      decreases kk - jj - j + (end - kk - k)
    {
      ghost var P1 := P';
      BandsFacts(P', N, h, start, jj, jj, j, kk, k, end, pivot);
      WindowEntry(text, I[..], P', N, start, end, h, jj + j);
      SideOfKey(P', N, h, jj + j, pivot);
      BandsRoom(P', N, h, start, jj, jj, j, kk, k, end, pivot, jj + j);
      if V[I[jj + j] + h] == pivot {
        BandsExtend(P', N, h, start, jj, jj, j, kk, k, end, pivot);
        j := j + 1;
      } else {
        P' := Swap(text, I, I0, P0, P1, N, start, end, h, jj + j, kk + k);
        BandsSwap(P1, P', N, h, start, jj, jj, j, kk, k, end, pivot, jj + j, kk + k);
        BandsExtend(P', N, h, start, jj, jj, j, kk, k, end, pivot);
        k := k + 1;
      }
    }
    BandsFacts(P', N, h, start, jj, jj, j, kk, k, end, pivot);
    assert V[..] == N;
  }

  /** Moves the suffixes with keys below, at and above the middle one to [start, jj), [jj, kk) and the rest. */
  method PartitionWindow(ghost text: seq<byte>, I: array<int>, V: array<int>, ghost P: seq<int>,
                         start: int, length: int, h: nat)
    returns (jj: int, kk: int, ghost x: int, ghost P': seq<int>)
    requires I != V && I.Length == V.Length == |text| + 1
    requires IsWindow(text, P, V[..], start, start + length, h)
    requires Lists(I[..], P, start, start + length)
    modifies I
    ensures start <= jj < kk <= start + length
    ensures IsWindow(text, P', V[..], start, start + length, h)
    ensures Lists(I[..], P', start, start + length)
    ensures SameOutside(old(I[..]), I[..], start, start + length) && SameOutside(P, P', start, start + length)
    ensures Band(P', V[..], h, start, jj, x, Below)
    ensures Band(P', V[..], h, jj, kk, x, At)
    ensures Band(P', V[..], h, kk, start + length, x, Above)
  {
    hide *;
    var end := start + length;
    ghost var N, I0 := V[..], I[..];
    P' := P;
    WindowFacts(text, P, N, start, end, h);
    SameOutsideSelf(I[..], start, end);
    SameOutsideSelf(P, start, end);
    WindowEntry(text, I[..], P, N, start, end, h, start + length / 2);
    var pivot := V[I[start + length / 2] + h];
    x := pivot;
    jj, kk := CountKeys(text, I, V, P, start, length, h, pivot);
    jj := jj + start;
    kk := kk + jj;
    BandsStart(P, N, h, start, end, x);
    SideOfKey(P, N, h, start + length / 2, x);
    BandsRoom(P, N, h, start, start, jj, 0, kk, 0, end, x, start + length / 2);

    var j, k;
    j, k, P' := FillBelow(text, I, V, P', start, jj, kk, end, h, pivot);
    assert V[..] == N;
    j, k, P' := FillAt(text, I, V, I0, P, P', start, jj, j, kk, k, end, h, pivot);
    assert V[..] == N;
    BandsFacts(P', N, h, start, jj, jj, j, kk, k, end, x);
    BandsDone(P', N, h, start, jj, j, kk, k, end, x);
    assert V[..] == N;
  }

  /** The three parts of a partitioned window: a smaller window, a group and the rest. */
  lemma PartsOfPartition(text: seq<byte>, P: seq<int>, V: seq<int>, start: int, jj: int, kk: int, end: int, h: nat, x: int)
    requires IsWindow(text, P, V, start, end, h) && start <= jj < kk <= end
    requires Band(P, V, h, start, jj, x, Below) && Band(P, V, h, jj, kk, x, At) && Band(P, V, h, kk, end, x, Above)
    ensures start < jj ==> IsWindow(text, P, V, start, jj, h)
    ensures V[P[start]] < |P| == |text| + 1 && IsPermutation(P)
    ensures Precede(text, P, jj, kk, V[P[start]])
    ensures Alike(text, P, jj, kk, 2 * h)
  {
    BandKeys(P, V, h, start, jj, x, Below);
    BandKeys(P, V, h, jj, kk, x, At);
    BandKeys(P, V, h, kk, end, x, Above);
    SmallerKeysPrecede(text, P, V, start, end, h, start, jj);
    SmallerKeysPrecede(text, P, V, start, end, h, jj, kk);
    EqualKeysAlike(text, P, V, start, end, h, jj, kk);
  }

  /** Sorting the smaller suffixes first leaves the middle group ahead of the rest. */
  lemma FirstPartDone(text: seq<byte>, P: seq<int>, V: seq<int>, I: seq<int>, P': seq<int>, V': seq<int>, I': seq<int>,
                      start: int, jj: int, kk: int, end: int, h: nat)
    requires IsWindow(text, P, V, start, end, h) && Lists(I, P, start, end) && start <= jj < kk <= end
    requires Precede(text, P, jj, kk, V[P[start]]) && Alike(text, P, jj, kk, 2 * h)
    requires if start < jj then
               && Ranks(text, P', V', h) && Settled(text, P', V', I', start, jj, h)
               && OnlyWithin(P, V, I, P', V', I', start, jj)
             else P' == P && V' == V && I' == I
    ensures IsWindow(text, P', V', jj, end, h) && Lists(I', P', jj, end)
    ensures Settled(text, P', V', I', start, jj, h) && OnlyWithin(P, V, I, P', V', I', start, jj)
    ensures Precede(text, P', jj, kk, V'[P'[jj]]) && Alike(text, P', jj, kk, 2 * h)
  {
    hide *;
    WindowFacts(text, P, V, start, end, h);
    if start < jj {
      FirstPartFacts(text, P, V, I, P', V', I', start, jj, end, h);
      WindowRest(text, P, V, I, P', V', I', start, jj, end, h);
      GroupAhead(text, P, V, I, P', V', I', start, jj, kk, V[P[start]], 2 * h);
      ListsLater(P, V, I, P', V', I', start, jj, end);
    } else {
      FirstPartFacts(text, P, V, I, P', V', I', start, jj, end, h);
      SettledNone(text, P, V, I, start, h);
      OnlyWithinSelf(P, V, I, start, jj);
    }
  }

  lemma FirstPartFacts(text: seq<byte>, P: seq<int>, V: seq<int>, I: seq<int>, P': seq<int>, V': seq<int>, I': seq<int>,
                       start: int, jj: int, end: int, h: nat)
    requires IsWindow(text, P, V, start, end, h) && Lists(I, P, start, end) && start <= jj < end
    requires if start < jj then Settled(text, P', V', I', start, jj, h) && OnlyWithin(P, V, I, P', V', I', start, jj)
             else P' == P && V' == V && I' == I
    ensures |P'| == |V'| == |I'| == |I| == |P| && IsPermutation(P') && GroupStart(P', V', jj)
    ensures V'[P'[jj]] == V[P[start]]
  {
    WindowGroup(text, P, V, start, end, h, jj);
  }

  /** The middle group, whose keys equalled the pivot before the smaller suffixes were sorted. */
  lemma MiddleKeys(text: seq<byte>, P1: seq<int>, V0: seq<int>, I1: seq<int>, P2: seq<int>, V2: seq<int>, I2: seq<int>,
                   V3: seq<int>, I3: seq<int>, start: int, jj: int, kk: int, end: int, h: nat, x: int)
    requires IsWindow(text, P1, V0, start, end, h) && start <= jj < kk <= end
    requires Band(P1, V0, h, jj, kk, x, At)
    requires IsWindow(text, P2, V2, jj, end, h) && OnlyWithin(P1, V0, I1, P2, V2, I2, start, jj)
    requires OnlyWithin(P2, V2, I2, P2, V3, I3, jj, end) && Ranks(text, P2, V3, h)
    requires Refines(V0, V2) && EqualKeys(P2, V2, V0, start, jj, h) && Refines(V2, V3)
    ensures EqualKeys(P2, V3, V0, start, kk, h) && Refines(V0, V3)
  {
    hide *;
    WindowFacts(text, P1, V0, start, end, h);
    WindowFacts(text, P2, V2, jj, end, h);
    RanksFacts(text, P2, V3, h);
    BandKeys(P1, V0, h, jj, kk, x, At);
    EqualKeysGroup(text, P1, V3, V0, start, end, h, jj, kk);
    MiddleKept(P1, V0, I1, P2, V2, I2, V3, start, jj, kk, h);
    RefinesSelf(V0);
    RefinesTransitive(V0, V2, V3);
    EqualKeysNext(text, P2, V2, I2, P2, V3, I3, V0, V0, start, jj, kk, end, h);
  }

  lemma MiddleKept(P: seq<int>, V: seq<int>, I: seq<int>, P': seq<int>, V': seq<int>, I': seq<int>,
                   V'': seq<int>, start: int, lo: int, hi: int, h: nat)
    requires EqualKeys(P, V'', V, lo, hi, h)
    requires OnlyWithin(P, V, I, P', V', I', start, lo) && IsPermutation(P')
    ensures EqualKeys(P', V'', V, lo, hi, h)
  {}

  /** The three parts together. */
  lemma AllPartsDone(text: seq<byte>, P0: seq<int>, V0: seq<int>, I0: seq<int>, P1: seq<int>, I1: seq<int>,
                     P2: seq<int>, V2: seq<int>, I2: seq<int>, V3: seq<int>, I3: seq<int>,
                     P4: seq<int>, V4: seq<int>, I4: seq<int>, start: int, jj: int, kk: int, end: int, h: nat)
    requires |P0| == |V0| == |I0| && IsPermutation(P0) && IsPermutation(P1) && 0 <= start <= jj < kk <= end <= |P0|
    requires SameOutside(I0, I1, start, end) && SameOutside(P0, P1, start, end)
    requires OnlyWithin(P1, V0, I1, P2, V2, I2, start, jj)
    requires OnlyWithin(P2, V2, I2, P2, V3, I3, jj, end)
    requires Settled(text, P2, V3, I3, start, kk, h) && Ranks(text, P2, V3, h)
    requires if kk < end then
               && Ranks(text, P4, V4, h) && Settled(text, P4, V4, I4, kk, end, h)
               && OnlyWithin(P2, V3, I3, P4, V4, I4, kk, end)
             else P4 == P2 && V4 == V3 && I4 == I3
    ensures Ranks(text, P4, V4, h) && Settled(text, P4, V4, I4, start, end, h)
    ensures OnlyWithin(P0, V0, I0, P4, V4, I4, start, end)
  {
    hide *;
    RanksFacts(text, P2, V3, h);
    RanksFacts(text, P4, V4, h);
    OutsideOnlyWithin(P0, V0, I0, P1, I1, start, end);
    OnlyWithinTransitive(P0, V0, I0, P1, V0, I1, P2, V2, I2, start, start, jj, end);
    OnlyWithinTransitive(P0, V0, I0, P2, V2, I2, P2, V3, I3, start, jj, end, end);
    if kk < end {
      OnlyWithinTransitive(P0, V0, I0, P2, V3, I3, P4, V4, I4, start, kk, end, end);
      SettledBefore(text, P2, V3, I3, P4, V4, I4, start, kk, end, h);
      SettledJoin(text, P4, V4, I4, start, kk, end, h);
    }
  }

  /** Sorts one window by the keys h bytes further on and numbers the groups of equal keys. */
  method Split(ghost text: seq<byte>, I: array<int>, V: array<int>, ghost P: seq<int>, start: int, length: int, h: nat)
    returns (ghost P': seq<int>)
    requires I != V && I.Length == V.Length == |text| + 1
    requires IsWindow(text, P, V[..], start, start + length, h)
    requires Lists(I[..], P, start, start + length)
    modifies I, V
    ensures Ranks(text, P', V[..], h)
    ensures Settled(text, P', V[..], I[..], start, start + length, h)
    ensures OnlyWithin(P, old(V[..]), old(I[..]), P', V[..], I[..], start, start + length)
    ensures Refines(old(V[..]), V[..])
    ensures EqualKeys(P', V[..], old(V[..]), start, start + length, h)
    ensures forall j, k :: start <= j < k < start + length ==> Key(P', old(V[..]), h, j) <= Key(P', old(V[..]), h, k)
    decreases length
  {
    hide *;
    ghost var V0, I0 := V[..], I[..];
    ghost var end := start + length;
    if length < 16 {
      P' := SelectionSplit(text, I, V, P, start, length, h);
      OrderedByKey(text, P, V0, I0, P', V[..], I[..], start, end, h);
      return;
    }
    var jj, kk;
    ghost var x;
    WindowFacts(text, P, V0, start, end, h);
    jj, kk, x, P' := PartitionWindow(text, I, V, P, start, length, h);
    assert V[..] == V0;
    ghost var P1, I1 := P', I[..];
    WindowFacts(text, P1, V0, start, end, h);
    PartsOfPartition(text, P1, V0, start, jj, kk, end, h, x);
    ghost var last := V0[P1[start]];
    ListsPart(I1, P1, start, end, start, jj);

    if jj > start {
      P' := Split(text, I, V, P', start, jj - start, h);
    } else {
      RefinesSelf(V0);
      EqualKeysNone(P1, V0, V0, start, h);
    }
    ghost var P2, V2, I2 := P', V[..], I[..];
    FirstPartDone(text, P1, V0, I1, P2, V2, I2, start, jj, kk, end, h);
    WindowFacts(text, P2, V2, jj, end, h);
    ListsPart(I2, P2, jj, end, jj, kk);

    Renumber(I, V, P2, jj, kk);
    ghost var V3, I3 := V[..], I[..];
    GroupClosed(text, P2, V2, I2, V3, I3, jj, kk, h);
    SameOutsideSelf(P2, jj, end);
    SameOutsideSelf(I2, jj, end);
    RoundDone(text, P2, V2, I2, P2, I2, V3, I3, start, jj, kk, end, h);
    MiddleKeys(text, P1, V0, I1, P2, V2, I2, V3, I3, start, jj, kk, end, h, x);

    if start + length > kk {
      WindowFacts(text, P2, V3, kk, end, h);
      P' := Split(text, I, V, P2, kk, start + length - kk, h);
      EqualKeysNext(text, P2, V3, I3, P', V[..], I[..], V0, V3, start, kk, end, end, h);
    }
    AllPartsDone(text, P, V0, I0, P1, I1, P2, V2, I2, V3, I3, P', V[..], I[..], start, jj, kk, end, h);
    OrderedByKey(text, P, V0, I0, P', V[..], I[..], start, end, h);
  }

  // ---- What a split achieves for the keys it read ------------------------------------------------

  /** A split only permutes the suffixes of its window. */
  lemma StaysInWindow(text: seq<byte>, P: seq<int>, V: seq<int>, I: seq<int>, P': seq<int>, V': seq<int>, I': seq<int>,
                      start: int, end: int, h: nat, k: int) returns (m: int)
    requires IsWindow(text, P, V, start, end, h) && Ranks(text, P', V', h)
    requires OnlyWithin(P, V, I, P', V', I', start, end) && start <= k < end
    ensures start <= m < end && P'[k] == P[m]
  {
    RanksFacts(text, P', V', h);
    m := SlotOf(P, P'[k]);
    assert forall x :: 0 <= x < |P| && !(start <= x < end) ==> P'[x] == P[x];
  }

  /** The slots of a window are in the order of the keys before the split, if no new group mixes different keys. */
  lemma OrderedByKey(text: seq<byte>, P: seq<int>, V: seq<int>, I: seq<int>, P': seq<int>, V': seq<int>, I': seq<int>,
                     start: int, end: int, h: nat)
    requires IsWindow(text, P, V, start, end, h) && Ranks(text, P', V', h)
    requires OnlyWithin(P, V, I, P', V', I', start, end) && EqualKeys(P', V', V, start, end, h)
    ensures forall j, k :: start <= j < k < end ==> Key(P', V, h, j) <= Key(P', V, h, k)
  {
    forall j, k | start <= j < k < end
      ensures Key(P', V, h, j) <= Key(P', V, h, k)
    {
      if V'[P'[j]] != V'[P'[k]] {
        GroupsByKey(text, P, V, I, P', V', I', start, end, h, j, k);
      }
    }
  }

  /** Of two slots in different groups after the split, the earlier one had no larger key before it. */
  lemma GroupsByKey(text: seq<byte>, P: seq<int>, V: seq<int>, I: seq<int>, P': seq<int>, V': seq<int>, I': seq<int>,
                    start: int, end: int, h: nat, j: int, k: int)
    requires IsWindow(text, P, V, start, end, h) && Ranks(text, P', V', h)
    requires OnlyWithin(P, V, I, P', V', I', start, end)
    requires start <= j < end && start <= k < end && V'[P'[j]] < V'[P'[k]]
    ensures Key(P', V, h, j) <= Key(P', V, h, k)
  {
    var m := StaysInWindow(text, P, V, I, P', V', I', start, end, h, j);
    var n := StaysInWindow(text, P, V, I, P', V', I', start, end, h, k);
    assert SuffixLess(text, P'[j], P'[k]);
    SuffixLessAsymmetric(text, P[m], P[n]);
    WindowDoubling(text, P, V, start, end, h, m, n);
    WindowDoubling(text, P, V, start, end, h, n, m);
  }

  lemma SuffixLessAsymmetric(text: seq<byte>, a: nat, b: nat)
    requires a <= |text| && b <= |text| && SuffixLess(text, a, b)
    ensures a != b && !SuffixLess(text, b, a)
  {
    SuffixLessIsLess(text, a, b);
    SuffixLessIsLess(text, b, a);
    LessTotal(text[a..], text[b..]);
  }
}
