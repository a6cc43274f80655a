/** How many keys of a range of slots lie below, at or above a pivot. */
module Tally {
  import opened Ranking
  import opened Window

  /** Where the key of slot k lies relative to the pivot x. */
  datatype Side = Below | At | Above

  function SideOf(P: seq<int>, V: seq<int>, h: nat, k: int, x: int): Side
  {
    if Key(P, V, h, k) < x then Below else if Key(P, V, h, k) == x then At else Above
  }

  function Count(P: seq<int>, V: seq<int>, h: nat, lo: int, hi: int, x: int, side: Side): nat
    decreases hi - lo
  {
    if hi <= lo then 0 else Count(P, V, h, lo, hi - 1, x, side) + if SideOf(P, V, h, hi - 1, x) == side then 1 else 0
  }

  lemma {:induction false} CountSplit(P: seq<int>, V: seq<int>, h: nat, lo: int, mid: int, hi: int, x: int, side: Side)
    requires lo <= mid <= hi
    ensures Count(P, V, h, lo, hi, x, side) == Count(P, V, h, lo, mid, x, side) + Count(P, V, h, mid, hi, x, side)
    decreases hi - mid
  {
    if mid < hi {
      CountSplit(P, V, h, lo, mid, hi - 1, x, side);
    }
  }

  lemma {:induction false} CountSum(P: seq<int>, V: seq<int>, h: nat, lo: int, hi: int, x: int)
    requires lo <= hi
    ensures Count(P, V, h, lo, hi, x, Below) + Count(P, V, h, lo, hi, x, At) + Count(P, V, h, lo, hi, x, Above) == hi - lo
    decreases hi - lo
  {
    if lo < hi {
      CountSum(P, V, h, lo, hi - 1, x);
    }
  }

  lemma {:induction false} CountAll(P: seq<int>, V: seq<int>, h: nat, lo: int, hi: int, x: int, side: Side)
    requires lo <= hi && forall k :: lo <= k < hi ==> SideOf(P, V, h, k, x) == side
    ensures Count(P, V, h, lo, hi, x, side) == hi - lo
    decreases hi - lo
  {
    if lo < hi {
      CountAll(P, V, h, lo, hi - 1, x, side);
    }
  }

  /** A band of j slots and one more slot on the same side make j + 1. */
  lemma CountBandAndSlot(P: seq<int>, V: seq<int>, h: nat, lo: int, hi: int, x: int, side: Side, band: int, j: nat, k: int)
    requires lo <= band && band + j <= hi && lo <= k < hi && !(band <= k < band + j)
    requires forall m :: band <= m < band + j ==> SideOf(P, V, h, m, x) == side
    requires SideOf(P, V, h, k, x) == side
    ensures j + 1 <= Count(P, V, h, lo, hi, x, side)
  {
    CountAll(P, V, h, band, band + j, x, side);
    CountSplit(P, V, h, lo, band, hi, x, side);
    CountSplit(P, V, h, band, band + j, hi, x, side);
    CountSplit(P, V, h, if k < band then lo else band + j, k, if k < band then band else hi, x, side);
    CountSplit(P, V, h, k, k + 1, if k < band then band else hi, x, side);
    assert Count(P, V, h, k, k + 1, x, side) == 1;
  }

  lemma {:induction false} CountPatch(P: seq<int>, P': seq<int>, V: seq<int>, h: nat, lo: int, hi: int, x: int,
                                      side: Side, a: int)
    requires lo <= hi
    requires forall k :: lo <= k < hi && k != a ==> SideOf(P', V, h, k, x) == SideOf(P, V, h, k, x)
    ensures Count(P', V, h, lo, hi, x, side) ==
            if lo <= a < hi then
              Count(P, V, h, lo, hi, x, side) + Count(P', V, h, a, a + 1, x, side) - Count(P, V, h, a, a + 1, x, side)
            else Count(P, V, h, lo, hi, x, side)
    decreases hi - lo
  {
    if lo < hi {
      CountPatch(P, P', V, h, lo, hi - 1, x, side, a);
    }
  }

  /** Exchanging two suffixes does not change the counts. */
  lemma CountSwap(P: seq<int>, P': seq<int>, V: seq<int>, h: nat, lo: int, hi: int, x: int, side: Side, a: int, b: int)
    requires 0 <= lo <= a < hi && lo <= b < hi <= |P| && IsSwap(P, P', a, b)
    ensures Count(P', V, h, lo, hi, x, side) == Count(P, V, h, lo, hi, x, side)
  {
    var Q := P[a := P[b]];
    CountPatch(P, Q, V, h, lo, hi, x, side, a);
    CountPatch(Q, P', V, h, lo, hi, x, side, b);
    assert SideOf(Q, V, h, a, x) == SideOf(P, V, h, b, x) == SideOf(P', V, h, a, x);
    assert SideOf(P', V, h, b, x) == SideOf(P, V, h, a, x);
    if a != b {
      assert SideOf(Q, V, h, b, x) == SideOf(P, V, h, b, x);
    }
    CountOne(P, V, h, a, x, side);
    CountOne(P, V, h, b, x, side);
    CountOne(Q, V, h, a, x, side);
    CountOne(Q, V, h, b, x, side);
    CountOne(P', V, h, b, x, side);
  }

  lemma CountOne(P: seq<int>, V: seq<int>, h: nat, k: int, x: int, side: Side)
    ensures Count(P, V, h, k, k + 1, x, side) == if SideOf(P, V, h, k, x) == side then 1 else 0
  {}
}
