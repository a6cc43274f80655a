/** The three-way partition around a pivot key, for groups of 16 suffixes or more. */
module Partition {
  import opened Ranking
  import opened Window
  import opened Tally

  /** All slots of [lo, hi) have their key on the given side of the pivot x. */
  predicate Band(P: seq<int>, V: seq<int>, h: nat, lo: int, hi: int, x: int, side: Side)
  {
    forall m :: lo <= m < hi ==> SideOf(P, V, h, m, x) == side
  }

  /**
    The partition in progress: jj and kk are the final boundaries, known from counting;
    [start, i), [jj, jj + j) and [kk, kk + k) are the parts already filled.
   */
  predicate Bands(P: seq<int>, V: seq<int>, h: nat, start: int, i: int, jj: int, j: int, kk: int, k: int, end: int, x: int)
  {
    && 0 <= start <= i <= jj <= jj + j <= kk <= kk + k <= end <= |P|
    && Band(P, V, h, start, i, x, Below)
    && Band(P, V, h, jj, jj + j, x, At)
    && Band(P, V, h, kk, kk + k, x, Above)
    && Count(P, V, h, start, end, x, Below) == jj - start
    && Count(P, V, h, start, end, x, At) == kk - jj
  }

  lemma BandsFacts(P: seq<int>, V: seq<int>, h: nat, start: int, i: int, jj: int, j: int, kk: int, k: int, end: int, x: int)
    requires Bands(P, V, h, start, i, jj, j, kk, k, end, x)
    ensures 0 <= start <= i <= jj <= jj + j <= kk <= kk + k <= end <= |P|
  {}

  lemma SideOfKey(P: seq<int>, V: seq<int>, h: nat, k: int, x: int)
    ensures SideOf(P, V, h, k, x) == if Key(P, V, h, k) < x then Below else if Key(P, V, h, k) == x then At else Above
  {}

  lemma BandsStart(P: seq<int>, V: seq<int>, h: nat, start: int, end: int, x: int)
    requires 0 <= start <= end <= |P|
    ensures var jj := start + Count(P, V, h, start, end, x, Below);
            Bands(P, V, h, start, start, jj, 0, jj + Count(P, V, h, start, end, x, At), 0, end, x)
  {
    CountSum(P, V, h, start, end, x);
  }

  /** While slots are missing in a part, there is room for them. */
  lemma BandsRoom(P: seq<int>, V: seq<int>, h: nat, start: int, i: int, jj: int, j: int, kk: int, k: int, end: int,
                  x: int, m: int)
    requires Bands(P, V, h, start, i, jj, j, kk, k, end, x) && start <= m < end
    ensures SideOf(P, V, h, m, x) == Below && !(start <= m < i) ==> i < jj
    ensures SideOf(P, V, h, m, x) == At && !(jj <= m < jj + j) ==> jj + j < kk
    ensures SideOf(P, V, h, m, x) == Above && !(kk <= m < kk + k) ==> kk + k < end
  {
    CountSum(P, V, h, start, end, x);
    match SideOf(P, V, h, m, x) {
      case Below =>
        if !(start <= m < i) {
          CountBandAndSlot(P, V, h, start, end, x, Below, start, i - start, m);
        }
      case At =>
        if !(jj <= m < jj + j) {
          CountBandAndSlot(P, V, h, start, end, x, At, jj, j, m);
        }
      case Above =>
        if !(kk <= m < kk + k) {
          CountBandAndSlot(P, V, h, start, end, x, Above, kk, k, m);
        }
    }
  }

  /** Exchanging suffixes outside the filled parts keeps them. */
  lemma BandsSwap(P: seq<int>, P': seq<int>, V: seq<int>, h: nat, start: int, i: int, jj: int, j: int, kk: int, k: int,
                  end: int, x: int, a: int, b: int)
    requires Bands(P, V, h, start, i, jj, j, kk, k, end, x)
    requires start <= a < end && start <= b < end && IsSwap(P, P', a, b)
    requires !(start <= a < i || jj <= a < jj + j || kk <= a < kk + k)
    requires !(start <= b < i || jj <= b < jj + j || kk <= b < kk + k)
    ensures Bands(P', V, h, start, i, jj, j, kk, k, end, x)
    ensures SideOf(P', V, h, a, x) == SideOf(P, V, h, b, x) && SideOf(P', V, h, b, x) == SideOf(P, V, h, a, x)
  {
    assert forall m :: 0 <= m < |P| && m != a && m != b ==> SideOf(P', V, h, m, x) == SideOf(P, V, h, m, x);
    CountSwap(P, P', V, h, start, end, x, Below, a, b);
    CountSwap(P, P', V, h, start, end, x, At, a, b);
  }

  lemma BandsExtend(P: seq<int>, V: seq<int>, h: nat, start: int, i: int, jj: int, j: int, kk: int, k: int, end: int, x: int)
    requires Bands(P, V, h, start, i, jj, j, kk, k, end, x)
    ensures i < jj && SideOf(P, V, h, i, x) == Below ==> Bands(P, V, h, start, i + 1, jj, j, kk, k, end, x)
    ensures jj + j < kk && SideOf(P, V, h, jj + j, x) == At ==> Bands(P, V, h, start, i, jj, j + 1, kk, k, end, x)
    ensures kk + k < end && SideOf(P, V, h, kk + k, x) == Above ==> Bands(P, V, h, start, i, jj, j, kk, k + 1, end, x)
  {}

  /** Once the first two parts are full, all other slots lie above the pivot. */
  lemma BandsDone(P: seq<int>, V: seq<int>, h: nat, start: int, jj: int, j: int, kk: int, k: int, end: int, x: int)
    requires Bands(P, V, h, start, jj, jj, j, kk, k, end, x) && jj + j == kk
    ensures Band(P, V, h, start, jj, x, Below) && Band(P, V, h, jj, kk, x, At) && Band(P, V, h, kk, end, x, Above)
  {
    forall m | kk <= m < end
      ensures SideOf(P, V, h, m, x) == Above
    {
      BandsRoom(P, V, h, start, jj, jj, j, kk, k, end, x, m);
    }
  }

  lemma BandKeys(P: seq<int>, V: seq<int>, h: nat, lo: int, hi: int, x: int, side: Side)
    requires Band(P, V, h, lo, hi, x, side)
    ensures side == Below ==> forall m :: lo <= m < hi ==> Key(P, V, h, m) < x
    ensures side == At ==> forall m :: lo <= m < hi ==> Key(P, V, h, m) == x
    ensures side == Above ==> forall m :: lo <= m < hi ==> Key(P, V, h, m) > x
  {
    forall m | lo <= m < hi
      ensures side == Below ==> Key(P, V, h, m) < x
      ensures side == At ==> Key(P, V, h, m) == x
      ensures side == Above ==> Key(P, V, h, m) > x
    {
      assert SideOf(P, V, h, m, x) == side;
    }
  }
}
