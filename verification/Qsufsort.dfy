/** Larsson-Sadakane suffix sorting by doubling. */
module SuffixSort {
  import opened Lex
  import opened Ranking
  import opened Window
  import opened Splitting
  import opened Buckets

  // ---- Initial buckets ----------------------------------------------------------------

  /** Computes for every byte c how many bytes of the text are smaller. */
  method CountBuckets(obuf: seq<byte>) returns (buckets: array<int>)
    ensures fresh(buckets) && buckets.Length == 256
    ensures forall c :: 0 <= c < 256 ==> buckets[c] == Start(obuf, c)
  {
    hide *;
    buckets := new int[256](_ => 0);
    CountNone(obuf);
    for i := 0 to |obuf|
      invariant forall c :: 0 <= c < 256 ==> buckets[c] == CountOf(obuf, c, i)
    {
      CountOfStep(obuf, i);
      buckets[obuf[i]] := buckets[obuf[i]] + 1;
    }
    StartEnd(obuf);
    for i := 1 to 256
      invariant forall c :: 0 <= c < i ==> buckets[c] == End(obuf, c)
      invariant forall c :: i <= c < 256 ==> buckets[c] == CountOf(obuf, c, |obuf|)
    {
      assert Start(obuf, i) == End(obuf, i - 1);
      buckets[i] := buckets[i] + buckets[i - 1];
    }
    forall c | 1 <= c < 256 {
      buckets[c] := buckets[c - 1];
    }
    buckets[0] := 0;
  }

  lemma CountNone(text: seq<byte>)
    ensures forall c :: CountOf(text, c, 0) == 0
  {}

  lemma CountOfStep(text: seq<byte>, i: nat)
    requires i < |text|
    ensures forall c :: CountOf(text, c, i + 1) == CountOf(text, c, i) + if text[i] == c then 1 else 0
  {}

  lemma StartEnd(text: seq<byte>)
    ensures Start(text, 0) == 0
    ensures forall c :: 0 < c ==> Start(text, c) == End(text, c - 1)
    ensures forall c :: 0 <= c ==> End(text, c) == Start(text, c) + CountOf(text, c, |text|)
  {}

  /** The filled slots of bucket c hold earlier suffixes that belong there. */
  ghost predicate Filled(text: seq<byte>, I: seq<int>, i: nat, c: int)
    requires i <= |text| == |I| - 1
  {
    forall k :: Start(text, c) < k <= Start(text, c) + CountOf(text, c, i) && k < |I| ==>
      0 <= I[k] < i && text[I[k]] == c && Slot(text, I[k]) == k
  }

  /** Writing suffix i to its slot keeps all filled slots. */
  lemma FilledStep(text: seq<byte>, I: seq<int>, I': seq<int>, i: nat, c: byte)
    requires i < |text| && |I| == |I'| == |text| + 1
    requires Filled(text, I, i, c)
    requires 0 <= Slot(text, i) < |I| && I' == I[Slot(text, i) := i]
    ensures Filled(text, I', i + 1, c)
  {
    hide Start, End, CountOf;
    CountOfStep(text, i);
    SlotInBucket(text, i);
    StartEnd(text);
    CountMonotone(text, c, i + 1, |text|);
    forall k | Start(text, c) < k <= Start(text, c) + CountOf(text, c, i + 1) && k < |I|
      ensures 0 <= I'[k] < i + 1 && text[I'[k]] == c && Slot(text, I'[k]) == k
    {
      if k == Slot(text, i) {
        BucketUnique(text, c, text[i], k);
      } else if c == text[i] {
        assert k <= Start(text, c) + CountOf(text, c, i);
      }
    }
  }

  lemma FilledNone(text: seq<byte>, I: seq<int>)
    requires |I| == |text| + 1
    ensures forall c: byte :: Filled(text, I, 0, c)
  {}

  /** When all suffixes are placed, every slot but the first holds the one that belongs there. */
  lemma AllFilled(text: seq<byte>, I: seq<int>)
    requires |I| == |text| + 1 && forall c: byte :: Filled(text, I, |text|, c)
    ensures forall k :: 1 <= k < |I| ==> 0 <= I[k] < |text| && Slot(text, I[k]) == k
  {
    hide CountBelow, CountOf, Slot;
    forall k | 1 <= k < |I|
      ensures 0 <= I[k] < |text| && Slot(text, I[k]) == k
    {
      var c := BucketOf(text, k);
      assert Filled(text, I, |text|, c);
    }
  }

  /** Puts every suffix but the empty one into its slot; the buckets then hold their last slots. */
  method Distribute(obuf: seq<byte>, buckets: array<int>, I: array<int>)
    requires buckets != I && buckets.Length == 256 && I.Length == |obuf| + 1
    requires forall c :: 0 <= c < 256 ==> buckets[c] == Start(obuf, c)
    modifies buckets, I
    ensures forall c :: 0 <= c < 256 ==> buckets[c] == End(obuf, c)
    ensures forall k :: 1 <= k < I.Length ==> 0 <= I[k] < |obuf| && Slot(obuf, I[k]) == k
  {
    hide *;
    FilledNone(obuf, I[..]);
    CountNone(obuf);
    StartEnd(obuf);
    for i := 0 to |obuf|
      invariant forall c :: 0 <= c < 256 ==> buckets[c] == Start(obuf, c) + CountOf(obuf, c, i)
      invariant forall c: byte :: Filled(obuf, I[..], i, c)
    {
      ghost var I0 := I[..];
      CountOfStep(obuf, i);
      SlotFormula(obuf, i);
      SlotInBucket(obuf, i);
      EndInRange(obuf, obuf[i]);
      buckets[obuf[i]] := buckets[obuf[i]] + 1;
      I[buckets[obuf[i]]] := i;
      ghost var i1 := i + 1;
      forall c: byte
        ensures Filled(obuf, I[..], i1, c)
      {
        FilledStep(obuf, I0, I[..], i, c);
      }
    }
    AllFilled(obuf, I[..]);
  }

  lemma SlotFormula(text: seq<byte>, i: int)
    requires 0 <= i < |text|
    ensures Slot(text, i) == Start(text, text[i]) + CountOf(text, text[i], i + 1)
  {}

  /** Slot k is the only one of the bucket of byte c. */
  ghost predicate OnlySlot(text: seq<byte>, c: int, k: int)
  {
    k == End(text, c) == End(text, c - 1) + 1
  }

  /** Slot k is the only one of its bucket, which is that of one of the bytes 1, .., i - 1. */
  ghost predicate Lone(text: seq<byte>, k: int, i: int)
  {
    exists c :: 0 < c < i && OnlySlot(text, c, k)
  }

  lemma LoneStep(text: seq<byte>, i: int)
    requires 0 < i
    ensures forall k :: !Lone(text, k, 1)
    ensures forall k :: OnlySlot(text, i, k) <==> k == End(text, i) == End(text, i - 1) + 1
    ensures forall k :: Lone(text, k, i + 1) <==> Lone(text, k, i) || OnlySlot(text, i, k)
  {}

  /** Marks the one-suffix buckets, except that of byte 0, as finished. */
  method MarkSingletons(ghost text: seq<byte>, ghost P: seq<int>, ghost N: seq<int>, buckets: array<int>, I: array<int>)
    requires buckets != I && buckets.Length == 256 && I.Length == |text| + 1
    requires forall c :: 0 <= c < 256 ==> buckets[c] == End(text, c)
    requires Bucketed(text, P, N) && Ranks(text, P, N, 1) && I[..] == P
    modifies I
    ensures forall k :: 0 <= k < I.Length ==> I[k] == if Lone(text, k, 256) then -1 else P[k]
    ensures forall k :: 0 <= k < I.Length ==> I[k] == P[k] || (I[k] == -1 && Singleton(P, N, k))
  {
    hide *;
    RanksFacts(text, P, N, 1);
    LoneStep(text, 1);
    for i := 1 to 256
      invariant forall k :: 0 <= k < I.Length ==> I[k] == if Lone(text, k, i) then -1 else P[k]
      invariant forall k :: 0 <= k < I.Length ==> I[k] == P[k] || (I[k] == -1 && Singleton(P, N, k))
    {
      EndInRange(text, i);
      LoneStep(text, i);
      if buckets[i] == buckets[i - 1] + 1 {
        SingletonBucket(text, P, N, i);
        I[buckets[i]] := -1;
      }
    }
  }

  lemma SingletonBucket(text: seq<byte>, P: seq<int>, V: seq<int>, c: byte)
    requires 0 < c && End(text, c) == End(text, c - 1) + 1
    requires Bucketed(text, P, V) && Ranks(text, P, V, 1)
    ensures 0 <= End(text, c) < |P| && Singleton(P, V, End(text, c))
  {
    hide Slot, CountOf, CountBelow, Ordered, Deep;
    var k := End(text, c);
    EndInRange(text, c);
    BucketedSlot(text, P, V, k);
    StartEnd(text);
    BucketUnique(text, c, text[P[k]], k);
    if k > 1 {
      BucketedSlot(text, P, V, k - 1);
      if V[P[k - 1]] >= k {
        assert V[P[k]] == V[P[k - 1]];
        SameBucket(text, P, V, k, k - 1);
        SameBucket(text, P, V, k - 1, k);
      }
    }
  }

  // ---- One doubling pass ----------------------------------------------------------------

  /** Every negative entry of I encodes the length of a run of negative entries. */
  predicate Runs(I: seq<int>)
  {
    forall k :: 0 <= k < |I| && I[k] < 0 ==> k - I[k] <= |I| && Negative(I, k, k - I[k])
  }

  predicate Negative(I: seq<int>, lo: int, hi: int)
    requires 0 <= lo && hi <= |I|
  {
    forall m :: lo <= m < hi ==> I[m] < 0
  }

  /** From slot i on: negative entries are singletons, others list suffixes with h further bytes. */
  ghost predicate Pending(text: seq<byte>, P: seq<int>, V: seq<int>, I: seq<int>, i: int, h: nat)
    requires |P| == |V| == |I| == |text| + 1 && IsPermutation(P) && 0 <= i <= |P|
  {
    forall k :: i <= k < |P| ==> if I[k] < 0 then Singleton(P, V, k) else I[k] == P[k] && P[k] + h <= |text|
  }

  /** Before slot i: whole groups that share 2h bytes, and exactly the singletons are negative. */
  ghost predicate Passed(text: seq<byte>, P: seq<int>, V: seq<int>, I: seq<int>, i: int, h: nat)
    requires |P| == |V| == |I| == |text| + 1 && IsPermutation(P) && 0 <= i <= |P|
  {
    && GroupStart(P, V, i)
    && (forall j, k :: 0 <= j < i && 0 <= k < i && j != k && V[P[j]] == V[P[k]] ==> Share(text, P[j], P[k], 2 * h))
    && (forall k :: 0 <= k < i ==> if I[k] < 0 then Singleton(P, V, k) else I[k] == P[k] && P[k] + 2 * h <= |text|)
  }

  /** What holds before the pass with step h. */
  ghost predicate PassReady(text: seq<byte>, P: seq<int>, V: seq<int>, I: seq<int>, h: nat)
  {
    && |P| == |V| == |I| == |text| + 1
    && Ranks(text, P, V, h)
    && Runs(I)
    && Pending(text, P, V, I, 0, h)
  }

  /** What holds inside the pass at slot i, where the last n slots are a run of finished ones. */
  ghost predicate PassAt(text: seq<byte>, P: seq<int>, V: seq<int>, I: seq<int>, i: int, n: int, h: nat)
  {
    && |P| == |V| == |I| == |text| + 1
    && Ranks(text, P, V, h)
    && Runs(I)
    && 0 <= n <= i <= |P|
    && Negative(I, i - n, i)
    && Passed(text, P, V, I, i, h)
    && Pending(text, P, V, I, i, h)
  }

  lemma PassStart(text: seq<byte>, P: seq<int>, V: seq<int>, I: seq<int>, h: nat)
    requires PassReady(text, P, V, I, h)
    ensures PassAt(text, P, V, I, 0, 0, h)
  {}

  /** After the pass all groups share 2h bytes. */
  lemma PassEnd(text: seq<byte>, P: seq<int>, V: seq<int>, I: seq<int>, n: int, h: nat)
    requires PassAt(text, P, V, I, |text| + 1, n, h)
    ensures PassReady(text, P, V, I, 2 * h)
  {
    assert Deep(text, P, V, 2 * h);
  }

  /** A run of finished slots is skipped as a whole. */
  lemma PassSkip(text: seq<byte>, P: seq<int>, V: seq<int>, I: seq<int>, i: int, n: int, h: nat)
    requires PassAt(text, P, V, I, i, n, h) && i <= |text| && I[i] < 0
    ensures PassAt(text, P, V, I, i - I[i], n - I[i], h)
  {
    var e := i - I[i];
    assert Negative(I, i, e);
    assert forall k :: i <= k < e ==> Singleton(P, V, k);
    assert Singleton(P, V, e - 1);
    forall j, k | 0 <= j < e && 0 <= k < e && j != k && V[P[j]] == V[P[k]]
      ensures Share(text, P[j], P[k], 2 * h)
    {
      SingletonAlone(P, V, i, e, j, k);
    }
  }

  lemma SingletonAlone(P: seq<int>, V: seq<int>, i: int, e: int, j: int, k: int)
    requires |P| == |V| && IsPermutation(P) && Grouped(P, V) && 0 <= i <= e <= |P| && GroupStart(P, V, i)
    requires forall m :: i <= m < e ==> Singleton(P, V, m)
    requires 0 <= j < e && 0 <= k < e && j != k && V[P[j]] == V[P[k]]
    ensures j < i && k < i
  {
    assert i <= j ==> Singleton(P, V, j);
    assert i <= k ==> Singleton(P, V, k);
    if j < i {
      NumberOfSlot(P, V, i, j);
    }
    if k < i {
      NumberOfSlot(P, V, i, k);
    }
  }

  /** Slots before a group start have smaller numbers. */
  lemma NumberOfSlot(P: seq<int>, V: seq<int>, i: int, k: int)
    requires |P| == |V| && IsPermutation(P) && Grouped(P, V) && 0 <= k < i <= |P| && GroupStart(P, V, i)
    ensures V[P[k]] < i
  {
    assert k < i - 1 <= V[P[k]] ==> V[P[i - 1]] == V[P[k]];
  }

  /** Recording the length of the run that ends before slot i. */
  lemma PassMark(text: seq<byte>, P: seq<int>, V: seq<int>, I: seq<int>, I': seq<int>, i: int, n: int, h: nat)
    requires PassAt(text, P, V, I, i, n, h) && 0 < n && I' == I[i - n := -n]
    ensures PassAt(text, P, V, I', i, 0, h)
  {
    assert forall k :: 0 <= k < |I| ==> (I[k] < 0 <==> I'[k] < 0);
    forall k | 0 <= k < |I'| && I'[k] < 0
      ensures k - I'[k] <= |I'| && Negative(I', k, k - I'[k])
    {
      if k != i - n {
        assert Negative(I, k, k - I[k]);
      } else {
        assert Negative(I, i - n, i);
      }
    }
  }

  /** An unfinished slot starts a whole group, which is a window. */
  lemma PassGroup(text: seq<byte>, P: seq<int>, V: seq<int>, I: seq<int>, i: int, n: int, h: nat)
    requires PassAt(text, P, V, I, i, n, h) && i <= |text| && I[i] >= 0
    ensures 0 <= I[i] < |V| && I[i] == P[i] && i <= V[P[i]] <= |text|
    ensures IsWindow(text, P, V, i, V[P[i]] + 1, h) && Lists(I, P, i, V[P[i]] + 1)
  {
    forall k | i <= k <= V[P[i]]
      ensures I[k] >= 0
    {
      if I[k] < 0 {
        assert Singleton(P, V, k);
        if i < k {
          NumberOfSlot(P, V, k, i);
        }
      }
    }
  }

  /** Splitting the group at slot i moves the pass behind it. */
  lemma PassSplit(text: seq<byte>, P: seq<int>, V: seq<int>, I: seq<int>, P': seq<int>, V': seq<int>, I': seq<int>,
                  i: int, n: int, e: int, h: nat)
    requires PassAt(text, P, V, I, i, n, h) && i < e <= |P|
    requires forall k :: i <= k < e ==> I[k] >= 0
    requires Ranks(text, P', V', h) && Settled(text, P', V', I', i, e, h)
    requires OnlyWithin(P, V, I, P', V', I', i, e)
    ensures PassAt(text, P', V', I', e, 0, h)
  {
    RunsAfterSplit(text, P', V', I, I', i, e, h);
    PassedAfterSplit(text, P, V, I, P', V', I', i, e, h);
  }

  lemma RunsAfterSplit(text: seq<byte>, P: seq<int>, V: seq<int>, I: seq<int>, I': seq<int>, i: int, e: int, h: nat)
    requires Runs(I) && |I'| == |I| && 0 <= i < e <= |I|
    requires forall k :: i <= k < e ==> I[k] >= 0
    requires forall k :: 0 <= k < |I| && !(i <= k < e) ==> I'[k] == I[k]
    requires Settled(text, P, V, I', i, e, h)
    ensures Runs(I')
  {
    forall k | 0 <= k < |I'| && I'[k] < 0
      ensures k - I'[k] <= |I'| && Negative(I', k, k - I'[k])
    {
      if i <= k < e {
        assert Listed(text, P, V, I', k, h);
      } else {
        assert Negative(I, k, k - I[k]);
        assert I[i] >= 0;
        assert k < i ==> k - I[k] <= i;
      }
    }
  }

  lemma PassedAfterSplit(text: seq<byte>, P: seq<int>, V: seq<int>, I: seq<int>, P': seq<int>, V': seq<int>, I': seq<int>,
                         i: int, e: int, h: nat)
    requires |P| == |V| == |I| == |text| + 1 && IsPermutation(P) && 0 <= i < e <= |P|
    requires Passed(text, P, V, I, i, h) && Pending(text, P, V, I, i, h)
    requires Ranks(text, P', V', h) && Settled(text, P', V', I', i, e, h)
    requires OnlyWithin(P, V, I, P', V', I', i, e)
    ensures Passed(text, P', V', I', e, h) && Pending(text, P', V', I', e, h)
  {
    forall j, k | 0 <= j < e && 0 <= k < e && j != k && V'[P'[j]] == V'[P'[k]]
      ensures Share(text, P'[j], P'[k], 2 * h)
    {
      if j < i && k < i {
      } else {
        assert j >= i by { if j < i { NumberOfSlot(P', V', i, j); } }
        assert k >= i by { if k < i { NumberOfSlot(P', V', i, k); } }
      }
    }
    forall k | 0 <= k < e
      ensures if I'[k] < 0 then Singleton(P', V', k) else I'[k] == P'[k] && P'[k] + 2 * h <= |text|
    {
      if i <= k {
        assert Listed(text, P', V', I', k, h);
      }
    }
    forall k | e <= k < |P|
      ensures if I'[k] < 0 then Singleton(P', V', k) else I'[k] == P'[k] && P'[k] + h <= |text|
    {
      if I[k] < 0 && k > e {
        assert Singleton(P, V, k);
        assert P'[k - 1] == P[k - 1];
      }
    }
  }

  /** A finished slot takes at least one step and stays inside. */
  lemma SkipInRange(text: seq<byte>, P: seq<int>, V: seq<int>, I: seq<int>, i: int, n: int, h: nat)
    requires PassAt(text, P, V, I, i, n, h) && i <= |text| && I[i] < 0
    ensures i - I[i] <= |text| + 1
  {}

  lemma PassFacts(text: seq<byte>, P: seq<int>, V: seq<int>, I: seq<int>, i: int, n: int, h: nat)
    requires PassAt(text, P, V, I, i, n, h)
    ensures |P| == |V| == |I| == |text| + 1 && IsPermutation(P)
    ensures 0 <= n <= i <= |text| + 1 && Negative(I, i - n, i) && Ranks(text, P, V, h)
  {}

  lemma NoneListed(I: seq<int>, i: int)
    requires 0 <= i < |I| && Negative(I, 0, |I|)
    ensures I[i] < 0
  {}

  lemma PositiveGroup(text: seq<byte>, P: seq<int>, V: seq<int>, I: seq<int>, i: int, e: int)
    requires Lists(I, P, i, e) && IsPermutation(P)
    ensures forall k :: i <= k < e ==> I[k] >= 0
  {}

  /**
    One pass: every unsorted group is split by the keys h bytes further on, and runs of
    finished slots are merged. When nothing was left to sort, a single run remains.
   */
  method Pass(ghost text: seq<byte>, I: array<int>, V: array<int>, ghost P: seq<int>, h: nat)
    returns (ghost P': seq<int>)
    requires I != V && I.Length == V.Length == |text| + 1
    requires PassReady(text, P, V[..], I[..], h)
    modifies I, V
    ensures PassReady(text, P', V[..], I[..], 2 * h)
    ensures Negative(old(I[..]), 0, |text| + 1) ==> I[0] == -(|text| + 1)
  {
    hide *;
    P' := P;
    var n := 0;
    var i := 0;
    ghost var done := Negative(I[..], 0, |text| + 1);
    PassStart(text, P, V[..], I[..], h);
    while i < I.Length
      invariant PassAt(text, P', V[..], I[..], i, n, h)
      invariant 0 <= i <= I.Length
      invariant done ==> n == i && Negative(I[..], 0, |text| + 1)
    {
      if I[i] < 0 {
        SkipInRange(text, P', V[..], I[..], i, n, h);
        PassSkip(text, P', V[..], I[..], i, n, h);
        n := n - I[i];
        i := i - I[i];
      } else {
        if done {
          NoneListed(I[..], i);
        }
        PassFacts(text, P', V[..], I[..], i, n, h);
        if n != 0 {
          PassMark(text, P', V[..], I[..], I[..][i - n := -n], i, n, h);
          I[i - n] := -n;
        }
        ghost var P1, V1, I1 := P', V[..], I[..];
        PassGroup(text, P1, V1, I1, i, 0, h);
        n := V[I[i]] + 1 - i;
        PositiveGroup(text, P1, V1, I1, i, i + n);
        P' := Split(text, I, V, P', i, n, h);
        PassSplit(text, P1, V1, I1, P', V[..], I[..], i, 0, i + n, h);
        i := i + n;
        n := 0;
      }
    }
    PassFacts(text, P', V[..], I[..], i, n, h);
    if n != 0 {
      PassMark(text, P', V[..], I[..], I[..][i - n := -n], i, n, h);
      I[i - n] := -n;
    }
    PassEnd(text, P', V[..], I[..], 0, h);
  }

  // ---- The whole algorithm --------------------------------------------------------------

  lemma FirstPassReady(text: seq<byte>, P: seq<int>, V: seq<int>, I: seq<int>)
    requires Bucketed(text, P, V) && Ranks(text, P, V, 1) && |I| == |P|
    requires I[0] == -1
    requires forall k :: 1 <= k < |I| ==> I[k] == P[k] || (I[k] == -1 && Singleton(P, V, k))
    ensures PassReady(text, P, V, I, 1)
  {}

  /** The array code before the first pass. */
  method SortByFirstByte(obuf: seq<byte>, I: array<int>, V: array<int>) returns (ghost P: seq<int>)
    requires I != V && I.Length == V.Length == |obuf| + 1
    modifies I, V
    ensures PassReady(obuf, P, V[..], I[..], 1)
  {
    hide Slot, Start, End, Ranks, PassReady;
    var buckets := CountBuckets(obuf);
    Distribute(obuf, buckets, I);
    I[0] := |obuf|;
    for i := 0 to |obuf|
      modifies V
      invariant forall k :: 0 <= k < i ==> V[k] == End(obuf, obuf[k])
    {
      V[i] := buckets[obuf[i]];
    }
    V[|obuf|] := 0;
    P := I[..];
    assert Bucketed(obuf, P, V[..]);
    BucketedRanks(obuf, P, V[..]);
    MarkSingletons(obuf, P, V[..], buckets, I);
    I[0] := -1;
    FirstPassReady(obuf, P, V[..], I[..]);
  }

  /** Once the step exceeds the length of the text, no group is left to sort. */
  lemma NothingPending(text: seq<byte>, P: seq<int>, V: seq<int>, I: seq<int>, h: nat)
    requires PassReady(text, P, V, I, h) && |text| < h
    ensures Negative(I, 0, |text| + 1)
  {}

  /** A single run over all slots means that every suffix has its own number, which is its slot. */
  lemma AllSorted(text: seq<byte>, P: seq<int>, V: seq<int>, I: seq<int>, h: nat)
    requires PassReady(text, P, V, I, h) && I[0] == -(|text| + 1)
    ensures |P| == |V| == |text| + 1 && IsPermutation(P)
    ensures forall k :: 0 <= k < |P| ==> V[P[k]] == k
    ensures IsSuffixArray(text, P)
  {
    assert Negative(I, 0, |I|);
    forall k | 0 <= k < |P|
      ensures V[P[k]] == k
    {
      assert Singleton(P, V, k);
    }
    forall j, k | 0 <= j < k < |P|
      ensures Less(text[P[j]..], text[P[k]..])
    {
      assert SuffixLess(text, P[j], P[k]);
      SuffixLessIsLess(text, P[j], P[k]);
    }
  }

  /** Rebuilds the listing by inverting V. */
  method Invert(I: array<int>, V: array<int>, ghost P: seq<int>)
    requires I != V && I.Length == V.Length == |P| && IsPermutation(P)
    requires forall k :: 0 <= k < |P| ==> V[P[k]] == k
    modifies I
    ensures I[..] == P
  {
    for i := 0 to I.Length
      invariant forall k :: 0 <= k < |P| && P[k] < i ==> I[k] == P[k]
    {
      ghost var k := SlotOf(P, i);
      I[V[i]] := i;
    }
  }

  /** The suffix array of obuf. */
  method Qsufsort(obuf: seq<byte>) returns (I: array<int>)
    ensures fresh(I)
    ensures IsSuffixArray(obuf, I[..])
  {
    hide *;
    I := new int[|obuf| + 1](_ => 0);
    var V := new int[|obuf| + 1](_ => 0);
    ghost var P := SortByFirstByte(obuf, I, V);
    var h := 1;
    while I[0] != -(|obuf| + 1)
      invariant 1 <= h && PassReady(obuf, P, V[..], I[..], h)
      decreases if h <= |obuf| then |obuf| + 1 - h else 0, if I[0] != -(|obuf| + 1) then 1 else 0
    {
      if |obuf| < h {
        NothingPending(obuf, P, V[..], I[..], h);
      }
      P := Pass(obuf, I, V, P, h);
      h := h + h;
    }
    AllSorted(obuf, P, V[..], I[..], h);
    Invert(I, V, P);
  }
}
