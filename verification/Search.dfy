/** Longest-match search over the suffix array. */
module Search {
  import opened Lex
  import opened Ranking

  /** The loop that compares two byte strings position by position. */
  method MatchLen(a: seq<byte>, b: seq<byte>) returns (i: nat)
    ensures i == Lcp(a, b)
  {
    i := 0;
    while i < |a| && i < |b| && a[i] == b[i]
      invariant i <= |a| && i <= |b|
      invariant forall k :: 0 <= k < i ==> a[k] == b[k]
    {
      i := i + 1;
    }
    LcpUnique(a, b, i);
  }

  /** Binary search between slots st and en: a position of obuf and its match length with nbuf. */
  function Find(I: seq<int>, obuf: seq<byte>, nbuf: seq<byte>, st: nat, en: nat): (r: (nat, nat))
    requires |I| == |obuf| + 1 && IsPermutation(I) && st <= en <= |obuf|
    ensures r.0 <= |obuf| && r.1 == Lcp(obuf[r.0..], nbuf)
    decreases en - st
  {
    if en - st < 2 then
      var x := Lcp(obuf[I[st]..], nbuf);
      var y := Lcp(obuf[I[en]..], nbuf);
      if x > y then (I[st], x) else (I[en], y)
    else
      var x := st + (en - st) / 2;
      if Less(obuf[I[x]..], nbuf) then Find(I, obuf, nbuf, x, en) else Find(I, obuf, nbuf, st, x)
  }

  lemma {:induction false} LcpSymmetric(a: seq<byte>, b: seq<byte>)
    ensures Lcp(a, b) == Lcp(b, a)
  {
    LcpUnique(b, a, Lcp(a, b));
  }

  /** Slots st and en enclose the place of nbuf in the order of the suffixes. */
  predicate Encloses(I: seq<int>, obuf: seq<byte>, nbuf: seq<byte>, st: nat, en: nat)
    requires |I| == |obuf| + 1 && IsPermutation(I) && st <= en <= |obuf|
  {
    && (st == 0 || Less(obuf[I[st]..], nbuf))
    && (en == |obuf| || !Less(obuf[I[en]..], nbuf))
  }

  /** Outside the enclosing slots no suffix matches longer than at the nearer of the two. */
  lemma OutsideShorter(I: seq<int>, obuf: seq<byte>, nbuf: seq<byte>, st: nat, en: nat, k: nat)
    requires IsSuffixArray(obuf, I) && st <= en <= |obuf| && Encloses(I, obuf, nbuf, st, en)
    requires k <= |obuf| && (k <= st || en <= k)
    ensures Lcp(obuf[I[k]..], nbuf) <= Lcp(obuf[I[if k <= st then st else en]..], nbuf)
  {
    if k < st {
      assert Less(obuf[I[k]..], obuf[I[st]..]);
      LcpBetween(obuf[I[k]..], obuf[I[st]..], nbuf);
    } else if k > st && k > en {
      assert Less(obuf[I[en]..], obuf[I[k]..]);
      LessTotal(nbuf, obuf[I[en]..]);
      LcpBetween(nbuf, obuf[I[en]..], obuf[I[k]..]);
      LcpSymmetric(nbuf, obuf[I[en]..]);
      LcpSymmetric(nbuf, obuf[I[k]..]);
    }
  }

  lemma FindBetweenNeighbours(I: seq<int>, obuf: seq<byte>, nbuf: seq<byte>, st: nat, en: nat, p: nat)
    requires IsSuffixArray(obuf, I) && st <= en <= |obuf| && Encloses(I, obuf, nbuf, st, en)
    requires p <= |obuf| && en - st < 2
    ensures Lcp(obuf[p..], nbuf) <= Find(I, obuf, nbuf, st, en).1
  {
    hide Lcp, Less;
    var k := SlotOf(I, p);
    OutsideShorter(I, obuf, nbuf, st, en, k);
  }

  /** Halving keeps the place of nbuf enclosed. */
  lemma FindHalf(I: seq<int>, obuf: seq<byte>, nbuf: seq<byte>, st: nat, en: nat)
    requires |I| == |obuf| + 1 && IsPermutation(I) && st + 2 <= en <= |obuf| && Encloses(I, obuf, nbuf, st, en)
    ensures var x := st + (en - st) / 2;
            if Less(obuf[I[x]..], nbuf) then
              Find(I, obuf, nbuf, st, en) == Find(I, obuf, nbuf, x, en) && Encloses(I, obuf, nbuf, x, en)
            else
              Find(I, obuf, nbuf, st, en) == Find(I, obuf, nbuf, st, x) && Encloses(I, obuf, nbuf, st, x)
  {
    hide Lcp, Less;
  }

  /** The match found is a longest one over all positions of obuf. */
  lemma {:induction false} FindIsLongest(I: seq<int>, obuf: seq<byte>, nbuf: seq<byte>, st: nat, en: nat, p: nat)
    requires IsSuffixArray(obuf, I) && st <= en <= |obuf| && Encloses(I, obuf, nbuf, st, en)
    requires p <= |obuf|
    ensures Lcp(obuf[p..], nbuf) <= Find(I, obuf, nbuf, st, en).1
    decreases en - st
  {
    hide *;
    SuffixArrayFacts(obuf, I);
    if en - st < 2 {
      FindBetweenNeighbours(I, obuf, nbuf, st, en, p);
    } else {
      FindHalf(I, obuf, nbuf, st, en);
      var x := st + (en - st) / 2;
      if Less(obuf[I[x]..], nbuf) {
        FindIsLongest(I, obuf, nbuf, x, en, p);
      } else {
        FindIsLongest(I, obuf, nbuf, st, x, p);
      }
    }
  }

  // ---- Which of the longest matches is found ---------------------------------------------

  /**
    What a search has to return: a longest match. Of several, it is the smallest suffix that is not
    smaller than nbuf, and if there is no such suffix, the largest of all.
   */
  ghost predicate IsMatch(obuf: seq<byte>, nbuf: seq<byte>, r: (nat, nat))
  {
    && r.0 <= |obuf| && r.1 == Lcp(obuf[r.0..], nbuf)
    && forall p: nat :: p <= |obuf| ==>
         && Lcp(obuf[p..], nbuf) <= r.1
         && (Lcp(obuf[p..], nbuf) == r.1 ==> Preferred(obuf, nbuf, r.0, p))
  }

  /** Of two longest matches, q is not preferred to p. */
  predicate Preferred(obuf: seq<byte>, nbuf: seq<byte>, p: nat, q: nat)
    requires p <= |obuf| && q <= |obuf|
  {
    || p == q
    || if Less(obuf[q..], nbuf) then Less(obuf[p..], nbuf) ==> Less(obuf[q..], obuf[p..])
       else !Less(obuf[p..], nbuf) && Less(obuf[p..], obuf[q..])
  }

  /** The old file, the string looked for and the rule fix position and length. */
  lemma MatchUnique(obuf: seq<byte>, nbuf: seq<byte>, r: (nat, nat), r': (nat, nat))
    requires IsMatch(obuf, nbuf, r) && IsMatch(obuf, nbuf, r')
    ensures r == r'
  {
    hide Lcp, Less;
    LessTotal(obuf[r.0..], obuf[r'.0..]);
    assert obuf[r.0..] == obuf[r'.0..] ==> r.0 == r'.0;
  }

  /** The slots at which the search ends. */
  lemma {:induction false} FindEnds(I: seq<int>, obuf: seq<byte>, nbuf: seq<byte>, st: nat, en: nat)
    returns (lo: nat, hi: nat)
    requires IsSuffixArray(obuf, I) && st < en <= |obuf| && Encloses(I, obuf, nbuf, st, en)
    requires Less(obuf[I[st]..], nbuf)
    ensures hi == lo + 1 <= |obuf| && IsPermutation(I) && |I| == |obuf| + 1 && Encloses(I, obuf, nbuf, lo, hi)
    ensures Less(obuf[I[lo]..], nbuf)
    ensures Find(I, obuf, nbuf, st, en) == Find(I, obuf, nbuf, lo, hi)
    decreases en - st
  {
    hide *;
    SuffixArrayFacts(obuf, I);
    lo, hi := st, en;
    if en - st >= 2 {
      FindHalf(I, obuf, nbuf, st, en);
      var x := st + (en - st) / 2;
      if Less(obuf[I[x]..], nbuf) {
        lo, hi := FindEnds(I, obuf, nbuf, x, en);
      } else {
        lo, hi := FindEnds(I, obuf, nbuf, st, x);
      }
    }
  }

  /** The preference of Find between two neighbouring slots around the place of nbuf. */
  lemma FindPrefers(I: seq<int>, obuf: seq<byte>, nbuf: seq<byte>, st: nat, k: nat)
    requires IsSuffixArray(obuf, I) && st < |obuf| && Encloses(I, obuf, nbuf, st, st + 1)
    requires Less(obuf[I[st]..], nbuf) && k <= |obuf|
    requires Lcp(obuf[I[k]..], nbuf) == Find(I, obuf, nbuf, st, st + 1).1
    ensures |I| == |obuf| + 1 && IsPermutation(I)
    ensures Preferred(obuf, nbuf, Find(I, obuf, nbuf, st, st + 1).0, I[k])
  {
    hide *;
    SuffixArrayFacts(obuf, I);
    var en := st + 1;
    FindPair(I, obuf, nbuf, st);
    OutsideShorter(I, obuf, nbuf, st, en, k);
    LessAround(I, obuf, nbuf, st, k);
    LessAround(I, obuf, nbuf, st, en);
    if Less(obuf[I[en]..], nbuf) {
      NearerIsLonger(I, obuf, nbuf, st, en);
    }
    var m := if Find(I, obuf, nbuf, st, en).0 == I[st] then st else en;
    PreferredSlot(I, obuf, nbuf, m, k);
  }

  lemma FindPair(I: seq<int>, obuf: seq<byte>, nbuf: seq<byte>, st: nat)
    requires |I| == |obuf| + 1 && IsPermutation(I) && st < |obuf|
    ensures var x, y := Lcp(obuf[I[st]..], nbuf), Lcp(obuf[I[st + 1]..], nbuf);
            Find(I, obuf, nbuf, st, st + 1) == if x > y then (I[st], x) else (I[st + 1], y)
    ensures I[st] != I[st + 1]
  {
    hide Lcp;
  }

  lemma PreferredSlot(I: seq<int>, obuf: seq<byte>, nbuf: seq<byte>, m: nat, k: nat)
    requires IsSuffixArray(obuf, I) && m <= |obuf| && k <= |obuf|
    requires m == k || if Less(obuf[I[k]..], nbuf) then Less(obuf[I[m]..], nbuf) ==> k < m
                       else !Less(obuf[I[m]..], nbuf) && m < k
    ensures Preferred(obuf, nbuf, I[m], I[k])
  {
    hide Less;
  }

  /** Slots up to st hold smaller suffixes than nbuf, and the others do not, unless all do. */
  lemma LessAround(I: seq<int>, obuf: seq<byte>, nbuf: seq<byte>, st: nat, k: nat)
    requires IsSuffixArray(obuf, I) && st < |obuf| && Encloses(I, obuf, nbuf, st, st + 1)
    requires Less(obuf[I[st]..], nbuf) && k <= |obuf|
    ensures k <= st ==> Less(obuf[I[k]..], nbuf)
    ensures k > st && Less(obuf[I[k]..], nbuf) ==> st + 1 == |obuf|
  {
    hide Lcp, Less;
    var en := st + 1;
    if k < st {
      assert Less(obuf[I[k]..], obuf[I[st]..]);
      LessTransitive(obuf[I[k]..], obuf[I[st]..], nbuf);
    } else if k > en && Less(obuf[I[k]..], nbuf) {
      assert Less(obuf[I[en]..], obuf[I[k]..]);
      LessTransitive(obuf[I[en]..], obuf[I[k]..], nbuf);
    }
  }

  lemma NearerIsLonger(I: seq<int>, obuf: seq<byte>, nbuf: seq<byte>, j: nat, k: nat)
    requires IsSuffixArray(obuf, I) && j < k <= |obuf| && Less(obuf[I[k]..], nbuf)
    ensures Lcp(obuf[I[j]..], nbuf) <= Lcp(obuf[I[k]..], nbuf)
  {
    hide Lcp, Less;
    assert Less(obuf[I[j]..], obuf[I[k]..]);
    LcpBetween(obuf[I[j]..], obuf[I[k]..], nbuf);
  }

  /** On a suffix array the search returns the match that the rule picks. */
  lemma FindIsMatch(I: seq<int>, obuf: seq<byte>, nbuf: seq<byte>)
    requires IsSuffixArray(obuf, I) && nbuf != []
    ensures |I| == |obuf| + 1 && IsPermutation(I)
    ensures IsMatch(obuf, nbuf, Find(I, obuf, nbuf, 0, |obuf|))
  {
    SuffixArrayFacts(obuf, I);
    EmptySuffixFirst(obuf, I);
    assert Less(obuf[I[0]..], nbuf);
    hide IsSuffixArray, Find, Less, Lcp, IsPermutation;
    var r := Find(I, obuf, nbuf, 0, |obuf|);
    forall p: nat | p <= |obuf|
      ensures Lcp(obuf[p..], nbuf) <= r.1
      ensures Lcp(obuf[p..], nbuf) == r.1 ==> Preferred(obuf, nbuf, r.0, p)
    {
      FindIsLongest(I, obuf, nbuf, 0, |obuf|, p);
      if |obuf| > 0 && Lcp(obuf[p..], nbuf) == r.1 {
        var lo, hi := FindEnds(I, obuf, nbuf, 0, |obuf|);
        var k := SlotOf(I, p);
        FindPrefers(I, obuf, nbuf, lo, k);
      }
    }
  }

  /** The empty string, which the differ never looks for, ends at the second slot if there is one. */
  lemma {:induction false} FindNothing(I: seq<int>, obuf: seq<byte>, en: nat)
    requires |I| == |obuf| + 1 && IsPermutation(I) && en <= |obuf|
    ensures Find(I, obuf, [], 0, en) == (I[if en == 0 then 0 else 1], 0)
    decreases en
  {
    if en >= 2 {
      FindNothing(I, obuf, en / 2);
    }
  }

  lemma SuffixArrayFacts(text: seq<byte>, I: seq<int>)
    requires IsSuffixArray(text, I)
    ensures |I| == |text| + 1 && IsPermutation(I) && forall k :: 0 <= k < |I| ==> 0 <= I[k] <= |text|
  {}

  /** The empty suffix comes first. */
  lemma EmptySuffixFirst(text: seq<byte>, I: seq<int>)
    requires IsSuffixArray(text, I)
    ensures I[0] == |text|
  {
    var k := SlotOf(I, |text|);
    assert k > 0 ==> Less(text[I[0]..], text[I[k]..]);
  }

  /** A text has only one suffix array. */
  lemma SuffixArrayUnique(text: seq<byte>, I: seq<int>, J: seq<int>)
    requires IsSuffixArray(text, I) && IsSuffixArray(text, J)
    ensures I == J
  {
    SameUpTo(text, I, J, |text| + 1);
  }

  lemma {:induction false} SameUpTo(text: seq<byte>, I: seq<int>, J: seq<int>, n: nat)
    requires IsSuffixArray(text, I) && IsSuffixArray(text, J) && n <= |I|
    ensures I[..n] == J[..n]
  {
    if n > 0 {
      SameUpTo(text, I, J, n - 1);
      var k := n - 1;
      assert forall m :: 0 <= m < k ==> I[..k][m] == I[m] && J[..k][m] == J[m];
      var i := SlotOf(I, J[k]);
      var j := SlotOf(J, I[k]);
      if k < i && k < j {
        LessTotal(text[I[k]..], text[J[k]..]);
      }
      assert I[k] == J[k];
    }
  }
}
