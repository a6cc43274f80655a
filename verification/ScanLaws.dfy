/** What the stops, extensions and cuts of the plan achieve. */
module ScanLaws {
  import opened Lex
  import opened Ranking
  import opened Search
  import opened Interp
  import opened Plan
  import opened Laws

  // ---- The best match -----------------------------------------------------------------------

  /** No position of the old file matches the new file from s on longer than the best match. */
  lemma BestIsLongest(d: Job, s: nat, p: nat)
    requires Valid(d) && s <= |d.nbuf| && p <= |d.obuf|
    ensures Lcp(d.obuf[p..], d.nbuf[s..]) <= Best(d, s).1
    ensures Best(d, s).1 == Lcp(d.obuf[Best(d, s).0..], d.nbuf[s..])
  {
    hide Find, IsSuffixArray;
    SuffixArrayFacts(d.obuf, d.I);
    FindIsLongest(d.I, d.obuf, d.nbuf[s..], 0, |d.obuf|, p);
  }

  /** The two files and the rule of the search fix the best match, position and length. */
  lemma BestIs(d: Job, s: nat, r: (nat, nat))
    requires Valid(d) && s < |d.nbuf|
    ensures r == Best(d, s) <==> IsMatch(d.obuf, d.nbuf[s..], r)
  {
    hide Find, IsSuffixArray, IsMatch, Lcp;
    FindIsMatch(d.I, d.obuf, d.nbuf[s..]);
    if IsMatch(d.obuf, d.nbuf[s..], r) {
      MatchUnique(d.obuf, d.nbuf[s..], r, Best(d, s));
    }
  }

  /** Whether a match of some length ends the scan when so many of its bytes agree at the old alignment. */
  predicate EndsScan(length: nat, score: nat)
  {
    (length == score && length > 0) || length >= score + 9
  }

  /** A stop, in terms of the files: the longest match is aligned, or beats the alignment by more than 8 bytes. */
  lemma StopsIff(d: Job, offset: int, s: nat, r: (nat, nat))
    requires Valid(d) && s < |d.nbuf| && IsMatch(d.obuf, d.nbuf[s..], r)
    ensures Stops(d, offset, s) <==> EndsScan(r.1, Matches(d, s + offset, s, r.1))
  {
    hide Best, IsMatch, IsSuffixArray, Matches;
    BestIs(d, s, r);
  }

  /** One position further on, the best match is at most one byte shorter. */
  lemma BestDropsByOne(d: Job, s: nat)
    requires Valid(d) && s < |d.nbuf|
    ensures Best(d, s).1 <= Best(d, s + 1).1 + 1
  {
    hide Best, IsSuffixArray;
    var p, l := Best(d, s).0, Best(d, s).1;
    BestIsLongest(d, s, 0);
    BestInside(d, s);
    if l > 0 {
      assert d.obuf[p..][1..] == d.obuf[p + 1..] && d.nbuf[s..][1..] == d.nbuf[s + 1..];
      BestIsLongest(d, s + 1, p + 1);
    }
  }

  lemma BestInside(d: Job, s: nat)
    requires Ready(d) && s <= |d.nbuf|
    ensures Best(d, s).0 + Best(d, s).1 <= |d.obuf| && s + Best(d, s).1 <= |d.nbuf|
  {}

  /** A best match of length zero means that the old file does not contain the byte. */
  lemma NoMatchNoByte(d: Job, s: nat, p: int)
    requires Valid(d) && s < |d.nbuf| && Best(d, s).1 == 0
    ensures !Same(d, p, s)
  {
    hide Best, IsSuffixArray;
    if 0 <= p < |d.obuf| {
      BestIsLongest(d, s, p);
      assert d.obuf[p..][0] == d.obuf[p] && d.nbuf[s..][0] == d.nbuf[s];
    }
  }

  // ---- Extensions and cuts --------------------------------------------------------------------

  /** Byte i from position p of the old file on and byte i from position q of the new file on exist and agree. */
  predicate Agrees(d: Job, p: int, q: int, i: int)
  {
    0 <= p + i < |d.obuf| && 0 <= q + i < |d.nbuf| && d.obuf[p + i] == d.nbuf[q + i]
  }

  /** The matches are the agreeing byte pairs. */
  lemma {:induction false} MatchesIsCount(d: Job, p: int, q: int, n: nat)
    ensures Matches(d, p, q, n) == |set i: nat | i < n && Agrees(d, p, q, i)|
  {
    if n > 0 {
      var m := n - 1;
      MatchesIsCount(d, p, q, m);
      assert Agrees(d, p, q, m) <==> Same(d, p + m, q + m);
      hide Agrees, Same;
      var all, most := set i: nat | i < n && Agrees(d, p, q, i), set i: nat | i < m && Agrees(d, p, q, i);
      assert all == if Agrees(d, p, q, m) then most + {m} else most;
    }
  }

  /** The matches before two positions are those of the bytes that end there. */
  lemma {:induction false} MatchesBeforeIs(d: Job, p: int, q: int, n: nat)
    ensures MatchesBefore(d, p, q, n) == Matches(d, p - n, q - n, n)
  {
    if n > 0 {
      MatchesBeforeIs(d, p, q, n - 1);
      MatchesSplit(d, p - n, q - n, 1, n - 1);
      assert Matches(d, p - n, q - n, 1) == Matches(d, p - n, q - n, 0) + if Same(d, p - n, q - n) then 1 else 0;
    }
  }

  /**
    Of all lengths that stay before the stop and inside the old file, f is the shortest at which
    twice the agreeing bytes minus the length is largest.
   */
  ghost predicate IsForward(d: Job, a: Cursor, f: nat)
  {
    && a.lastscan + f <= a.scan && a.lastpos + f <= |d.obuf|
    && var best := 2 * Matches(d, a.lastpos, a.lastscan, f) - f;
       forall i: nat :: a.lastscan + i <= a.scan && a.lastpos + i <= |d.obuf| ==>
         var gain := 2 * Matches(d, a.lastpos, a.lastscan, i) - i; gain <= best && (i < f ==> gain < best)
  }

  /**
    The same backward from the match, over all lengths that stay behind the last triple and inside
    the old file. At the end of the new file there is no match to extend.
   */
  ghost predicate IsBackward(d: Job, a: Cursor, b: nat)
  {
    if a.scan == |d.nbuf| then b == 0
    else
      && a.lastscan + b <= a.scan && b <= a.pos
      && var best := 2 * MatchesBefore(d, a.pos, a.scan, b) - b;
         forall i: nat :: a.lastscan + i <= a.scan && i <= a.pos ==>
           var gain := 2 * MatchesBefore(d, a.pos, a.scan, i) - i; gain <= best && (i < b ==> gain < best)
  }

  /** The agreeing bytes of an overlap of o bytes from q on when c of them go to the forward alignment. */
  function Kept(d: Job, a: Cursor, b: nat, o: nat, c: nat): nat
    requires c <= o
  {
    var q := a.scan - b;
    Matches(d, q + a.lastpos - a.lastscan, q, c) + Matches(d, a.pos - b + c, q + c, o - c)
  }

  /** Of all cuts of the overlap of the extensions f and b, c is the first that keeps most agreeing bytes. */
  ghost predicate IsCut(d: Job, a: Cursor, f: nat, b: nat, c: nat)
  {
    var o := a.lastscan + f - (a.scan - b);
    if o <= 0 then c == 0
    else
      && c <= o
      && forall i: nat :: i <= o ==>
           Kept(d, a, b, o, i) <= Kept(d, a, b, o, c) && (i < c ==> Kept(d, a, b, o, i) < Kept(d, a, b, o, c))
  }

  /** Each extension is the shortest one with the largest gain over all lengths that the files allow. */
  lemma ExtensionsAreBest(d: Job, a: Cursor, n: nat)
    requires Stopped(d, a)
    ensures n == Forward(d, a) <==> IsForward(d, a, n)
    ensures n == Backward(d, a) <==> IsBackward(d, a, n)
  {
    hide Matches, MatchesBefore, FirstMax;
    FirstMaxIs(ForwardGain(d, a), ForwardRoom(d, a));
    FirstMaxIs(BackwardGain(d, a), BackwardRoom(d, a));
    forall i: nat
      ensures ForwardGain(d, a)(i) == 2 * Matches(d, a.lastpos, a.lastscan, i) - i
      ensures BackwardGain(d, a)(i) == 2 * MatchesBefore(d, a.pos, a.scan, i) - i
    {
    }
  }

  lemma {:induction false} MatchesSplit(d: Job, p: int, q: int, m: nat, n: nat)
    ensures Matches(d, p, q, m + n) == Matches(d, p, q, m) + Matches(d, p + m, q + m, n)
  {
    if n > 0 {
      MatchesSplit(d, p, q, m, n - 1);
    }
  }

  /** The cut is the first that keeps as many agreeing bytes of the overlap as any cut can. */
  lemma CutIsBest(d: Job, a: Cursor, c: nat)
    requires Stopped(d, a)
    ensures c == CutPoint(d, a) <==> IsCut(d, a, Forward(d, a), Backward(d, a), c)
  {
    hide Matches, Forward, Backward, FirstMax;
    var o, b := Overlap(d, a), Backward(d, a);
    var q := a.scan - b;
    FirstMaxIs(CutGain(d, a), o);
    forall i: nat | i <= o
      ensures Kept(d, a, b, o, i) == CutGain(d, a)(i) + Matches(d, a.pos - b, q, o)
    {
      MatchesSplit(d, a.pos - b, q, i, o - i);
    }
  }

  /** The triple at a stop, from lengths that the files determine. */
  lemma TripleFromFiles(d: Job, a: Cursor, f: nat, b: nat, c: nat)
    requires Stopped(d, a) && IsForward(d, a, f) && IsBackward(d, a, b) && IsCut(d, a, f, b, c)
    ensures var o := a.lastscan + f - (a.scan - b);
            var lenf, lenb := f - (if o > 0 then o else 0) + c, b - c;
            && TripleAt(d, a) == Triple(lenf, (a.scan - lenb) - (a.lastscan + lenf), (a.pos - lenb) - (a.lastpos + lenf))
            && Emitted(d, a) == Cursor(a.scan, a.length, a.pos, a.scan - lenb, a.pos - lenb, a.pos - a.scan)
  {
    hide Matches, IsForward, IsBackward, IsCut, Forward, Backward, CutPoint;
    ExtensionsAreBest(d, a, f);
    ExtensionsAreBest(d, a, b);
    CutIsBest(d, a, c);
  }

  /** The diff part of a triple ends where the next one can start; bytes are copied only without an overlap. */
  lemma TripleShape(d: Job, a: Cursor)
    requires Stopped(d, a)
    ensures var t := TripleAt(d, a);
            t.add <= a.scan - a.lastscan && (Overlap(d, a) > 0 ==> t.copy == 0)
    ensures Overlap(d, a) == 0 ==> TripleAt(d, a).add == Forward(d, a)
  {}

  /** A delta is zero exactly where the aligned bytes agree. */
  lemma DeltaZeroIff(d: Job, p: int, q: int)
    requires 0 <= p < |d.obuf| && 0 <= q < |d.nbuf|
    ensures Delta(d, p, q) == 0 <==> Same(d, p, q)
  {}

  function Zeros(s: seq<byte>): nat
  {
    if s == [] then 0 else Zeros(s[..|s| - 1]) + if s[|s| - 1] == 0 then 1 else 0
  }

  lemma {:induction false} ZerosAreMatches(d: Job, p: nat, q: nat, n: nat)
    requires p + n <= |d.obuf| && q + n <= |d.nbuf|
    ensures Zeros(Deltas(d, p, q, n)) == Matches(d, p, q, n)
  {
    if n > 0 {
      ZerosAreMatches(d, p, q, n - 1);
      var s := Deltas(d, p, q, n);
      assert s[..n - 1] == Deltas(d, p, q, n - 1);
      DeltaZeroIff(d, p + n - 1, q + n - 1);
    }
  }

  /** Where nothing is cut, at least half of the diff bytes of a triple are zero. */
  lemma HalfOfDiffIsZero(d: Job, a: Cursor)
    requires Stopped(d, a) && Overlap(d, a) == 0
    ensures var n := TripleAt(d, a).add; n <= 2 * Zeros(Deltas(d, a.lastpos, a.lastscan, n))
  {
    TripleShape(d, a);
    TripleInRange(d, a);
    hide *;
    var n := Forward(d, a);
    ForwardGains(d, a);
    ZerosAreMatches(d, a.lastpos, a.lastscan, n);
  }

  lemma ForwardGains(d: Job, a: Cursor)
    requires Stopped(d, a)
    ensures 2 * Matches(d, a.lastpos, a.lastscan, Forward(d, a)) >= Forward(d, a)
  {
    FirstMaxIs(ForwardGain(d, a), ForwardRoom(d, a));
    assert ForwardGain(d, a)(0) <= ForwardGain(d, a)(Forward(d, a));
  }

  /** The two files determine the plan. */
  lemma JobDetermined(d: Job, e: Job)
    requires Valid(d) && Valid(e) && d.obuf == e.obuf && d.nbuf == e.nbuf
    ensures d == e
  {
    SuffixArrayUnique(d.obuf, d.I, e.I);
  }

  // ---- How many triples ---------------------------------------------------------------------------

  /**
    Before the end of the new file a triple is written exactly for a match of more than 8 bytes beyond
    what the old alignment has.
   */
  lemma TriplePays(d: Job, a: Cursor)
    requires Stopped(d, a) && a.scan < |d.nbuf| && Stops(d, a.lastoffset, a.scan)
    requires a.length == Best(d, a.scan).1
    ensures Emits(d, a) <==> a.length >= Matches(d, a.scan + a.lastoffset, a.scan, a.length) + 9
  {}

  /**
    Where the scan goes from a cursor, in terms of the files: behind the last match, over all positions
    whose match does not end it, to the first that does or to the end of the new file.
   */
  lemma AdvanceFromFiles(d: Job, c: Cursor)
    requires Valid(d) && Resting(d, c) && c.scan < |d.nbuf|
    ensures var a, s0 := Advance(d, c), c.scan + c.length;
            && s0 <= a.scan <= |d.nbuf|
            && (forall k: nat, r: (nat, nat) :: s0 <= k < a.scan && IsMatch(d.obuf, d.nbuf[k..], r) ==>
                  !EndsScan(r.1, Matches(d, k + c.lastoffset, k, r.1)))
            && (a.scan < |d.nbuf| ==>
                  && IsMatch(d.obuf, d.nbuf[a.scan..], (a.pos, a.length))
                  && EndsScan(a.length, Matches(d, a.scan + c.lastoffset, a.scan, a.length)))
            && (s0 < a.scan == |d.nbuf| ==> IsMatch(d.obuf, d.nbuf[a.scan - 1..], (a.pos, a.length)))
            && (s0 == |d.nbuf| ==> (a.pos, a.length) == (c.pos, c.length))
  {
    hide Best, Matches, IsMatch, IsSuffixArray, EndsScan, Stops;
    var a, s0 := Advance(d, c), c.scan + c.length;
    forall k: nat, r: (nat, nat) | s0 <= k < a.scan && IsMatch(d.obuf, d.nbuf[k..], r)
      ensures !EndsScan(r.1, Matches(d, k + c.lastoffset, k, r.1))
    {
      NextStopIsFirst(d, c.lastoffset, s0, k);
      StopsIff(d, c.lastoffset, k, r);
    }
    if a.scan < |d.nbuf| {
      BestIs(d, a.scan, (a.pos, a.length));
      StopsIff(d, c.lastoffset, a.scan, (a.pos, a.length));
    } else if s0 < a.scan {
      BestIs(d, a.scan - 1, (a.pos, a.length));
    }
  }

  /** The triples from a cursor on, one stop at a time. */
  lemma TriplesFromFiles(d: Job, c: Cursor)
    requires Valid(d) && Resting(d, c)
    ensures c.scan == |d.nbuf| ==> Triples(d, c) == []
    ensures c.scan < |d.nbuf| ==>
              var a := Advance(d, c);
              Triples(d, c) ==
                if a.scan == |d.nbuf| || a.length >= Matches(d, a.scan + a.lastoffset, a.scan, a.length) + 9
                then [TripleAt(d, a)] + Triples(d, Emitted(d, a))
                else Triples(d, a)
  {
    hide Best, Matches, NextStop, IsSuffixArray, Stops, TripleAt, Emitted;
    if c.scan < |d.nbuf| {
      var a := Advance(d, c);
      AdvanceStops(d, c);
      if a.scan < |d.nbuf| {
        TriplePays(d, a);
      }
    }
  }

  lemma AdvanceStops(d: Job, c: Cursor)
    requires Resting(d, c) && c.scan < |d.nbuf|
    ensures var a := Advance(d, c); a.scan < |d.nbuf| ==> Stops(d, a.lastoffset, a.scan) && a.length == Best(d, a.scan).1
  {}

  lemma {:induction false} TripleBudget(d: Job, c: Cursor)
    requires Resting(d, c)
    ensures c.scan == |d.nbuf| ==> Triples(d, c) == []
    ensures c.scan < |d.nbuf| ==> 9 * |Triples(d, c)| <= |d.nbuf| - (c.scan + c.length) + 9
    decreases Distance(d, c)
  {
    hide TripleAt, Best, Stops, NextStop;
    if c.scan < |d.nbuf| {
      var a := Advance(d, c);
      AdvanceStops(d, c);
      if Emits(d, a) {
        TripleBudget(d, Emitted(d, a));
        if a.scan < |d.nbuf| {
          TriplePays(d, a);
        }
      } else {
        TripleBudget(d, a);
      }
    }
  }

  lemma StartRests(d: Job)
    requires Ready(d)
    ensures Resting(d, START)
  {}

  /** A new file of m bytes takes at most m/9 + 1 triples, and none if it is empty. */
  lemma TripleCount(d: Job)
    requires Ready(d)
    ensures Resting(d, START)
    ensures |d.nbuf| == 0 ==> Triples(d, START) == []
    ensures 0 < |d.nbuf| ==> 1 <= |Triples(d, START)| <= |d.nbuf| / 9 + 1
  {
    StartRests(d);
    TripleBudget(d, START);
    if 0 < |d.nbuf| {
      SomeTriple(d, START);
    }
  }

  lemma {:induction false} SomeTriple(d: Job, c: Cursor)
    requires Resting(d, c) && c.scan < |d.nbuf|
    ensures Triples(d, c) != []
    decreases Distance(d, c)
  {
    hide TripleAt, Best, Stops, NextStop;
    var a := Advance(d, c);
    if !Emits(d, a) {
      SomeTriple(d, a);
    }
  }

  // ---- The blocks ------------------------------------------------------------------------------------

  /** The planned diff and extra blocks together are as long as the new file, and fit the triples exactly. */
  lemma BlocksCover(d: Job)
    requires Ready(d)
    ensures Resting(d, START)
    ensures var ts := Triples(d, START);
            && AddSum(ts) + CopySum(ts) == |d.nbuf|
            && |DiffBytes(d, ts, 0, 0)| == AddSum(ts) && |ExtraBytes(d, ts, 0)| == CopySum(ts)
  {
    hide Triples, Run, DiffBytes, ExtraBytes, AddSum, CopySum, Fills, Step;
    StartRests(d);
    Simulation(d, START);
    var ts := Triples(d, START);
    var s := Replay(d, ts, 0, 0);
    var k := RunFinished(d.obuf, |d.nbuf|, s);
    RunFinishes(d.obuf, |d.nbuf|, s, k);
    FillsNonNegative(ts, k, |d.nbuf|);
    assert s.out == [];
    assert ts[..k] == ts;
  }

  // ---- Identical files ------------------------------------------------------------------------------

  lemma {:induction false} MatchesSelf(d: Job, n: nat)
    requires d.obuf == d.nbuf && n <= |d.nbuf|
    ensures Matches(d, 0, 0, n) == n
  {
    if n > 0 {
      MatchesSelf(d, n - 1);
    }
  }

  /** In a file compared with itself the best match at the start is the whole file, in place. */
  lemma WholeFileMatches(d: Job)
    requires Valid(d) && d.obuf == d.nbuf
    ensures Best(d, 0) == (0, |d.nbuf|) || d.nbuf == []
    ensures Best(d, 0).1 == |d.nbuf|
  {
    hide Best, IsSuffixArray;
    assert d.obuf[0..] == d.nbuf[0..] == d.nbuf;
    BestIsLongest(d, 0, 0);
    BestInside(d, 0);
    LcpUnique(d.nbuf, d.nbuf, |d.nbuf|);
  }

  /** Identical non-empty files give one triple that adds everything, with zero deltas and nothing to copy. */
  lemma IdenticalFiles(d: Job)
    requires Valid(d) && d.obuf == d.nbuf && d.nbuf != []
    ensures Resting(d, START)
    ensures var ts, n := Triples(d, START), |d.nbuf|;
            && ts == [Triple(n, 0, -n)]
            && DiffBytes(d, ts, 0, 0) == seq(n, i => 0)
            && ExtraBytes(d, ts, 0) == []
  {
    hide *;
    var n := |d.nbuf|;
    WholeFileStops(d);
    var a, b := Cursor(0, n, 0, 0, 0, 0), Cursor(n, n, 0, 0, 0, 0);
    WholeFileTriple(d, b);
    WholeFileBlocks(d);
    assert Triples(d, START) == Triples(d, a) == [TripleAt(d, b)];
  }

  /** The first stop has an aligned match and writes nothing; the second is the end and writes the only triple. */
  lemma WholeFileStops(d: Job)
    requires Valid(d) && d.obuf == d.nbuf && d.nbuf != []
    ensures var n := |d.nbuf|;
            var a, b := Cursor(0, n, 0, 0, 0, 0), Cursor(n, n, 0, 0, 0, 0);
            && Ready(d) && Resting(d, START) && Resting(d, a) && Stopped(d, b)
            && Triples(d, START) == Triples(d, a) == [TripleAt(d, b)]
  {
    var n := |d.nbuf|;
    StartRests(d);
    WholeFileMatches(d);
    MatchesSelf(d, n);
    hide Best, Matches, IsSuffixArray, IsPermutation, TripleAt;
    var a, b := Cursor(0, n, 0, 0, 0, 0), Cursor(n, n, 0, 0, 0, 0);
    assert Stops(d, 0, 0);
    assert Advance(d, START) == a && !Emits(d, a);
    assert Advance(d, a) == b && Emits(d, b);
    assert Triples(d, Emitted(d, b)) == [];
    assert Triples(d, a) == [TripleAt(d, b)] + Triples(d, Emitted(d, b));
  }

  lemma WholeFileTriple(d: Job, b: Cursor)
    requires Ready(d) && d.obuf == d.nbuf && b == Cursor(|d.nbuf|, |d.nbuf|, 0, 0, 0, 0)
    ensures Stopped(d, b) && TripleAt(d, b) == Triple(|d.nbuf|, 0, -|d.nbuf|)
  {
    hide Matches, MatchesBefore, Forward, Backward, FirstMax;
    WholeFileForward(d, b);
  }

  lemma WholeFileBlocks(d: Job)
    requires Ready(d) && d.obuf == d.nbuf
    ensures var ts, n := [Triple(|d.nbuf|, 0, -|d.nbuf|)], |d.nbuf|;
            DiffBytes(d, ts, 0, 0) == seq(n, i => 0) && ExtraBytes(d, ts, 0) == []
  {
    hide Deltas;
    ZeroDeltas(d);
    var ts := [Triple(|d.nbuf|, 0, -|d.nbuf|)];
    assert ts[1..] == [];
  }

  lemma WholeFileForward(d: Job, b: Cursor)
    requires Stopped(d, b) && d.obuf == d.nbuf && b == Cursor(|d.nbuf|, |d.nbuf|, 0, 0, 0, 0)
    ensures Forward(d, b) == |d.nbuf| && Backward(d, b) == 0
  {
    var g, n := ForwardGain(d, b), |d.nbuf|;
    MatchesSelf(d, n);
    MatchesSelf(d, Forward(d, b));
    hide Matches, MatchesBefore, FirstMax;
    assert ForwardRoom(d, b) == n && BackwardRoom(d, b) == 0;
    assert g(n) == n && g(Forward(d, b)) == Forward(d, b);
    FirstMaxIs(g, n);
    assert g(n) <= g(Forward(d, b));
  }

  lemma ZeroDeltas(d: Job)
    requires d.obuf == d.nbuf
    ensures Deltas(d, 0, 0, |d.nbuf|) == seq(|d.nbuf|, i => 0)
  {
    var ds, zs := Deltas(d, 0, 0, |d.nbuf|), seq(|d.nbuf|, i => 0);
    forall k | 0 <= k < |d.nbuf|
      ensures ds[k] == zs[k]
    {
      assert ds[k] == Delta(d, k, k);
    }
    assert ds == zs;
  }
}
