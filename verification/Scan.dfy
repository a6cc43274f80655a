/** The loops of `diff`, each proved against the plan. */
module Scanning {
  import opened Ranking
  import opened Plan
  import opened ScanLaws

  // ---- The inner scan loop ---------------------------------------------------------------

  /** The score of the window [s, e) at the last alignment; an inverted window scores 0. */
  function Score(d: Job, offset: int, s: int, e: int): nat
  {
    if s < e then Matches(d, s + offset, s, e - s) else 0
  }

  lemma ScoreGrows(d: Job, offset: int, s: int, e: int)
    requires s <= e
    ensures Score(d, offset, s, e + 1) == Score(d, offset, s, e) + if Same(d, e + offset, e) then 1 else 0
  {}

  lemma ScoreShrinks(d: Job, offset: int, s: int, e: int)
    requires s < e
    ensures Score(d, offset, s, e) == Score(d, offset, s + 1, e) + if Same(d, s + offset, s) then 1 else 0
  {
    MatchesSplit(d, s + offset, s, 1, e - s - 1);
    assert Matches(d, s + offset, s, 1) == if Same(d, s + offset, s) then 1 else 0;
  }

  /**
    What the scan keeps: the score counts the agreeing bytes between scan and scsc. Only
    after a match of length 0 does scsc lag behind, and then by a byte the old file lacks.
   */
  ghost predicate Scoring(d: Job, offset: int, start: nat, scan: nat, scsc: nat, oldscore: int)
  {
    && Valid(d) && start <= scan <= |d.nbuf| && start <= scsc <= |d.nbuf| && 0 <= start + offset
    && oldscore == Score(d, offset, scan, scsc)
    && (scan < |d.nbuf| ==> scsc <= scan + Best(d, scan).1)
    && (scsc < scan ==> scsc == scan - 1 && !Same(d, scsc + offset, scsc))
    && NextStop(d, offset, start) == NextStop(d, offset, scan)
  }

  lemma ScoringStart(d: Job, offset: int, start: nat)
    requires Valid(d) && start <= |d.nbuf| && 0 <= start + offset
    ensures Ready(d) && Scoring(d, offset, start, start, start, 0)
  {}

  lemma ScoringFacts(d: Job, offset: int, start: nat, scan: nat, scsc: nat, oldscore: int)
    requires Scoring(d, offset, start, scan, scsc, oldscore)
    ensures Valid(d) && Ready(d) && start <= scan <= |d.nbuf| && start <= scsc <= |d.nbuf| && 0 <= start + offset
    ensures oldscore == Score(d, offset, scan, scsc)
    ensures scan < |d.nbuf| ==> scsc <= scan + Best(d, scan).1 <= |d.nbuf|
    ensures scsc < scan ==> scsc == scan - 1 && !Same(d, scsc + offset, scsc)
    ensures NextStop(d, offset, start) == NextStop(d, offset, scan)
    ensures scan == |d.nbuf| ==> NextStop(d, offset, start) == scan
  {
    hide Best, Stops, IsSuffixArray;
    if scan < |d.nbuf| {
      BestInside(d, scan);
    }
  }

  lemma SameAt(d: Job, p: int, q: int)
    requires 0 <= p && 0 <= q < |d.nbuf|
    ensures Same(d, p, q) <==> p < |d.obuf| && d.obuf[p] == d.nbuf[q]
  {}

  lemma StopRule(d: Job, offset: int, s: nat)
    requires Ready(d) && s < |d.nbuf|
    ensures var length := Best(d, s).1; var score := Matches(d, s + offset, s, length);
            Stops(d, offset, s) <==> (length == score && length != 0) || length > score + 8
    ensures Stops(d, offset, s) ==> NextStop(d, offset, s) == s
    ensures !Stops(d, offset, s) ==> NextStop(d, offset, s) == NextStop(d, offset, s + 1)
  {
    hide Best, Matches;
  }

  lemma {:induction false} MatchesAtMost(d: Job, p: int, q: int, n: nat)
    ensures Matches(d, p, q, n) <= n
  {
    if n > 0 {
      MatchesAtMost(d, p, q, n - 1);
    }
  }

  lemma ScoreWindow(d: Job, offset: int, s: int, n: nat)
    ensures Score(d, offset, s, s + n) == Matches(d, s + offset, s, n) <= n
  {
    MatchesAtMost(d, s + offset, s, n);
  }

  /** One position further on without a stop. */
  lemma ScoringStep(d: Job, offset: int, start: nat, scan: nat, oldscore: int)
    requires Valid(d) && start <= scan < |d.nbuf| && 0 <= start + offset
    requires NextStop(d, offset, start) == NextStop(d, offset, scan) && !Stops(d, offset, scan)
    requires scan + Best(d, scan).1 <= |d.nbuf|
    requires oldscore == Score(d, offset, scan, scan + Best(d, scan).1)
    ensures Scoring(d, offset, start, scan + 1, scan + Best(d, scan).1,
                    oldscore - if Same(d, scan + offset, scan) then 1 else 0)
  {
    hide Best, Stops, Matches, IsSuffixArray;
    BestDropsByOne(d, scan);
    var l := Best(d, scan).1;
    if l == 0 {
      NoMatchNoByte(d, scan, scan + offset);
    } else {
      ScoreShrinks(d, offset, scan, scan + l);
    }
  }

  /** Scans from start on until the plan's next stop. */
  method ScanAhead(d: Job, offset: int, start: nat, pos0: nat, length0: nat)
    returns (scan: nat, pos: nat, length: nat, oldscore: int)
    requires Valid(d) && start <= |d.nbuf| && 0 <= start + offset
    ensures scan == NextStop(d, offset, start)
    ensures scan < |d.nbuf| ==> (pos, length) == Best(d, scan)
    ensures scan < |d.nbuf| ==> oldscore == Matches(d, scan + offset, scan, length) && 0 <= oldscore <= length
    ensures start < scan == |d.nbuf| ==> (pos, length) == Best(d, scan - 1)
    ensures start == |d.nbuf| ==> (pos, length) == (pos0, length0)
  {
    hide Best, Stops, Matches, NextStop, Valid, Same, Scoring;
    scan, pos, length, oldscore := start, pos0, length0, 0;
    var scsc: nat := start;
    ScoringStart(d, offset, start);
    while scan < |d.nbuf|
      invariant Scoring(d, offset, start, scan, scsc, oldscore)
      invariant Ready(d) && start <= scan <= |d.nbuf|
      invariant start < scan ==> (pos, length) == Best(d, scan - 1)
      invariant start == scan ==> (pos, length) == (pos0, length0)
    {
      ScoringFacts(d, offset, start, scan, scsc, oldscore);
      var best := Best(d, scan);
      pos, length := best.0, best.1;
      ghost var scsc0 := scsc;
      while scsc < scan + length
        invariant scsc0 <= scsc <= scan + length
        invariant oldscore == Score(d, offset, scan, scsc)
        invariant scsc < scan ==> scsc == scan - 1 && !Same(d, scsc + offset, scsc)
      {
        if scan <= scsc {
          ScoreGrows(d, offset, scan, scsc);
        }
        SameAt(d, scsc + offset, scsc);
        if scsc + offset < |d.obuf| && d.obuf[scsc + offset] == d.nbuf[scsc] {
          oldscore := oldscore + 1;
        }
        scsc := scsc + 1;
      }
      ScoreWindow(d, offset, scan, length);
      StopRule(d, offset, scan);
      if (length == oldscore && length != 0) || length > oldscore + 8 {
        return;
      }
      ScoringStep(d, offset, start, scan, oldscore);
      SameAt(d, scan + offset, scan);
      if scan + offset < |d.obuf| && d.obuf[scan + offset] == d.nbuf[scan] {
        oldscore := oldscore - 1;
      }
      scan := scan + 1;
    }
    ScoringFacts(d, offset, start, scan, scsc, oldscore);
  }

  // ---- The extensions ------------------------------------------------------------------------

  lemma GainsFacts(d: Job, a: Cursor, i: nat)
    ensures ForwardGain(d, a)(i) == 2 * Matches(d, a.lastpos, a.lastscan, i) - i
    ensures BackwardGain(d, a)(i) == 2 * MatchesBefore(d, a.pos, a.scan, i) - i
  {}

  lemma FirstMaxStep(g: nat -> int, i: nat)
    ensures FirstMax(g, 0) == 0
    ensures FirstMax(g, i + 1) == if g(i + 1) > g(FirstMax(g, i)) then i + 1 else FirstMax(g, i)
  {}

  lemma MatchesStep(d: Job, p: int, q: int, i: nat)
    ensures Matches(d, p, q, 0) == 0 && MatchesBefore(d, p, q, 0) == 0
    ensures Matches(d, p, q, i + 1) == Matches(d, p, q, i) + if Same(d, p + i, q + i) then 1 else 0
    ensures MatchesBefore(d, p, q, i + 1) == MatchesBefore(d, p, q, i) + if Same(d, p - (i + 1), q - (i + 1)) then 1 else 0
  {}

  /** Extends the old alignment forward from the last triple. */
  method ExtendForward(d: Job, a: Cursor) returns (lenf: nat)
    requires Stopped(d, a)
    ensures lenf == Forward(d, a) && IsForward(d, a, lenf)
  {
    hide Matches, MatchesBefore, FirstMax, ForwardGain, BackwardGain, Same, IsForward, IsBackward;
    ghost var g := ForwardGain(d, a);
    lenf := 0;
    var s: int, Sf: int := 0, 0;
    var i: nat := 0;
    MatchesStep(d, a.lastpos, a.lastscan, 0);
    FirstMaxStep(g, 0);
    while a.lastscan + i < a.scan && a.lastpos + i < |d.obuf|
      invariant i <= ForwardRoom(d, a)
      invariant s == Matches(d, a.lastpos, a.lastscan, i)
      invariant lenf == FirstMax(g, i) && Sf == Matches(d, a.lastpos, a.lastscan, lenf)
    {
      MatchesStep(d, a.lastpos, a.lastscan, i);
      FirstMaxStep(g, i);
      GainsFacts(d, a, i + 1);
      GainsFacts(d, a, lenf);
      SameAt(d, a.lastpos + i, a.lastscan + i);
      if d.obuf[a.lastpos + i] == d.nbuf[a.lastscan + i] {
        s := s + 1;
      }
      i := i + 1;
      if s * 2 - i > Sf * 2 - lenf {
        Sf := s;
        lenf := i;
      }
    }
    ExtensionsAreBest(d, a, lenf);
  }

  lemma BackwardIs(d: Job, a: Cursor)
    requires Stopped(d, a)
    ensures Backward(d, a) == FirstMax(BackwardGain(d, a), BackwardRoom(d, a))
    ensures a.lastscan <= a.scan <= |d.nbuf| && a.pos <= |d.obuf|
    ensures a.scan == |d.nbuf| ==> BackwardRoom(d, a) == 0
    ensures a.scan < |d.nbuf| ==> BackwardRoom(d, a) == if a.scan - a.lastscan < a.pos then a.scan - a.lastscan else a.pos
  {}

  /** Extends the match found backward from the scan position. */
  method ExtendBackward(d: Job, a: Cursor) returns (lenb: nat)
    requires Stopped(d, a)
    ensures lenb == Backward(d, a) && IsBackward(d, a, lenb)
  {
    hide *;
    ghost var g, room := BackwardGain(d, a), BackwardRoom(d, a);
    BackwardIs(d, a);
    lenb := 0;
    FirstMaxStep(g, 0);
    if a.scan < |d.nbuf| {
      var s: int, Sb: int := 0, 0;
      var i: nat := 1;
      MatchesStep(d, a.pos, a.scan, 0);
      while a.scan >= a.lastscan + i && a.pos >= i
        invariant 1 <= i <= room + 1
        invariant s == MatchesBefore(d, a.pos, a.scan, i - 1)
        invariant lenb == FirstMax(g, i - 1) && Sb == MatchesBefore(d, a.pos, a.scan, lenb)
      {
        ghost var j: nat := i - 1;
        MatchesStep(d, a.pos, a.scan, j);
        FirstMaxStep(g, j);
        GainsFacts(d, a, j + 1);
        GainsFacts(d, a, lenb);
        SameAt(d, a.pos - i, a.scan - i);
        if d.obuf[a.pos - i] == d.nbuf[a.scan - i] {
          s := s + 1;
        }
        if s * 2 - i > Sb * 2 - lenb {
          Sb := s;
          lenb := i;
        }
        i := i + 1;
      }
    }
    ExtensionsAreBest(d, a, lenb);
  }

  lemma CutGainFacts(d: Job, a: Cursor, i: nat)
    requires Stopped(d, a)
    ensures CutGain(d, a)(i) == Matches(d, a.scan - Backward(d, a) + a.lastoffset, a.scan - Backward(d, a), i)
                                - Matches(d, a.pos - Backward(d, a), a.scan - Backward(d, a), i)
  {}

  /** Where both extensions overlap, finds how much goes to the forward one. */
  method CutOverlap(d: Job, a: Cursor, lenf: nat, lenb: nat, overlap: nat) returns (lens: nat)
    requires Stopped(d, a) && lenf == Forward(d, a) && lenb == Backward(d, a)
    requires overlap == Overlap(d, a) == a.lastscan + lenf - (a.scan - lenb)
    ensures lens == CutPoint(d, a) && IsCut(d, a, lenf, lenb, lens)
  {
    hide Matches, MatchesBefore, FirstMax, CutGain, Same, Forward, Backward, Overlap, IsCut;
    ghost var g := CutGain(d, a);
    ghost var p, q, r := a.scan - lenb + a.lastoffset, a.scan - lenb, a.pos - lenb;
    var s: int, Ss: int := 0, 0;
    lens := 0;
    MatchesStep(d, p, q, 0);
    MatchesStep(d, r, q, 0);
    CutGainFacts(d, a, 0);
    FirstMaxStep(g, 0);
    for i := 0 to overlap
      invariant s == g(i)
      invariant lens == FirstMax(g, i) && Ss == g(lens)
    {
      MatchesStep(d, p, q, i);
      MatchesStep(d, r, q, i);
      CutGainFacts(d, a, i);
      CutGainFacts(d, a, i + 1);
      FirstMaxStep(g, i);
      SameAt(d, p + i, q + i);
      SameAt(d, r + i, q + i);
      if d.nbuf[a.lastscan + lenf - overlap + i] == d.obuf[a.lastpos + lenf - overlap + i] {
        s := s + 1;
      }
      if d.nbuf[a.scan - lenb + i] == d.obuf[a.pos - lenb + i] {
        s := s - 1;
      }
      if s > Ss {
        Ss := s;
        lens := i + 1;
      }
    }
    CutIsBest(d, a, lens);
  }
}
