/**
  What `diff` is meant to compute, without its incremental bookkeeping: where the scan
  stops, how far matches are extended, where overlaps are cut, and which triples result.
 */
module Plan {
  import opened Lex
  import opened Ranking
  import opened Search
  import opened Interp

  // ---- Choosing a length --------------------------------------------------------------

  /** The smallest argument in 0..hi at which g is largest. */
  function FirstMax(g: nat -> int, hi: nat): (b: nat)
    ensures b <= hi
  {
    if hi == 0 then 0
    else
      var b := FirstMax(g, hi - 1);
      if g(hi) > g(b) then hi else b
  }

  /** Of 0..hi, b is the smallest argument at which g is largest. */
  ghost predicate IsFirstMax(g: nat -> int, hi: nat, b: nat)
  {
    && b <= hi
    && (forall i: nat :: i <= hi ==> g(i) <= g(b))
    && (forall i: nat :: i < b ==> g(i) < g(b))
  }

  lemma {:induction false} FirstMaxIs(g: nat -> int, hi: nat)
    ensures IsFirstMax(g, hi, FirstMax(g, hi))
  {
    if hi > 0 {
      FirstMaxIs(g, hi - 1);
    }
  }

  // ---- The inputs -----------------------------------------------------------------------

  /** The two files and the suffix array of the old one. */
  datatype Job = Job(obuf: seq<byte>, nbuf: seq<byte>, I: seq<int>)

  ghost predicate Valid(d: Job)
  {
    Ready(d) && IsSuffixArray(d.obuf, d.I)
  }

  /** The files have lengths that fit an int64, and I lists the positions of the old file. */
  predicate Ready(d: Job)
  {
    |d.obuf| < TWO63 && |d.nbuf| < TWO63 && |d.I| == |d.obuf| + 1 && IsPermutation(d.I)
  }

  /** Position p of the old file and position q of the new file exist and hold the same byte. */
  predicate Same(d: Job, p: int, q: int)
  {
    0 <= p < |d.obuf| && 0 <= q < |d.nbuf| && d.obuf[p] == d.nbuf[q]
  }

  /** How many of the n byte pairs from (p, q) on agree. */
  function Matches(d: Job, p: int, q: int, n: nat): nat
  {
    if n == 0 then 0 else Matches(d, p, q, n - 1) + if Same(d, p + n - 1, q + n - 1) then 1 else 0
  }

  /** How many of the n byte pairs before (p, q) agree. */
  function MatchesBefore(d: Job, p: int, q: int, n: nat): nat
  {
    if n == 0 then 0 else MatchesBefore(d, p, q, n - 1) + if Same(d, p - n, q - n) then 1 else 0
  }

  /** The match that `search` finds for the new file from s on: its position and length. */
  function Best(d: Job, s: nat): (r: (nat, nat))
    requires Ready(d) && s <= |d.nbuf|
    ensures r.0 + r.1 <= |d.obuf| && s + r.1 <= |d.nbuf|
  {
    Find(d.I, d.obuf, d.nbuf[s..], 0, |d.obuf|)
  }

  // ---- The scan ---------------------------------------------------------------------------

  /**
    The state of the differ between two steps: the scan position, length and position of
    the match found there, and the point up to which triples have been written.
   */
  datatype Cursor = Cursor(scan: nat, length: nat, pos: nat, lastscan: nat, lastpos: nat, lastoffset: int)

  const START := Cursor(0, 0, 0, 0, 0, 0)

  /** The scan stops where the best match is already aligned, or beats the alignment by more than 8. */
  predicate Stops(d: Job, offset: int, s: nat)
    requires Ready(d) && s < |d.nbuf|
  {
    var length := Best(d, s).1;
    var score := Matches(d, s + offset, s, length);
    (length == score && length != 0) || length > score + 8
  }

  /** The first position from s on where the scan stops, or the end of the new file. */
  function NextStop(d: Job, offset: int, s: nat): (r: nat)
    requires Ready(d) && s <= |d.nbuf|
    ensures s <= r <= |d.nbuf|
    ensures r < |d.nbuf| ==> Stops(d, offset, r)
    decreases |d.nbuf| - s
  {
    if s == |d.nbuf| || Stops(d, offset, s) then s else NextStop(d, offset, s + 1)
  }

  /** No earlier position is a stop. */
  lemma {:induction false} NextStopIsFirst(d: Job, offset: int, s: nat, k: nat)
    requires Ready(d) && s <= |d.nbuf| && s <= k < NextStop(d, offset, s)
    ensures k < |d.nbuf| && !Stops(d, offset, k)
    decreases |d.nbuf| - s
  {
    hide Best, Matches;
    if k > s {
      NextStopIsFirst(d, offset, s + 1, k);
    }
  }

  /** A cursor at the head of the outer loop. */
  predicate Resting(d: Job, c: Cursor)
  {
    && Ready(d)
    && c.scan <= |d.nbuf|
    && (c.scan < |d.nbuf| ==> c.scan + c.length <= |d.nbuf|)
    && (c.scan == |d.nbuf| ==> c.lastscan == |d.nbuf|)
    && c.lastscan <= c.scan && c.lastpos <= |d.obuf| && c.pos <= |d.obuf|
    && c.lastoffset == c.lastpos - c.lastscan
  }

  /** A cursor where the inner loop has stopped. */
  predicate Stopped(d: Job, c: Cursor)
  {
    && Ready(d)
    && c.scan <= |d.nbuf|
    && (c.scan < |d.nbuf| ==> 0 < c.length && c.scan + c.length <= |d.nbuf|)
    && c.lastscan <= c.scan && c.lastpos <= |d.obuf| && c.pos <= |d.obuf|
    && c.lastoffset == c.lastpos - c.lastscan
  }

  /**
    Skips the last match and scans on. At the end of the new file position and length are
    those of the last search that was made.
   */
  function Advance(d: Job, c: Cursor): (a: Cursor)
    requires Resting(d, c) && c.scan < |d.nbuf|
    ensures Stopped(d, a) && c.scan + c.length <= a.scan
    ensures a.lastscan == c.lastscan && a.lastpos == c.lastpos && a.lastoffset == c.lastoffset
  {
    var s0 := c.scan + c.length;
    var s := NextStop(d, c.lastoffset, s0);
    if s < |d.nbuf| then c.(scan := s, pos := Best(d, s).0, length := Best(d, s).1)
    else if s0 < |d.nbuf| then c.(scan := s, pos := Best(d, s - 1).0, length := Best(d, s - 1).1)
    else c.(scan := s)
  }

  /** Whether a triple is written at a stop. */
  predicate Emits(d: Job, a: Cursor)
  {
    a.length != Matches(d, a.scan + a.lastoffset, a.scan, a.length) || a.scan == |d.nbuf|
  }

  // ---- Extending and cutting ----------------------------------------------------------------

  /** Twice the agreeing bytes minus the length, for i bytes forward from the last triple. */
  function ForwardGain(d: Job, a: Cursor): nat -> int
  {
    (i: nat) => 2 * Matches(d, a.lastpos, a.lastscan, i) - i
  }

  /** The same for i bytes backward from the match found. */
  function BackwardGain(d: Job, a: Cursor): nat -> int
  {
    (i: nat) => 2 * MatchesBefore(d, a.pos, a.scan, i) - i
  }

  function Min(a: int, b: int): int
  {
    if a < b then a else b
  }

  function ForwardRoom(d: Job, a: Cursor): (n: nat)
    requires Stopped(d, a)
  {
    Min(a.scan - a.lastscan, |d.obuf| - a.lastpos)
  }

  function BackwardRoom(d: Job, a: Cursor): (n: nat)
    requires Stopped(d, a)
  {
    if a.scan < |d.nbuf| then Min(a.scan - a.lastscan, a.pos) else 0
  }

  function Forward(d: Job, a: Cursor): (n: nat)
    requires Stopped(d, a)
    ensures n <= ForwardRoom(d, a)
  {
    FirstMax(ForwardGain(d, a), ForwardRoom(d, a))
  }

  function Backward(d: Job, a: Cursor): (n: nat)
    requires Stopped(d, a)
    ensures n <= BackwardRoom(d, a)
  {
    FirstMax(BackwardGain(d, a), BackwardRoom(d, a))
  }

  /** By how much the two extensions overlap. */
  function Overlap(d: Job, a: Cursor): (n: nat)
    requires Stopped(d, a)
    ensures n <= Forward(d, a) && n <= Backward(d, a)
  {
    var o := a.lastscan + Forward(d, a) - (a.scan - Backward(d, a));
    if o > 0 then o else 0
  }

  /** Agreeing bytes of the forward minus the backward alignment in the first i bytes of the overlap. */
  function CutGain(d: Job, a: Cursor): nat -> int
    requires Stopped(d, a)
  {
    var b := Backward(d, a);
    (i: nat) => Matches(d, a.scan - b + a.lastoffset, a.scan - b, i) - Matches(d, a.pos - b, a.scan - b, i)
  }

  /** How much of the overlap goes to the forward extension. */
  function CutPoint(d: Job, a: Cursor): (n: nat)
    requires Stopped(d, a)
    ensures n <= Overlap(d, a)
  {
    FirstMax(CutGain(d, a), Overlap(d, a))
  }

  // ---- The triples ----------------------------------------------------------------------------

  function TripleAt(d: Job, a: Cursor): (t: Triple)
    requires Stopped(d, a)
    ensures t.add >= 0 && t.copy >= 0
  {
    var lenf := Forward(d, a) - Overlap(d, a) + CutPoint(d, a);
    var lenb := Backward(d, a) - CutPoint(d, a);
    Triple(lenf, (a.scan - lenb) - (a.lastscan + lenf), (a.pos - lenb) - (a.lastpos + lenf))
  }

  /** The cursor after writing the triple. */
  function Emitted(d: Job, a: Cursor): (c: Cursor)
    requires Stopped(d, a)
    ensures Resting(d, c)
    ensures c.lastscan == a.lastscan + TripleAt(d, a).add + TripleAt(d, a).copy
    ensures c.lastpos == a.lastpos + TripleAt(d, a).add + TripleAt(d, a).seek
    ensures c.scan == a.scan && c.length == a.length && c.pos == a.pos
  {
    var lenb := Backward(d, a) - CutPoint(d, a);
    a.(lastscan := a.scan - lenb, lastpos := a.pos - lenb, lastoffset := a.pos - a.scan)
  }

  function Distance(d: Job, c: Cursor): nat
    requires Resting(d, c)
  {
    if c.scan < |d.nbuf| then |d.nbuf| - (c.scan + c.length) + 1 else 0
  }

  /** All triples from cursor c on. */
  function Triples(d: Job, c: Cursor): seq<Triple>
    requires Resting(d, c)
    decreases Distance(d, c)
  {
    if c.scan == |d.nbuf| then []
    else
      var a := Advance(d, c);
      if Emits(d, a) then [TripleAt(d, a)] + Triples(d, Emitted(d, a)) else Triples(d, a)
  }

  // ---- The diff and extra blocks ----------------------------------------------------------------

  /** New byte minus old byte, modulo 256. */
  function Delta(d: Job, p: int, q: int): byte
  {
    if 0 <= p < |d.obuf| && 0 <= q < |d.nbuf| then (d.nbuf[q] as int - d.obuf[p]) % 256 else 0
  }

  function Deltas(d: Job, p: int, q: int, n: int): seq<byte>
  {
    if n <= 0 then [] else seq<byte>(n, i => Delta(d, p + i, q + i))
  }

  /** The n bytes of s from q on. */
  function Piece(s: seq<byte>, q: int, n: int): seq<byte>
  {
    if 0 <= q && 0 <= n && q + n <= |s| then s[q..q + n] else []
  }

  /** The diff block of triples that start at old position p and new position q. */
  function DiffBytes(d: Job, ts: seq<Triple>, p: int, q: int): seq<byte>
  {
    if ts == [] then []
    else Deltas(d, p, q, ts[0].add) + DiffBytes(d, ts[1..], p + ts[0].add + ts[0].seek, q + ts[0].add + ts[0].copy)
  }

  /** The extra block of triples that start at new position q. */
  function ExtraBytes(d: Job, ts: seq<Triple>, q: int): seq<byte>
  {
    if ts == [] then []
    else Piece(d.nbuf, q + ts[0].add, ts[0].copy) + ExtraBytes(d, ts[1..], q + ts[0].add + ts[0].copy)
  }
}
