/** What the planned triples achieve. */
module Laws {
  import opened Lex
  import opened Interp
  import opened Plan

  // ---- Patching undoes diffing ------------------------------------------------------------

  /** Adding the old byte back to the delta gives the new byte. */
  lemma AddedDelta(d: Job, p: int64, q: int, n: int, i: int)
    requires 0 <= p && 0 <= q && 0 <= i < n && p + n <= |d.obuf| < TWO63 && q + n <= |d.nbuf|
    ensures |Added(d.obuf, p, Deltas(d, p, q, n))| == n
    ensures Added(d.obuf, p, Deltas(d, p, q, n))[i] == d.nbuf[q + i]
  {
    var diff := Deltas(d, p, q, n);
    assert diff[i] == Delta(d, p + i, q + i);
    WrapInRange(p + i);
    assert Added(d.obuf, p, diff)[i] == (diff[i] as int + OldByte(d.obuf, Wrap64(p + i))) % 256;
  }

  lemma AddedDeltas(d: Job, p: int64, q: int, n: int)
    requires 0 <= p && 0 <= q && 0 <= n && p + n <= |d.obuf| < TWO63 && q + n <= |d.nbuf|
    ensures Added(d.obuf, p, Deltas(d, p, q, n)) == d.nbuf[q..q + n]
  {
    hide Added, Deltas;
    if n == 0 {
      NoDeltas(d, p, q);
    } else {
      AddedDelta(d, p, q, n, 0);
    }
    forall i | 0 <= i < n
      ensures |Added(d.obuf, p, Deltas(d, p, q, n))| == n
      ensures Added(d.obuf, p, Deltas(d, p, q, n))[i] == d.nbuf[q + i]
    {
      AddedDelta(d, p, q, n, i);
    }
  }

  lemma NoDeltas(d: Job, p: int64, q: int)
    ensures Added(d.obuf, p, Deltas(d, p, q, 0)) == []
  {}

  /** The triple at a stop stays inside both files and leads to the next cursor. */
  lemma TripleInRange(d: Job, a: Cursor)
    requires Stopped(d, a)
    ensures Ready(d) && a.lastscan <= |d.nbuf|
    ensures var t, c := TripleAt(d, a), Emitted(d, a);
            && 0 <= t.add && 0 <= t.copy
            && a.lastpos + t.add <= |d.obuf| && a.lastscan + t.add + t.copy == c.lastscan <= |d.nbuf|
            && 0 <= a.lastpos + t.add + t.seek == c.lastpos <= |d.obuf|
  {}

  /** The streams of a triple followed by others. */
  lemma StreamsCons(d: Job, t: Triple, ts: seq<Triple>, p: int, q: int)
    ensures DiffBytes(d, [t] + ts, p, q) == Deltas(d, p, q, t.add) + DiffBytes(d, ts, p + t.add + t.seek, q + t.add + t.copy)
    ensures ExtraBytes(d, [t] + ts, q) == Piece(d.nbuf, q + t.add, t.copy) + ExtraBytes(d, ts, q + t.add + t.copy)
    ensures 0 <= t.add ==> |Deltas(d, p, q, t.add)| == t.add
  {
    assert ([t] + ts)[1..] == ts;
  }

  /** Interpreting one triple with its own diff and extra bytes in front of the streams. */
  lemma StepFirst(obuf: seq<byte>, size: int64, t: Triple, ts: seq<Triple>, diff: seq<byte>, diffs: seq<byte>,
                  extra: seq<byte>, extras: seq<byte>, p: int64, out: seq<byte>)
    requires |out| < size && |diff| == t.add && |extra| == t.copy && |out| + t.add + t.copy <= size
    ensures Step(obuf, size, State(Tape([t] + ts, diff + diffs, extra + extras), p, out))
            == Next(State(Tape(ts, diffs, extras), Wrap64(Wrap64(p + t.add) + t.seek), out + Added(obuf, p, diff) + extra))
  {
    hide Step, Added, Wrap64;
    var tape := Tape([t] + ts, diff + diffs, extra + extras);
    assert tape.ctrl[0] == t && tape.ctrl[1..] == ts;
    assert tape.diff[..t.add] == diff && tape.diff[t.add..] == diffs;
    assert tape.extra[..t.copy] == extra && tape.extra[t.copy..] == extras;
    StepIff(obuf, size, State(tape, p, out));
  }

  lemma PieceIs(s: seq<byte>, q: nat, n: nat)
    requires q + n <= |s|
    ensures Piece(s, q, n) == s[q..q + n]
  {}

  lemma PrefixPlusParts(s: seq<byte>, q: nat, m: nat, n: nat)
    requires q + m + n <= |s|
    ensures s[..q] + s[q..q + m] + s[q + m..q + m + n] == s[..q + m + n]
  {}

  /** The interpreter when the differ has reached new position q, old position p, with triples ts to come. */
  function Replay(d: Job, ts: seq<Triple>, p: int64, q: nat): State
    requires q <= |d.nbuf|
  {
    State(Tape(ts, DiffBytes(d, ts, p, q), ExtraBytes(d, ts, q)), p, d.nbuf[..q])
  }

  lemma ReadySizes(d: Job)
    requires Ready(d)
    ensures |d.obuf| < TWO63 && |d.nbuf| < TWO63
  {}

  /** One planned triple, interpreted at the matching positions, produces the next part of the new file. */
  lemma ReplayStep(d: Job, a: Cursor, ts: seq<Triple>)
    requires Stopped(d, a) && a.lastscan < |d.nbuf|
    ensures Emitted(d, a).lastscan <= |d.nbuf|
    ensures Step(d.obuf, |d.nbuf|, Replay(d, [TripleAt(d, a)] + ts, a.lastpos, a.lastscan))
            == Next(Replay(d, ts, Emitted(d, a).lastpos, Emitted(d, a).lastscan))
  {
    hide *;
    TripleInRange(d, a);
    ReadySizes(d);
    TripleReplay(d, TripleAt(d, a), ts, a.lastpos, a.lastscan);
  }

  lemma TripleReplay(d: Job, t: Triple, ts: seq<Triple>, p: int64, q: nat)
    requires |d.obuf| < TWO63 && q < |d.nbuf| < TWO63
    requires 0 <= p && 0 <= t.add && 0 <= t.copy && p + t.add <= |d.obuf| && q + t.add + t.copy <= |d.nbuf|
    requires 0 <= p + t.add + t.seek <= |d.obuf|
    ensures Step(d.obuf, |d.nbuf|, Replay(d, [t] + ts, p, q))
            == Next(Replay(d, ts, p + t.add + t.seek, q + t.add + t.copy))
  {
    hide Step, Added, Wrap64, Deltas, DiffBytes, ExtraBytes, Piece;
    var diff, extra := Deltas(d, p, q, t.add), d.nbuf[q + t.add..q + t.add + t.copy];
    StreamsCons(d, t, ts, p, q);
    PieceIs(d.nbuf, q + t.add, t.copy);
    StepFirst(d.obuf, |d.nbuf|, t, ts, diff, DiffBytes(d, ts, p + t.add + t.seek, q + t.add + t.copy),
              extra, ExtraBytes(d, ts, q + t.add + t.copy), p, d.nbuf[..q]);
    AddedDeltas(d, p, q, t.add);
    PrefixPlusParts(d.nbuf, q, t.add, t.copy);
    WrapInRange(p + t.add);
    WrapInRange(p + t.add + t.seek);
  }

  /**
    Interpreting the planned streams from any cursor rebuilds the new file and reads all
    three streams to their end.
   */
  lemma {:induction false} Simulation(d: Job, c: Cursor)
    requires Resting(d, c)
    ensures c.lastpos <= |d.obuf| < TWO63 && c.lastscan <= |d.nbuf| < TWO63
    ensures Run(d.obuf, |d.nbuf|, Replay(d, Triples(d, c), c.lastpos, c.lastscan)) == Finished(d.nbuf, Tape([], [], []))
    decreases Distance(d, c)
  {
    hide Step, TripleAt, Emitted;
    if c.scan == |d.nbuf| {
      assert d.nbuf[..c.lastscan] == d.nbuf;
    } else {
      var a := Advance(d, c);
      if Emits(d, a) {
        Simulation(d, Emitted(d, a));
        ReplayStep(d, a, Triples(d, Emitted(d, a)));
      } else {
        Simulation(d, a);
      }
    }
  }
}
