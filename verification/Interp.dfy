/** A pure interpreter of control triples: what `Patch` computes from the three streams. */
module Interp {
  import opened Lex

  const TWO63 := 0x8000_0000_0000_0000
  const TWO64 := 0x1_0000_0000_0000_0000

  type int64 = x: int | -TWO63 <= x < TWO63

  /** The result of 64-bit signed arithmetic that gives x mathematically. */
  function Wrap64(x: int): int64
  {
    (x + TWO63) % TWO64 - TWO63
  }

  lemma WrapInRange(x: int)
    requires -TWO63 <= x < TWO63
    ensures Wrap64(x) == x
  {}

  /** The one 64-bit integer that differs from x by a multiple of 2^64. */
  lemma WrapIs(x: int, y: int64)
    ensures y == Wrap64(x) <==> (x - y) % TWO64 == 0
  {
    var k := (x + TWO63) / TWO64;
    assert x - Wrap64(x) == k * TWO64;
    if (x - y) % TWO64 == 0 {
      var m := (x - y) / TWO64;
      assert x - y == m * TWO64;
      assert (k - m) * TWO64 == y - Wrap64(x);
    }
  }

  /** Add bytes from the diff stream to old bytes, copy bytes from the extra stream, move in the old file. */
  datatype Triple = Triple(add: int64, copy: int64, seek: int64)

  /** What is still unread of the three streams. */
  datatype Tape = Tape(ctrl: seq<Triple>, diff: seq<byte>, extra: seq<byte>)

  /** Corrupt is ErrCorrupt, ReadFailed an error of the reader, Panic a slice bound out of range. */
  datatype Failure = Corrupt | ReadFailed | Panic

  /** Old bytes outside the old file count as 0. */
  function OldByte(obuf: seq<byte>, p: int): byte
  {
    if 0 <= p < |obuf| then obuf[p] else 0
  }

  /** The diff bytes plus the old bytes from p on. */
  function Added(obuf: seq<byte>, p: int64, diff: seq<byte>): (r: seq<byte>)
    ensures |r| == |diff|
  {
    seq(|diff|, i requires 0 <= i < |diff| => (diff[i] + OldByte(obuf, Wrap64(p + i))) % 256)
  }

  /** Diff bytes are added modulo 256 where the old file has a byte, and stay as they are outside it. */
  lemma AddedAt(obuf: seq<byte>, p: int64, diff: seq<byte>, i: nat)
    requires i < |diff|
    ensures var o := Wrap64(p + i);
            Added(obuf, p, diff)[i] == if 0 <= o < |obuf| then (diff[i] as int + obuf[o]) % 256 else diff[i]
  {
    hide Wrap64;
    assert Added(obuf, p, diff)[i] == (diff[i] as int + OldByte(obuf, Wrap64(p + i))) % 256;
  }

  /** Unread streams, position in the old file and output so far. */
  datatype State = State(tape: Tape, p: int64, out: seq<byte>)

  datatype StepResult = Next(state: State) | Stuck(why: Failure)

  /** Reads and executes one triple. */
  function Step(obuf: seq<byte>, size: int64, s: State): (r: StepResult)
    requires |s.out| < size
    ensures r.Next? ==> s.tape.ctrl != [] && r.state.tape.ctrl == s.tape.ctrl[1..]
    ensures r.Next? ==> s.out <= r.state.out && |r.state.out| <= size
  {
    if s.tape.ctrl == [] then Stuck(ReadFailed)
    else
      var c := s.tape.ctrl[0];
      var mid := Wrap64(|s.out| + c.add);
      if mid > size then Stuck(Corrupt)
      else if mid < |s.out| then Stuck(Panic)
      else if |s.tape.diff| < c.add then Stuck(Corrupt)
      else
        var end := Wrap64(mid + c.copy);
        if end > size then Stuck(Corrupt)
        else if end < mid then Stuck(Panic)
        else if |s.tape.extra| < c.copy then Stuck(Corrupt)
        else
          Next(State(Tape(s.tape.ctrl[1..], s.tape.diff[c.add..], s.tape.extra[c.copy..]),
                     Wrap64(Wrap64(s.p + c.add) + c.seek),
                     s.out + Added(obuf, s.p, s.tape.diff[..c.add]) + s.tape.extra[..c.copy]))
  }

  datatype Outcome = Finished(out: seq<byte>, rest: Tape) | Failed(why: Failure)

  /** Executes triples until the output has the given size. */
  function Run(obuf: seq<byte>, size: int64, s: State): (r: Outcome)
    requires |s.out| <= size
    ensures r.Finished? ==> |r.out| == size && s.out <= r.out
    decreases |s.tape.ctrl|
  {
    if |s.out| == size then Finished(s.out, s.tape)
    else
      match Step(obuf, size, s)
      case Stuck(why) => Failed(why)
      case Next(s') => Run(obuf, size, s')
  }

  /** A triple fits when its lengths are not negative, its bytes are there and the new file has room. */
  predicate TripleFits(size: int64, s: State)
  {
    && s.tape.ctrl != []
    && var c := s.tape.ctrl[0];
       && 0 <= c.add <= |s.tape.diff| && 0 <= c.copy <= |s.tape.extra|
       && |s.out| + c.add + c.copy <= size
  }

  /** The interpreter goes on exactly after a triple that fits. */
  lemma StepIff(obuf: seq<byte>, size: int64, s: State)
    requires |s.out| < size
    ensures Step(obuf, size, s).Next? <==> TripleFits(size, s)
    ensures TripleFits(size, s) ==>
              var c := s.tape.ctrl[0];
              Step(obuf, size, s) ==
              Next(State(Tape(s.tape.ctrl[1..], s.tape.diff[c.add..], s.tape.extra[c.copy..]),
                         Wrap64(Wrap64(s.p + c.add) + c.seek),
                         s.out + Added(obuf, s.p, s.tape.diff[..c.add]) + s.tape.extra[..c.copy]))
  {}

  // ---- When the interpreter succeeds --------------------------------------------------------

  function AddSum(ts: seq<Triple>): int
  {
    if ts == [] then 0 else ts[0].add + AddSum(ts[1..])
  }

  function CopySum(ts: seq<Triple>): int
  {
    if ts == [] then 0 else ts[0].copy + CopySum(ts[1..])
  }

  /** The first k triples have no negative lengths and fill exactly n bytes, not before the last of them. */
  predicate Fills(ts: seq<Triple>, k: nat, n: int)
    decreases k
  {
    if n <= 0 then n == 0 && k == 0
    else 0 < k <= |ts| && ts[0].add >= 0 && ts[0].copy >= 0 && Fills(ts[1..], k - 1, n - ts[0].add - ts[0].copy)
  }

  /** The streams hold enough for the first k triples, and these fill the new file. */
  predicate Suffices(t: Tape, k: nat, n: int)
  {
    k <= |t.ctrl| && Fills(t.ctrl, k, n) && AddSum(t.ctrl[..k]) <= |t.diff| && CopySum(t.ctrl[..k]) <= |t.extra|
  }

  ghost predicate Enough(t: Tape, n: int)
  {
    exists k: nat :: Suffices(t, k, n)
  }

  lemma {:induction false} FillsNonNegative(ts: seq<Triple>, k: nat, n: int)
    requires Fills(ts, k, n) && k <= |ts|
    ensures 0 <= AddSum(ts[..k]) && 0 <= CopySum(ts[..k]) && AddSum(ts[..k]) + CopySum(ts[..k]) == n
    decreases k
  {
    if n > 0 {
      FillsNonNegative(ts[1..], k - 1, n - ts[0].add - ts[0].copy);
      assert ts[..k][1..] == ts[1..][..k - 1];
    } else {
      assert ts[..k] == [];
    }
  }

  /** The number of triples that fill the new file is determined. */
  lemma {:induction false} FillsUnique(ts: seq<Triple>, k: nat, m: nat, n: int)
    requires Fills(ts, k, n) && Fills(ts, m, n)
    ensures k == m
    decreases k
  {
    if n > 0 {
      FillsUnique(ts[1..], k - 1, m - 1, n - ts[0].add - ts[0].copy);
    }
  }

  /** When the streams suffice, the interpreter fills the file and leaves what it did not need. */
  lemma {:induction false} RunFinishes(obuf: seq<byte>, size: int64, s: State, k: nat)
    requires |s.out| <= size && Suffices(s.tape, k, size - |s.out|)
    ensures var r, t := Run(obuf, size, s), s.tape;
            && 0 <= AddSum(t.ctrl[..k]) && 0 <= CopySum(t.ctrl[..k])
            && r.Finished?
            && r.rest == Tape(t.ctrl[k..], t.diff[AddSum(t.ctrl[..k])..], t.extra[CopySum(t.ctrl[..k])..])
    decreases k
  {
    hide Step, Wrap64, Added;
    var t := s.tape;
    FillsNonNegative(t.ctrl, k, size - |s.out|);
    if |s.out| < size {
      var c := t.ctrl[0];
      assert t.ctrl[..k][1..] == t.ctrl[1..][..k - 1];
      FillsNonNegative(t.ctrl[1..], k - 1, size - |s.out| - c.add - c.copy);
      StepIff(obuf, size, s);
      RunFinishes(obuf, size, Step(obuf, size, s).state, k - 1);
    } else {
      assert t.ctrl[..k] == [];
    }
  }

  /** When the interpreter finishes, the streams did suffice. */
  lemma {:induction false} RunFinished(obuf: seq<byte>, size: int64, s: State) returns (k: nat)
    requires |s.out| <= size && Run(obuf, size, s).Finished?
    ensures Suffices(s.tape, k, size - |s.out|)
    decreases |s.tape.ctrl|
  {
    hide Step, Wrap64, Added;
    if |s.out| == size {
      k := 0;
      assert s.tape.ctrl[..0] == [];
    } else {
      StepIff(obuf, size, s);
      var m := RunFinished(obuf, size, Step(obuf, size, s).state);
      k := m + 1;
      assert s.tape.ctrl[..k][1..] == s.tape.ctrl[1..][..m];
    }
  }

  /** The interpreter succeeds exactly on streams that suffice, whatever the old file is. */
  lemma RunSucceedsIff(obuf: seq<byte>, size: int64, s: State)
    requires |s.out| <= size
    ensures Run(obuf, size, s).Finished? <==> Enough(s.tape, size - |s.out|)
  {
    if Run(obuf, size, s).Finished? {
      var k := RunFinished(obuf, size, s);
    } else if Enough(s.tape, size - |s.out|) {
      var n := size - |s.out|;
      var k: nat :| Suffices(s.tape, k, n);
      RunFinishes(obuf, size, s, k);
    }
  }

  // ---- How the interpreter fails -----------------------------------------------------------

  /** How triple c fails when q bytes of the new file are written and so many stream bytes are left. */
  predicate TripleFails(c: Triple, q: int, size: int64, diffs: int, extras: int, why: Failure)
  {
    if c.add < 0 || q + c.add >= TWO63 then why == Panic
    else if q + c.add > size || c.add > diffs then why == Corrupt
    else if c.copy < 0 || q + c.add + c.copy >= TWO63 then why == Panic
    else (q + c.add + c.copy > size || c.copy > extras) && why == Corrupt
  }

  /** After the first j triples the new file is not full, and there is no further triple or it fails. */
  ghost predicate FailsAt(t: Tape, done: int, size: int64, j: nat, why: Failure)
  {
    && j <= |t.ctrl| && (forall i :: 0 <= i < j ==> t.ctrl[i].add >= 0 && t.ctrl[i].copy >= 0)
    && var a, x := AddSum(t.ctrl[..j]), CopySum(t.ctrl[..j]);
       && a <= |t.diff| && x <= |t.extra| && done + a + x < size
       && if j == |t.ctrl| then why == ReadFailed
          else TripleFails(t.ctrl[j], done + a + x, size, |t.diff| - a, |t.extra| - x, why)
  }

  lemma StepFailsIff(obuf: seq<byte>, size: int64, s: State, why: Failure)
    requires |s.out| < size
    ensures Step(obuf, size, s) == Stuck(why) <==> FailsAt(s.tape, |s.out|, size, 0, why)
  {
    assert s.tape.ctrl[..0] == [];
  }

  lemma {:induction false} SumsNonNegative(ts: seq<Triple>)
    requires forall t :: t in ts ==> t.add >= 0 && t.copy >= 0
    ensures 0 <= AddSum(ts) && 0 <= CopySum(ts)
  {
    if ts != [] {
      SumsNonNegative(ts[1..]);
    }
  }

  /** Failing after j triples is failing j - 1 triples after the first one. */
  lemma FailsLater(obuf: seq<byte>, size: int64, s: State, j: nat, why: Failure)
    requires |s.out| < size && 0 < j
    ensures FailsAt(s.tape, |s.out|, size, j, why) ==> TripleFits(size, s)
    ensures TripleFits(size, s) ==>
              var s' := Step(obuf, size, s);
              && s'.Next?
              && (FailsAt(s.tape, |s.out|, size, j, why)
                  <==> FailsAt(s'.state.tape, |s'.state.out|, size, j - 1, why))
  {
    hide Wrap64, TripleFails;
    StepIff(obuf, size, s);
    hide Step;
    var ts := s.tape.ctrl;
    if 0 < j <= |ts| {
      SumsFirst(ts, j);
      if FailsAt(s.tape, |s.out|, size, j, why) {
        SumsNonNegative(ts[1..][..j - 1]);
      }
    }
  }

  lemma {:induction false} RunFailsAt(obuf: seq<byte>, size: int64, s: State, j: nat, why: Failure)
    requires |s.out| <= size && FailsAt(s.tape, |s.out|, size, j, why)
    ensures Run(obuf, size, s) == Failed(why)
    decreases j
  {
    hide Step, TripleFails;
    SumsNonNegative(s.tape.ctrl[..j]);
    if j == 0 {
      StepFailsIff(obuf, size, s, why);
    } else {
      FailsLater(obuf, size, s, j, why);
      RunFailsAt(obuf, size, Step(obuf, size, s).state, j - 1, why);
    }
  }

  lemma {:induction false} RunFailed(obuf: seq<byte>, size: int64, s: State) returns (j: nat)
    requires |s.out| <= size && Run(obuf, size, s).Failed?
    ensures FailsAt(s.tape, |s.out|, size, j, Run(obuf, size, s).why)
    decreases |s.tape.ctrl|
  {
    hide Step, TripleFails, FailsAt;
    var why := Run(obuf, size, s).why;
    var r := Step(obuf, size, s);
    if r.Stuck? {
      StepFailsIff(obuf, size, s, why);
      j := 0;
    } else {
      var m := RunFailed(obuf, size, r.state);
      j := m + 1;
      StepIff(obuf, size, s);
      FailsLater(obuf, size, s, j, why);
    }
  }

  /** The interpreter fails exactly as the first triple that is missing or does not fit demands. */
  lemma RunFailsIff(obuf: seq<byte>, size: int64, s: State, why: Failure)
    requires |s.out| <= size
    ensures Run(obuf, size, s) == Failed(why) <==> exists j: nat :: FailsAt(s.tape, |s.out|, size, j, why)
  {
    hide Run, FailsAt;
    if Run(obuf, size, s) == Failed(why) {
      var j := RunFailed(obuf, size, s);
    } else {
      forall j: nat | FailsAt(s.tape, |s.out|, size, j, why)
        ensures false
      {
        RunFailsAt(obuf, size, s, j, why);
      }
    }
  }

  // ---- What a finished output contains --------------------------------------------------------

  function SeekSum(ts: seq<Triple>): int
  {
    if ts == [] then 0 else ts[0].seek + SeekSum(ts[1..])
  }

  lemma WrapSum(x: int, y: int)
    ensures Wrap64(Wrap64(x) + y) == Wrap64(x + y)
  {
    var k := (x + TWO63) / TWO64;
    assert Wrap64(x) == x - k * TWO64;
    assert (x + y + TWO63 - k * TWO64) % TWO64 == (x + y + TWO63) % TWO64;
  }

  /** The sums over the first j triples, one triple at a time. */
  lemma SumsFirst(ts: seq<Triple>, j: nat)
    requires 0 < j <= |ts|
    ensures AddSum(ts[..j]) == ts[0].add + AddSum(ts[1..][..j - 1])
    ensures CopySum(ts[..j]) == ts[0].copy + CopySum(ts[1..][..j - 1])
    ensures SeekSum(ts[..j]) == ts[0].seek + SeekSum(ts[1..][..j - 1])
  {
    assert ts[..j][1..] == ts[1..][..j - 1];
  }

  /** Byte q + i of the output is diff byte a + i, plus old byte p + i modulo 256 if the old file has it. */
  predicate AddedByte(obuf: seq<byte>, out: seq<byte>, q: int, p: int64, diff: seq<byte>, a: int, i: int)
    requires 0 <= q + i < |out| && 0 <= a + i < |diff|
  {
    var o := Wrap64(p + i);
    out[q + i] == if 0 <= o < |obuf| then (diff[a + i] as int + obuf[o]) % 256 else diff[a + i]
  }

  /**
    At position q of the output, t has added diff bytes from a on to old bytes from p on, where the
    old file has these, and copied extra bytes from x on.
   */
  predicate Written(obuf: seq<byte>, out: seq<byte>, q: int, t: Triple, p: int64,
                    diff: seq<byte>, a: int, extra: seq<byte>, x: int)
  {
    && 0 <= q && 0 <= t.add && 0 <= t.copy && q + t.add + t.copy <= |out|
    && 0 <= a && a + t.add <= |diff| && 0 <= x && x + t.copy <= |extra|
    && (forall i :: 0 <= i < t.add ==> AddedByte(obuf, out, q, p, diff, a, i))
    && out[q + t.add..q + t.add + t.copy] == extra[x..x + t.copy]
  }

  lemma RunUnfold(obuf: seq<byte>, size: int64, s: State)
    requires |s.out| <= size
    ensures |s.out| == size ==> Run(obuf, size, s) == Finished(s.out, s.tape)
    ensures |s.out| < size ==>
              var r := Step(obuf, size, s);
              Run(obuf, size, s) == if r.Next? then Run(obuf, size, r.state) else Failed(r.why)
  {}

  /** The first triple of a run writes behind the output so far. */
  lemma FirstWritten(obuf: seq<byte>, size: int64, s: State)
    requires |s.out| < size && TripleFits(size, s) && Run(obuf, size, s).Finished?
    ensures Written(obuf, Run(obuf, size, s).out, |s.out|, s.tape.ctrl[0], s.p, s.tape.diff, 0, s.tape.extra, 0)
  {
    hide Step, Run, Added, Wrap64, AddedByte;
    StepIff(obuf, size, s);
    RunUnfold(obuf, size, s);
    var c := s.tape.ctrl[0];
    var s' := Step(obuf, size, s).state;
    var out, q := Run(obuf, size, s).out, |s.out|;
    var added := Added(obuf, s.p, s.tape.diff[..c.add]);
    assert s'.out <= out;
    assert out[q..q + c.add] == added by {
      assert s'.out[q..q + c.add] == added;
    }
    forall i | 0 <= i < c.add
      ensures AddedByte(obuf, out, q, s.p, s.tape.diff, 0, i)
    {
      assert out[q + i] == added[i];
      FirstByte(obuf, out, q, s.p, s.tape.diff, c.add, i);
    }
    assert out[q + c.add..q + c.add + c.copy] == s'.out[q + c.add..];
  }

  lemma FirstByte(obuf: seq<byte>, out: seq<byte>, q: nat, p: int64, diff: seq<byte>, n: nat, i: nat)
    requires n <= |diff| && i < n && q + i < |out|
    requires out[q + i] == Added(obuf, p, diff[..n])[i]
    ensures AddedByte(obuf, out, q, p, diff, 0, i)
  {
    AddedAt(obuf, p, diff[..n], i);
  }

  /** Streams that suffice for k triples suffice for the other k - 1 after the first. */
  lemma SufficesStep(obuf: seq<byte>, size: int64, s: State, k: nat)
    requires |s.out| <= size && 0 < k && Suffices(s.tape, k, size - |s.out|)
    ensures |s.out| < size && TripleFits(size, s) && Step(obuf, size, s).Next?
    ensures var s' := Step(obuf, size, s).state; Suffices(s'.tape, k - 1, size - |s'.out|)
    ensures Run(obuf, size, s) == Run(obuf, size, Step(obuf, size, s).state)
  {
    var ts, c := s.tape.ctrl, s.tape.ctrl[0];
    FillsNonNegative(ts[1..], k - 1, size - |s.out| - c.add - c.copy);
    SumsFirst(ts, k);
    StepIff(obuf, size, s);
    hide Step;
  }

  lemma SliceOfDrop(s: seq<byte>, m: nat, lo: nat, hi: nat)
    requires lo <= hi && m + hi <= |s|
    ensures s[m..][lo..hi] == s[m + lo..m + hi]
  {}

  /** What is written from streams whose first bytes are already read is written from the whole streams. */
  lemma WrittenLater(obuf: seq<byte>, out: seq<byte>, t: Triple, tape: Tape, c: Triple, q: int, p: int64, a: int, x: int)
    requires 0 <= c.add <= |tape.diff| && 0 <= c.copy <= |tape.extra|
    requires Written(obuf, out, q, t, p, tape.diff[c.add..], a, tape.extra[c.copy..], x)
    ensures Written(obuf, out, q, t, p, tape.diff, c.add + a, tape.extra, c.copy + x)
  {
    hide Wrap64;
    var b := c.add + a;
    forall i | 0 <= i < t.add
      ensures AddedByte(obuf, out, q, p, tape.diff, b, i)
    {
      assert AddedByte(obuf, out, q, p, tape.diff[c.add..], a, i);
    }
    SliceOfDrop(tape.extra, c.copy, x, x + t.copy);
  }

  /**
    The meaning of the format: the j-th triple adds its next diff bytes to the old bytes at
    the position that all earlier triples moved to, and then copies its next extra bytes.
   */
  lemma {:induction false} RunMeaning(obuf: seq<byte>, size: int64, s: State, k: nat, j: nat)
    requires |s.out| <= size && Suffices(s.tape, k, size - |s.out|) && j < k
    ensures var r, t := Run(obuf, size, s), s.tape;
            var a, x := AddSum(t.ctrl[..j]), CopySum(t.ctrl[..j]);
            && r.Finished?
            && Written(obuf, r.out, |s.out| + a + x, t.ctrl[j], Wrap64(s.p + (a + SeekSum(t.ctrl[..j]))),
                       t.diff, a, t.extra, x)
    decreases j
  {
    hide Step, Run, Added, Wrap64, AddSum, CopySum, SeekSum, Written, Fills;
    SufficesStep(obuf, size, s, k);
    RunFinishes(obuf, size, s, k);
    StepIff(obuf, size, s);
    var t, s' := s.tape, Step(obuf, size, s).state;
    var c := t.ctrl[0];
    if j == 0 {
      FirstWritten(obuf, size, s);
      NoSums(t.ctrl);
      WrapInRange(s.p);
    } else {
      RunMeaning(obuf, size, s', k - 1, j - 1);
      SumsFirst(t.ctrl, j);
      var a, x := AddSum(s'.tape.ctrl[..j - 1]), CopySum(s'.tape.ctrl[..j - 1]);
      var y := a + SeekSum(s'.tape.ctrl[..j - 1]);
      WrapSum(s.p + c.add, c.seek);
      WrapSum(s.p + c.add + c.seek, y);
      WrittenLater(obuf, Run(obuf, size, s).out, t.ctrl[j], t, c, |s'.out| + a + x, Wrap64(s'.p + y), a, x);
    }
  }

  lemma NoSums(ts: seq<Triple>)
    ensures AddSum(ts[..0]) == CopySum(ts[..0]) == SeekSum(ts[..0]) == 0
  {}

  /** Of a new file out: the j-th triple has written its bytes behind those of the earlier ones. */
  ghost predicate WrittenAt(obuf: seq<byte>, t: Tape, out: seq<byte>, j: nat)
    requires j < |t.ctrl|
  {
    var a, x := AddSum(t.ctrl[..j]), CopySum(t.ctrl[..j]);
    Written(obuf, out, a + x, t.ctrl[j], Wrap64(a + SeekSum(t.ctrl[..j])), t.diff, a, t.extra, x)
  }

  /** The new file that the streams describe. */
  ghost predicate Rebuilds(obuf: seq<byte>, t: Tape, out: seq<byte>)
  {
    exists k: nat :: Suffices(t, k, |out|) && forall j: nat :: j < k ==> WrittenAt(obuf, t, out, j)
  }

  /** Two outputs of the same k triples agree on what the first j of them have written. */
  lemma {:induction false} WrittenOnce(obuf: seq<byte>, t: Tape, out: seq<byte>, out': seq<byte>, k: nat, j: nat)
    requires |out| == |out'| && Suffices(t, k, |out|) && j <= k
    requires forall i: nat :: i < k ==> WrittenAt(obuf, t, out, i) && WrittenAt(obuf, t, out', i)
    ensures var n := AddSum(t.ctrl[..j]) + CopySum(t.ctrl[..j]);
            0 <= n <= |out| && out[..n] == out'[..n]
  {
    hide Wrap64, Fills, AddSum, CopySum, SeekSum;
    if j == 0 {
      NoSums(t.ctrl);
    } else {
      var i := j - 1;
      WrittenOnce(obuf, t, out, out', k, i);
      SumsLast(t.ctrl, i);
      assert WrittenAt(obuf, t, out, i) && WrittenAt(obuf, t, out', i);
      var c, q := t.ctrl[i], AddSum(t.ctrl[..i]) + CopySum(t.ctrl[..i]);
      var added, added' := out[q..q + c.add], out'[q..q + c.add];
      forall m | 0 <= m < c.add
        ensures added[m] == added'[m]
      {
        var a, p := AddSum(t.ctrl[..i]), Wrap64(AddSum(t.ctrl[..i]) + SeekSum(t.ctrl[..i]));
        assert AddedByte(obuf, out, q, p, t.diff, a, m) && AddedByte(obuf, out', q, p, t.diff, a, m);
      }
      assert added == added';
      var n := q + c.add + c.copy;
      assert out[..n] == out[..q] + out[q..q + c.add] + out[q + c.add..n];
      assert out'[..n] == out'[..q] + out'[q..q + c.add] + out'[q + c.add..n];
    }
  }

  lemma {:induction false} SumsLast(ts: seq<Triple>, j: nat)
    requires j < |ts|
    ensures AddSum(ts[..j + 1]) == AddSum(ts[..j]) + ts[j].add
    ensures CopySum(ts[..j + 1]) == CopySum(ts[..j]) + ts[j].copy
  {
    SumsFirst(ts, j + 1);
    if j == 0 {
      NoSums(ts);
      NoSums(ts[1..]);
    } else {
      SumsFirst(ts, j);
      SumsLast(ts[1..], j - 1);
    }
  }

  /** The streams describe at most one new file of a given size. */
  lemma RebuildsUnique(obuf: seq<byte>, t: Tape, out: seq<byte>, out': seq<byte>)
    requires |out| == |out'| && Rebuilds(obuf, t, out) && Rebuilds(obuf, t, out')
    ensures out == out'
  {
    hide AddSum, CopySum, Fills, WrittenAt;
    var n := |out|;
    var k: nat :| Suffices(t, k, n) && forall j: nat :: j < k ==> WrittenAt(obuf, t, out, j);
    var k': nat :| Suffices(t, k', n) && forall j: nat :: j < k' ==> WrittenAt(obuf, t, out', j);
    FillsUnique(t.ctrl, k, k', n);
    WrittenOnce(obuf, t, out, out', k, k);
    FillsNonNegative(t.ctrl, k, n);
    assert out[..n] == out && out'[..n] == out';
  }

  lemma RebuildsEnough(obuf: seq<byte>, t: Tape, out: seq<byte>)
    ensures Rebuilds(obuf, t, out) ==> Enough(t, |out|)
  {}

  /** From the start, the interpreter gives the new file that the streams describe, or none if there is none. */
  lemma RunRebuilds(obuf: seq<byte>, size: int64, t: Tape, out: seq<byte>)
    requires 0 <= size
    ensures var r := Run(obuf, size, State(t, 0, []));
            r.Finished? && r.out == out <==> |out| == size && Rebuilds(obuf, t, out)
    ensures Enough(t, size) <==> Run(obuf, size, State(t, 0, [])).Finished?
  {
    hide Run, AddSum, CopySum, SeekSum, Fills, Wrap64, Written;
    var s := State(t, 0, []);
    var r := Run(obuf, size, s);
    RunSucceedsIff(obuf, size, s);
    if r.Finished? {
      var k := RunFinished(obuf, size, s);
      forall j: nat | j < k
        ensures WrittenAt(obuf, t, r.out, j)
      {
        RunMeaning(obuf, size, s, k, j);
      }
      assert Rebuilds(obuf, t, r.out);
      if |out| == size && Rebuilds(obuf, t, out) {
        RebuildsUnique(obuf, t, out, r.out);
      }
    } else {
      RebuildsEnough(obuf, t, out);
    }
  }
}
