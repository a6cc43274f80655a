/** `Patch`: rebuilds the new file from the old one and a patch. */
module Patching {
  import opened Lex
  import opened Interp
  import opened Encoding
  import opened Container

  datatype Result = Ok(bytes: seq<byte>) | Err(why: Failure)

  function ResultOf(o: Outcome): Result
  {
    match o
    case Finished(out, _) => Ok(out)
    case Failed(why) => Err(why)
  }

  /**
    What applying a patch gives. U(s) is what the bzip2 reader delivers from s before it
    stops, be it at the end of the stream or at an error.
   */
  function PatchBytes(obuf: seq<byte>, patch: seq<byte>, U: seq<byte> -> seq<byte>): Result
  {
    match Parse(patch)
    case Unreadable(why) => Err(why)
    case Blocks(size, ctrl, diff, extra) =>
      ResultOf(Run(obuf, size, State(Tape(DecodeTriples(U(ctrl)), U(diff), U(extra)), 0, [])))
  }

  /** Reads n bytes of the stream from position at into nbuf, or nothing when it is too short. */
  method ReadFull(nbuf: array<byte>, lo: nat, n: nat, stream: seq<byte>, at: nat) returns (ok: bool)
    requires lo + n <= nbuf.Length && at <= |stream|
    modifies nbuf
    ensures ok <==> n <= |stream| - at
    ensures ok ==> nbuf[..lo + n] == old(nbuf[..lo]) + stream[at..at + n]
    ensures !ok ==> nbuf[..] == old(nbuf[..])
  {
    ok := n <= |stream| - at;
    if ok {
      forall i | 0 <= i < n {
        nbuf[lo + i] := stream[at + i];
      }
      assert nbuf[..lo + n] == nbuf[..lo] + nbuf[lo..lo + n];
    }
  }

  /** Adds old bytes from oldpos on to the n bytes of nbuf from newpos on. */
  method AddOld(nbuf: array<byte>, newpos: nat, n: nat, obuf: seq<byte>, oldpos: int64)
    requires newpos + n <= nbuf.Length
    modifies nbuf
    ensures nbuf[..newpos] == old(nbuf[..newpos]) && nbuf[newpos + n..] == old(nbuf[newpos + n..])
    ensures forall k :: newpos <= k < newpos + n ==>
              var o := Wrap64(oldpos + (k - newpos));
              nbuf[k] == if 0 <= o < |obuf| then (old(nbuf[k]) as int + obuf[o]) % 256 else old(nbuf[k])
    ensures nbuf[newpos..newpos + n] == Added(obuf, oldpos, old(nbuf[newpos..newpos + n]))
  {
    hide Added, Wrap64;
    ghost var diff := nbuf[newpos..newpos + n];
    var i := 0;
    while i < n
      invariant 0 <= i <= n
      invariant nbuf[..newpos] == old(nbuf[..newpos]) && nbuf[newpos + n..] == old(nbuf[newpos + n..])
      invariant forall k :: 0 <= k < i ==> nbuf[newpos + k] == Added(obuf, oldpos, diff)[k]
      invariant forall k :: i <= k < n ==> nbuf[newpos + k] == diff[k]
    {
      AddedAt(obuf, oldpos, diff, i);
      if 0 <= Wrap64(oldpos + i) < |obuf| {
        nbuf[newpos + i] := (nbuf[newpos + i] as int + obuf[Wrap64(oldpos + i)]) % 256;
      }
      i := i + 1;
    }
    assert nbuf[newpos..newpos + n] == Added(obuf, oldpos, diff);
    forall k | newpos <= k < newpos + n
      ensures var o := Wrap64(oldpos + (k - newpos));
              nbuf[k] == if 0 <= o < |obuf| then (old(nbuf[k]) as int + obuf[o]) % 256 else old(nbuf[k])
    {
      AddedAt(obuf, oldpos, diff, k - newpos);
      assert nbuf[newpos + (k - newpos)] == Added(obuf, oldpos, diff)[k - newpos];
    }
  }

  /** The interpreter state when the streams have been read up to the given positions. */
  function StateAt(cs: seq<byte>, ds: seq<byte>, es: seq<byte>, c: nat, e: nat, x: nat, p: int64, out: seq<byte>): (s: State)
    requires c <= |cs| && e <= |ds| && x <= |es|
    ensures s.out == out
  {
    State(Tape(DecodeTriples(cs[c..]), ds[e..], es[x..]), p, out)
  }

  lemma NextTriple(cs: seq<byte>, c: nat)
    requires c <= |cs|
    ensures |cs| - c < 24 ==> DecodeTriples(cs[c..]) == []
    ensures 24 <= |cs| - c ==>
      DecodeTriples(cs[c..]) == [DecodeTriple(cs[c..c + 24])] + DecodeTriples(cs[c + 24..])
  {
    if 24 <= |cs| - c {
      assert cs[c..][..24] == cs[c..c + 24] && cs[c..][24..] == cs[c + 24..];
    }
  }

  /** Reading a triple that fits, and its bytes, is a step of the interpreter. */
  lemma StepRead(obuf: seq<byte>, size: int64, cs: seq<byte>, ds: seq<byte>, es: seq<byte>, c: nat, e: nat, x: nat,
                 p: int64, out: seq<byte>, t: Triple)
    requires c + 24 <= |cs| && e <= |ds| && x <= |es| && t == DecodeTriple(cs[c..c + 24])
    requires |out| < size && 0 <= t.add <= |ds| - e && 0 <= t.copy <= |es| - x && |out| + t.add + t.copy <= size
    ensures Step(obuf, size, StateAt(cs, ds, es, c, e, x, p, out))
            == Next(StateAt(cs, ds, es, c + 24, e + t.add, x + t.copy, Wrap64(Wrap64(p + t.add) + t.seek),
                            out + Added(obuf, p, ds[e..e + t.add]) + es[x..x + t.copy]))
  {
    hide Step, Added, Wrap64, DecodeTriple, DecodeTriples;
    var s := StateAt(cs, ds, es, c, e, x, p, out);
    NextTriple(cs, c);
    StepIff(obuf, size, s);
    assert s.tape.ctrl[0] == t && s.tape.ctrl[1..] == DecodeTriples(cs[c + 24..]);
    assert ds[e..][..t.add] == ds[e..e + t.add] && ds[e..][t.add..] == ds[e + t.add..];
    assert es[x..][..t.copy] == es[x..x + t.copy] && es[x..][t.copy..] == es[x + t.copy..];
  }

  /** The interpreter gives that result. */
  lemma ResultMeans(obuf: seq<byte>, size: int64, t: Tape)
    requires 0 <= size
    ensures Applied(obuf, size, t, ResultOf(Run(obuf, size, State(t, 0, []))))
  {
    hide Run, Enough, Rebuilds, FailsAt;
    var s := State(t, 0, []);
    var r := ResultOf(Run(obuf, size, s));
    RunRebuilds(obuf, size, t, []);
    forall out
      ensures r == Ok(out) <==> |out| == size && Rebuilds(obuf, t, out)
    {
      RunRebuilds(obuf, size, t, out);
    }
    forall why
      ensures r == Err(why) <==> exists j: nat :: FailsAt(t, 0, size, j, why)
    {
      RunFailsIff(obuf, size, s, why);
    }
  }

  /** How the interpreter fails on the next triple, in the order of the checks. */
  lemma RunStops(obuf: seq<byte>, size: int64, cs: seq<byte>, ds: seq<byte>, es: seq<byte>, c: nat, e: nat, x: nat,
                  p: int64, out: seq<byte>)
    requires c <= |cs| && e <= |ds| && x <= |es| && |out| < size
    ensures var r := Run(obuf, size, StateAt(cs, ds, es, c, e, x, p, out));
            if |cs| - c < 24 then r == Failed(ReadFailed)
            else
              var t := DecodeTriple(cs[c..c + 24]);
              var mid := Wrap64(|out| + t.add);
              var end := Wrap64(mid + t.copy);
              && (mid > size ==> r == Failed(Corrupt))
              && (mid < |out| ==> r == Failed(Panic))
              && (|out| <= mid <= size ==> mid == |out| + t.add && 0 <= t.add)
              && (|out| <= mid <= size && |ds| - e < t.add ==> r == Failed(Corrupt))
              && (|out| <= mid <= size && t.add <= |ds| - e && end > size ==> r == Failed(Corrupt))
              && (|out| <= mid <= size && t.add <= |ds| - e && end < mid ==> r == Failed(Panic))
              && (|out| <= mid <= end <= size ==> end == mid + t.copy && 0 <= t.copy)
              && (|out| <= mid <= end <= size && t.add <= |ds| - e && |es| - x < t.copy ==> r == Failed(Corrupt))
  {
    hide DecodeTriple, DecodeTriples, Added, Run;
    NextTriple(cs, c);
    RunUnfold(obuf, size, StateAt(cs, ds, es, c, e, x, p, out));
  }

  /**
    The result of applying streams, without an interpreter: the new file if they suffice for it,
    and otherwise the error that the first triple demands which is missing or does not fit.
   */
  ghost predicate Applied(obuf: seq<byte>, size: int64, t: Tape, r: Result)
  {
    && (r.Ok? <==> Enough(t, size))
    && (forall out :: r == Ok(out) <==> |out| == size && Rebuilds(obuf, t, out))
    && (forall why :: r == Err(why) <==> exists j: nat :: FailsAt(t, 0, size, j, why))
  }

  /** Running on from a triple that fits. */
  lemma RunRead(obuf: seq<byte>, size: int64, cs: seq<byte>, ds: seq<byte>, es: seq<byte>, c: nat, e: nat, x: nat,
                p: int64, out: seq<byte>, t: Triple, out': seq<byte>)
    requires c + 24 <= |cs| && e <= |ds| && x <= |es| && t == DecodeTriple(cs[c..c + 24])
    requires |out| < size && 0 <= t.add <= |ds| - e && 0 <= t.copy <= |es| - x && |out| + t.add + t.copy <= size
    requires out' == out + Added(obuf, p, ds[e..e + t.add]) + es[x..x + t.copy]
    ensures Run(obuf, size, StateAt(cs, ds, es, c, e, x, p, out))
            == Run(obuf, size, StateAt(cs, ds, es, c + 24, e + t.add, x + t.copy, Wrap64(Wrap64(p + t.add) + t.seek), out'))
  {
    hide Step, Added, Run, Wrap64, DecodeTriple, DecodeTriples;
    RunUnfold(obuf, size, StateAt(cs, ds, es, c, e, x, p, out));
    StepRead(obuf, size, cs, ds, es, c, e, x, p, out, t);
  }

  lemma StateAtStart(cs: seq<byte>, ds: seq<byte>, es: seq<byte>)
    ensures StateAt(cs, ds, es, 0, 0, 0, 0, []) == State(Tape(DecodeTriples(cs), ds, es), 0, [])
  {
    assert cs[0..] == cs && ds[0..] == ds && es[0..] == es;
  }

  lemma RunDone(obuf: seq<byte>, size: int64, cs: seq<byte>, ds: seq<byte>, es: seq<byte>, c: nat, e: nat, x: nat,
                p: int64, out: seq<byte>)
    requires c <= |cs| && e <= |ds| && x <= |es| && |out| == size
    ensures ResultOf(Run(obuf, size, StateAt(cs, ds, es, c, e, x, p, out))) == Ok(out)
  {}

  /** The loop of `Patch`: executes control triples until the new file is full. */
  method Apply(obuf: seq<byte>, size: int64, cs: seq<byte>, ds: seq<byte>, es: seq<byte>) returns (r: Result)
    requires 0 <= size
    ensures r == ResultOf(Run(obuf, size, State(Tape(DecodeTriples(cs), ds, es), 0, [])))
    ensures Applied(obuf, size, Tape(DecodeTriples(cs), ds, es), r)
  {
    hide Step, Added, DecodeTriples, DecodeTriple, Run, Wrap64, Applied, StateAt;
    ResultMeans(obuf, size, Tape(DecodeTriples(cs), ds, es));
    var nbuf := new byte[size](_ => 0);
    var oldpos: int64, newpos: int64 := 0, 0;
    var cpos: nat, dpos: nat, epos: nat := 0, 0, 0;
    ghost var start := State(Tape(DecodeTriples(cs), ds, es), 0, []);
    StateAtStart(cs, ds, es);
    assert nbuf[..0] == [];
    while newpos < size
      invariant 0 <= newpos <= size && cpos <= |cs| && dpos <= |ds| && epos <= |es|
      invariant Run(obuf, size, start) == Run(obuf, size, StateAt(cs, ds, es, cpos, dpos, epos, oldpos, nbuf[..newpos]))
      decreases |cs| - cpos
    {
      ghost var p := oldpos;
      RunStops(obuf, size, cs, ds, es, cpos, dpos, epos, oldpos, nbuf[..newpos]);
      if |cs| - cpos < 24 {
        return Err(ReadFailed);
      }
      var ctrl := DecodeTriple(cs[cpos..cpos + 24]);

      if Wrap64(newpos + ctrl.add) > size {
        return Err(Corrupt);
      }
      if Wrap64(newpos + ctrl.add) < newpos {
        return Err(Panic);
      }
      ghost var out := nbuf[..newpos];
      var ok := ReadFull(nbuf, newpos, ctrl.add, ds, dpos);
      if !ok {
        return Err(Corrupt);
      }
      assert nbuf[newpos..newpos + ctrl.add] == ds[dpos..dpos + ctrl.add] && nbuf[..newpos] == out;
      AddOld(nbuf, newpos, ctrl.add, obuf, oldpos);
      assert nbuf[..newpos + ctrl.add] == nbuf[..newpos] + nbuf[newpos..newpos + ctrl.add];
      newpos := newpos + ctrl.add;
      oldpos := Wrap64(oldpos + ctrl.add);

      if Wrap64(newpos + ctrl.copy) > size {
        return Err(Corrupt);
      }
      if Wrap64(newpos + ctrl.copy) < newpos {
        return Err(Panic);
      }
      ok := ReadFull(nbuf, newpos, ctrl.copy, es, epos);
      if !ok {
        return Err(Corrupt);
      }
      RunRead(obuf, size, cs, ds, es, cpos, dpos, epos, p, out, ctrl, nbuf[..newpos + ctrl.copy]);
      newpos := newpos + ctrl.copy;
      oldpos := Wrap64(oldpos + ctrl.seek);
      cpos, dpos, epos := cpos + 24, dpos + ctrl.add, epos + ctrl.copy;
    }
    RunDone(obuf, size, cs, ds, es, cpos, dpos, epos, oldpos, nbuf[..newpos]);
    assert nbuf[..newpos] == nbuf[..];
    return Ok(nbuf[..]);
  }

  /** Where the header has its fields. */
  lemma HeaderFields(patch: seq<byte>)
    requires 32 <= |patch|
    ensures var h := DecodeHeader(patch[..32]);
            && (h.magic == MAGIC <==> HasMagic(patch))
            && h.ctrlLen == Decode(patch[8..16]) && h.diffLen == Decode(patch[16..24]) && h.newSize == Decode(patch[24..32])
  {
    hide Decode;
    var b := patch[..32];
    assert b[8..16] == patch[8..16] && b[16..24] == patch[16..24] && b[24..] == patch[24..32] && b[..8] == patch[..8];
    var m := patch[..8];
    assert forall i :: 0 <= i < 8 ==> m[i] == patch[i];
    assert |MAGIC| == 8 && forall i :: 0 <= i < 8 ==> MAGIC[i] == "BSDIFF40"[i] as int;
  }

  /** `Patch`, from the bytes of the old file and the patch to those of the new file. */
  method Patch(obuf: seq<byte>, patch: seq<byte>, U: seq<byte> -> seq<byte>) returns (r: Result)
    ensures r == PatchBytes(obuf, patch, U)
    ensures |patch| < 32 ==> r == Err(ReadFailed)
    ensures |patch| >= 32 && !HasMagic(patch) ==> r == Err(Corrupt)
    ensures |patch| >= 32 && HasMagic(patch) ==>
              var x, y, size := Decode(patch[8..16]), Decode(patch[16..24]), Decode(patch[24..32]);
              if x < 0 || y < 0 || size < 0 then r == Err(Corrupt)
              else if |patch| < 32 + x + y then r == Err(ReadFailed)
              else
                var t := Tape(DecodeTriples(U(patch[32..32 + x])), U(patch[32 + x..32 + x + y]), U(patch[32 + x + y..]));
                Applied(obuf, size, t, r)
  {
    hide Run, DecodeTriples, DecodeHeader, Applied, HasMagic, Decode;
    if 32 <= |patch| {
      HeaderFields(patch);
    }
    if |patch| < 32 {
      return Err(ReadFailed);
    }
    var hdr := DecodeHeader(patch[..32]);
    if hdr.magic != MAGIC {
      return Err(Corrupt);
    }
    if hdr.ctrlLen < 0 || hdr.diffLen < 0 || hdr.newSize < 0 {
      return Err(Corrupt);
    }
    var at := 32;
    if |patch| - at < hdr.ctrlLen {
      return Err(ReadFailed);
    }
    var ctrlbuf := patch[at..at + hdr.ctrlLen];
    at := at + hdr.ctrlLen;
    if |patch| - at < hdr.diffLen {
      return Err(ReadFailed);
    }
    var diffbuf := patch[at..at + hdr.diffLen];
    at := at + hdr.diffLen;
    r := Apply(obuf, hdr.newSize, U(ctrlbuf), U(diffbuf), U(patch[at..]));
  }
}
