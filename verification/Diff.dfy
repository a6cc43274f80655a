/** `diff`: the control, diff and extra streams, and the patch file around them. */
module Diffing {
  import opened Lex
  import opened Ranking
  import opened SuffixSort
  import opened Search
  import opened Interp
  import opened Encoding
  import opened Container
  import opened Plan
  import opened Laws
  import opened ScanLaws
  import opened Scanning
  import opened SeekBuffer
  import opened Patching

  // ---- Filling the blocks ------------------------------------------------------------------

  /** Appends new minus old bytes to the first dblen bytes of db. */
  method AppendDeltas(d: Job, db: array<byte>, dblen: nat, p: nat, q: nat, n: nat)
    requires dblen + n <= db.Length && p + n <= |d.obuf| && q + n <= |d.nbuf|
    modifies db
    ensures db[..dblen + n] == old(db[..dblen]) + Deltas(d, p, q, n)
  {
    ghost var ds := Deltas(d, p, q, n);
    for i := 0 to n
      invariant db[..dblen] == old(db[..dblen])
      invariant forall k :: 0 <= k < i ==> db[dblen + k] == ds[k]
    {
      db[dblen + i] := (d.nbuf[q + i] as int - d.obuf[p + i]) % 256;
      assert ds[i] == Delta(d, p + i, q + i);
    }
    assert db[dblen..dblen + n] == ds;
    assert db[..dblen + n] == db[..dblen] + db[dblen..dblen + n];
  }

  /** Appends new bytes to the first eblen bytes of eb. */
  method AppendPiece(d: Job, eb: array<byte>, eblen: nat, q: nat, n: nat)
    requires eblen + n <= eb.Length && q + n <= |d.nbuf|
    modifies eb
    ensures eb[..eblen + n] == old(eb[..eblen]) + Piece(d.nbuf, q, n)
  {
    ghost var es := Piece(d.nbuf, q, n);
    for i := 0 to n
      invariant eb[..eblen] == old(eb[..eblen])
      invariant forall k :: 0 <= k < i ==> eb[eblen + k] == es[k]
    {
      eb[eblen + i] := d.nbuf[q + i];
    }
    assert eb[eblen..eblen + n] == es;
    assert eb[..eblen + n] == eb[..eblen] + eb[eblen..eblen + n];
  }

  /** The eight bytes that binary.Write sends for one integer. */
  method Int64Bytes(v: int64) returns (s: seq<byte>)
    ensures s == Encode(v)
  {
    var b := new byte[8](_ => 0);
    PutUint64(b, v);
    s := b[..8];
  }

  // ---- The outer loop ------------------------------------------------------------------------

  /** The streams written so far, c, db and eb, continued by what is planned from the cursor on. */
  ghost predicate OnTrack(d: Job, c: Cursor, ctrl: seq<byte>, db: seq<byte>, eb: seq<byte>)
  {
    && Resting(d, START) && Resting(d, c)
    && |db| + |eb| == c.lastscan
    && ctrl + EncodeTriples(Triples(d, c)) == EncodeTriples(Triples(d, START))
    && db + DiffBytes(d, Triples(d, c), c.lastpos, c.lastscan) == DiffBytes(d, Triples(d, START), 0, 0)
    && eb + ExtraBytes(d, Triples(d, c), c.lastscan) == ExtraBytes(d, Triples(d, START), 0)
  }

  lemma OnTrackStart(d: Job)
    requires Ready(d)
    ensures OnTrack(d, START, [], [], [])
  {}

  /** At the end of the new file the planned streams are complete. */
  lemma OnTrackEnd(d: Job, c: Cursor, ctrl: seq<byte>, db: seq<byte>, eb: seq<byte>)
    requires OnTrack(d, c, ctrl, db, eb) && c.scan == |d.nbuf|
    ensures Resting(d, START)
    ensures ctrl == EncodeTriples(Triples(d, START))
    ensures db == DiffBytes(d, Triples(d, START), 0, 0) && eb == ExtraBytes(d, Triples(d, START), 0)
  {}

  /** A stop without a triple changes nothing of the streams. */
  lemma OnTrackSkip(d: Job, c: Cursor, ctrl: seq<byte>, db: seq<byte>, eb: seq<byte>)
    requires OnTrack(d, c, ctrl, db, eb) && c.scan < |d.nbuf| && !Emits(d, Advance(d, c))
    ensures OnTrack(d, Advance(d, c), ctrl, db, eb)
  {}

  /** Writing the triple of a stop and its bytes keeps the streams on track. */
  lemma OnTrackEmit(d: Job, c: Cursor, ctrl: seq<byte>, db: seq<byte>, eb: seq<byte>)
    requires OnTrack(d, c, ctrl, db, eb) && c.scan < |d.nbuf| && Emits(d, Advance(d, c))
    ensures var a := Advance(d, c); var t := TripleAt(d, a);
            OnTrack(d, Emitted(d, a), ctrl + EncodeTriple(t), db + Deltas(d, c.lastpos, c.lastscan, t.add),
                    eb + Piece(d.nbuf, c.lastscan + t.add, t.copy))
  {
    hide *;
    OnTrackFacts(d, c, ctrl, db, eb);
    var a := Advance(d, c);
    var t, e := TripleAt(d, a), Emitted(d, a);
    TripleInRange(d, a);
    TriplesUnfold(d, c);
    var ts := Triples(d, e);
    StreamsCons(d, t, ts, c.lastpos, c.lastscan);
    PieceIs(d.nbuf, c.lastscan + t.add, t.copy);
    EncodeTriplesCons(t, ts);
    OnTrackFrom(d, e, ctrl + EncodeTriple(t), db + Deltas(d, c.lastpos, c.lastscan, t.add),
                eb + Piece(d.nbuf, c.lastscan + t.add, t.copy));
  }

  lemma EncodeTriplesCons(t: Triple, ts: seq<Triple>)
    ensures EncodeTriples([t] + ts) == EncodeTriple(t) + EncodeTriples(ts)
  {
    assert ([t] + ts)[1..] == ts;
  }

  /** The first triple and the others. */
  lemma TriplesUnfold(d: Job, c: Cursor)
    requires Resting(d, c) && c.scan < |d.nbuf| && Emits(d, Advance(d, c))
    ensures Triples(d, c) == [TripleAt(d, Advance(d, c))] + Triples(d, Emitted(d, Advance(d, c)))
  {}

  lemma OnTrackFacts(d: Job, c: Cursor, ctrl: seq<byte>, db: seq<byte>, eb: seq<byte>)
    requires OnTrack(d, c, ctrl, db, eb)
    ensures Resting(d, START) && Resting(d, c) && Ready(d)
    ensures |db| + |eb| == c.lastscan <= c.scan <= |d.nbuf| && c.lastpos <= |d.obuf|
    ensures ctrl + EncodeTriples(Triples(d, c)) == EncodeTriples(Triples(d, START))
    ensures db + DiffBytes(d, Triples(d, c), c.lastpos, c.lastscan) == DiffBytes(d, Triples(d, START), 0, 0)
    ensures eb + ExtraBytes(d, Triples(d, c), c.lastscan) == ExtraBytes(d, Triples(d, START), 0)
  {}

  lemma OnTrackFrom(d: Job, c: Cursor, ctrl: seq<byte>, db: seq<byte>, eb: seq<byte>)
    requires Resting(d, START) && Resting(d, c)
    requires |db| + |eb| == c.lastscan
    requires ctrl + EncodeTriples(Triples(d, c)) == EncodeTriples(Triples(d, START))
    requires db + DiffBytes(d, Triples(d, c), c.lastpos, c.lastscan) == DiffBytes(d, Triples(d, START), 0, 0)
    requires eb + ExtraBytes(d, Triples(d, c), c.lastscan) == ExtraBytes(d, Triples(d, START), 0)
    ensures OnTrack(d, c, ctrl, db, eb)
  {}

  /** The cursor that a stop of the scan loop amounts to. */
  lemma AdvanceIs(d: Job, c: Cursor, scan: nat, pos: nat, length: nat)
    requires Resting(d, c) && c.scan < |d.nbuf|
    requires scan == NextStop(d, c.lastoffset, c.scan + c.length)
    requires scan < |d.nbuf| ==> (pos, length) == Best(d, scan)
    requires c.scan + c.length < scan == |d.nbuf| ==> (pos, length) == Best(d, scan - 1)
    requires c.scan + c.length == |d.nbuf| ==> (pos, length) == (c.pos, c.length)
    ensures Advance(d, c) == Cursor(scan, length, pos, c.lastscan, c.lastpos, c.lastoffset)
    ensures Stopped(d, Advance(d, c))
  {
    hide Best, NextStop;
  }

  lemma EmitsIs(d: Job, a: Cursor, oldscore: int)
    requires a.scan < |d.nbuf| ==> oldscore == Matches(d, a.scan + a.lastoffset, a.scan, a.length)
    requires a.scan <= |d.nbuf|
    ensures Emits(d, a) <==> a.length != oldscore || a.scan == |d.nbuf|
  {}

  lemma TripleIs(d: Job, a: Cursor, lenf: int, lenb: int)
    requires Stopped(d, a)
    requires lenf == Forward(d, a) - Overlap(d, a) + CutPoint(d, a) && lenb == Backward(d, a) - CutPoint(d, a)
    ensures var t := TripleAt(d, a);
            && t.add == lenf && t.copy == (a.scan - lenb) - (a.lastscan + lenf)
            && t.seek == (a.pos - lenb) - (a.lastpos + lenf)
    ensures Emitted(d, a) == Cursor(a.scan, a.length, a.pos, a.scan - lenb, a.pos - lenb, a.pos - a.scan)
    ensures 0 <= lenb <= a.scan && lenb <= a.pos
  {
    hide Forward, Backward, CutPoint;
  }

  lemma OverlapIs(d: Job, a: Cursor)
    requires Stopped(d, a)
    ensures var o := a.lastscan + Forward(d, a) - (a.scan - Backward(d, a)); Overlap(d, a) == if o > 0 then o else 0
    ensures Overlap(d, a) == 0 ==> CutPoint(d, a) == 0
    ensures CutPoint(d, a) <= Overlap(d, a) <= Forward(d, a) && CutPoint(d, a) <= Overlap(d, a) <= Backward(d, a)
  {}

  /** Extends, cuts and measures at a stop: the lengths of the add part and of the backward extension. */
  method Measure(d: Job, a: Cursor) returns (lenf: nat, lenb: nat)
    requires Stopped(d, a)
    ensures var t := TripleAt(d, a);
            && t.add == lenf && t.copy == (a.scan - lenb) - (a.lastscan + lenf)
            && t.seek == (a.pos - lenb) - (a.lastpos + lenf)
    ensures Emitted(d, a) == Cursor(a.scan, a.length, a.pos, a.scan - lenb, a.pos - lenb, a.pos - a.scan)
    ensures lenb <= a.scan && lenb <= a.pos
  {
    hide *;
    lenf := ExtendForward(d, a);
    lenb := ExtendBackward(d, a);
    OverlapIs(d, a);
    if a.lastscan + lenf > a.scan - lenb {
      var overlap := (a.lastscan + lenf) - (a.scan - lenb);
      var lens := CutOverlap(d, a, lenf, lenb, overlap);
      lenf := lenf + lens - overlap;
      lenb := lenb - lens;
    }
    TripleIs(d, a, lenf, lenb);
  }

  lemma DistanceDrops(d: Job, c: Cursor)
    requires Resting(d, c) && c.scan < |d.nbuf|
    ensures var a := Advance(d, c);
            && Resting(d, Emitted(d, a)) && Distance(d, Emitted(d, a)) < Distance(d, c)
            && (!Emits(d, a) ==> Resting(d, a) && Distance(d, a) < Distance(d, c))
  {}

  /** Writes the triple of a stop and its diff and extra bytes. */
  method Emit(d: Job, ghost c: Cursor, a: Cursor, ctrl: seq<byte>, db: array<byte>, dblen: nat, eb: array<byte>, eblen: nat)
    returns (ctrl': seq<byte>, dblen': nat, eblen': nat, lenb: nat)
    requires db != eb && db.Length == eb.Length == |d.nbuf| && dblen <= db.Length && eblen <= eb.Length
    requires OnTrack(d, c, ctrl, db[..dblen], eb[..eblen])
    requires c.scan < |d.nbuf| && a == Advance(d, c) && Stopped(d, a) && Emits(d, a)
    modifies db, eb
    ensures dblen' <= db.Length && eblen' <= eb.Length
    ensures OnTrack(d, Emitted(d, a), ctrl', db[..dblen'], eb[..eblen'])
    ensures lenb <= a.scan && lenb <= a.pos
    ensures Emitted(d, a) == Cursor(a.scan, a.length, a.pos, a.scan - lenb, a.pos - lenb, a.pos - a.scan)
  {
    hide *;
    OnTrackFacts(d, c, ctrl, db[..dblen], eb[..eblen]);
    AdvanceKeeps(d, c);
    var lenf;
    lenf, lenb := Measure(d, a);
    TripleInRange(d, a);
    OnTrackEmit(d, c, ctrl, db[..dblen], eb[..eblen]);
    var copy: int64 := (a.scan - lenb) - (a.lastscan + lenf);
    var seek: int64 := (a.pos - lenb) - (a.lastpos + lenf);
    DeltaLength(d, a.lastpos, a.lastscan, lenf, a.lastscan + lenf, copy);
    AppendDeltas(d, db, dblen, a.lastpos, a.lastscan, lenf);
    AppendPiece(d, eb, eblen, a.lastscan + lenf, copy);
    dblen' := dblen + lenf;
    eblen' := eblen + copy;
    var b0 := Int64Bytes(lenf);
    var b1 := Int64Bytes(copy);
    var b2 := Int64Bytes(seek);
    EncodeTripleIs(TripleAt(d, a));
    ctrl' := ctrl + (b0 + b1 + b2);
  }

  lemma AdvanceKeeps(d: Job, c: Cursor)
    requires Resting(d, c) && c.scan < |d.nbuf|
    ensures Advance(d, c).lastscan == c.lastscan && Advance(d, c).lastpos == c.lastpos
    ensures |d.nbuf| < TWO63
  {}

  /** The scan over the new file: fills the diff and extra blocks and writes the control triples. */
  method WriteStreams(d: Job, db: array<byte>, eb: array<byte>) returns (ctrl: seq<byte>, dblen: nat, eblen: nat)
    requires Valid(d) && db != eb && db.Length == eb.Length == |d.nbuf|
    modifies db, eb
    ensures Resting(d, START)
    ensures ctrl == EncodeTriples(Triples(d, START))
    ensures dblen <= db.Length && db[..dblen] == DiffBytes(d, Triples(d, START), 0, 0)
    ensures eblen <= eb.Length && eb[..eblen] == ExtraBytes(d, Triples(d, START), 0)
  {
    hide *;
    ctrl, dblen, eblen := [], 0, 0;
    ValidReady(d);
    OnTrackStart(d);
    StartIs();
    assert db[..0] == [] && eb[..0] == [];
    var scan: nat, pos: nat, length: nat := 0, 0, 0;
    var lastscan: nat, lastpos: nat, lastoffset: int := 0, 0, 0;
    while scan < |d.nbuf|
      invariant dblen <= db.Length && eblen <= eb.Length
      invariant OnTrack(d, Cursor(scan, length, pos, lastscan, lastpos, lastoffset), ctrl, db[..dblen], eb[..eblen])
      invariant scan <= |d.nbuf|
      decreases OnTrackDistance(d, Cursor(scan, length, pos, lastscan, lastpos, lastoffset))
    {
      ghost var c := Cursor(scan, length, pos, lastscan, lastpos, lastoffset);
      OnTrackFacts(d, c, ctrl, db[..dblen], eb[..eblen]);
      RestingFacts(d, c);
      var oldscore;
      scan := scan + length;
      scan, pos, length, oldscore := ScanAhead(d, lastoffset, scan, pos, length);
      AdvanceIs(d, c, scan, pos, length);
      var a := Cursor(scan, length, pos, lastscan, lastpos, lastoffset);
      NextStopInRange(d, lastoffset, c.scan + c.length);
      EmitsIs(d, a, oldscore);
      DistanceDrops(d, c);
      DistanceIs(d, c);
      if length != oldscore || scan == |d.nbuf| {
        var lenb;
        ctrl, dblen, eblen, lenb := Emit(d, c, a, ctrl, db, dblen, eb, eblen);
        lastscan := scan - lenb;
        lastpos := pos - lenb;
        lastoffset := pos - scan;
        DistanceIs(d, Emitted(d, a));
      } else {
        OnTrackSkip(d, c, ctrl, db[..dblen], eb[..eblen]);
        DistanceIs(d, a);
      }
    }
    ghost var c := Cursor(scan, length, pos, lastscan, lastpos, lastoffset);
    OnTrackFacts(d, c, ctrl, db[..dblen], eb[..eblen]);
    OnTrackEnd(d, c, ctrl, db[..dblen], eb[..eblen]);
  }

  lemma ValidReady(d: Job)
    requires Valid(d)
    ensures Ready(d)
  {}

  lemma StartIs()
    ensures START == Cursor(0, 0, 0, 0, 0, 0)
  {}

  lemma RestingFacts(d: Job, c: Cursor)
    requires Resting(d, c) && c.scan < |d.nbuf|
    ensures c.scan + c.length <= |d.nbuf| && 0 <= c.scan + c.length + c.lastoffset
    ensures Ready(d)
  {}

  lemma NextStopInRange(d: Job, offset: int, s: nat)
    requires Ready(d) && s <= |d.nbuf|
    ensures s <= NextStop(d, offset, s) <= |d.nbuf|
  {}

  /** Distance as a measure that needs no precondition. */
  function OnTrackDistance(d: Job, c: Cursor): nat
  {
    if Resting(d, c) then Distance(d, c) else 0
  }

  lemma DistanceIs(d: Job, c: Cursor)
    requires Resting(d, c)
    ensures OnTrackDistance(d, c) == Distance(d, c)
  {}

  lemma DeltaLength(d: Job, p: int, q: int, n: nat, r: nat, m: nat)
    requires r + m <= |d.nbuf|
    ensures |Deltas(d, p, q, n)| == n && |Piece(d.nbuf, r, m)| == m
  {}

  lemma EncodeTripleIs(t: Triple)
    ensures EncodeTriple(t) == Encode(t.add) + Encode(t.copy) + Encode(t.seek)
  {}

  // ---- The patch file --------------------------------------------------------------------------

  datatype DiffResult = Patched(bytes: seq<byte>) | SeekFailed(error: SeekError) | TooLong

  /**
    The patch file of three compressed blocks. The writer fails if the position behind the control
    or the diff block, which it reads back, is 2^31 or more, or if the file reaches 2^63 bytes.
   */
  function FileOf(newSize: int64, ctrl: seq<byte>, diff: seq<byte>, extra: seq<byte>): DiffResult
  {
    if 32 + |ctrl| >= TWO63 then TooLong
    else if 32 + |ctrl| >= 0x8000_0000 then SeekFailed(PositionOutOfRange)
    else if 32 + |ctrl| + |diff| >= TWO63 then TooLong
    else if 32 + |ctrl| + |diff| >= 0x8000_0000 then SeekFailed(PositionOutOfRange)
    else if 32 + |ctrl| + |diff| + |extra| >= TWO63 then TooLong
    else Patched(Layout(newSize, ctrl, diff, extra))
  }

  /** What a patch file of three compressed blocks looks like, byte by byte, and when there is none. */
  ghost predicate IsPatchFile(r: DiffResult, newSize: int64, ctrl: seq<byte>, diff: seq<byte>, extra: seq<byte>)
  {
    var m, n := 32 + |ctrl|, 32 + |ctrl| + |diff|;
    && (r.Patched? <==> n < 0x8000_0000 && n + |extra| < TWO63)
    && (r.SeekFailed? <==> 0x8000_0000 <= m < TWO63 || m < 0x8000_0000 <= n < TWO63)
    && (r.SeekFailed? ==> r.error == PositionOutOfRange)
    && (r.Patched? ==>
          var b := r.bytes;
          && |b| == n + |extra| && HasMagic(b)
          && Decode(b[8..16]) == |ctrl| && Decode(b[16..24]) == |diff| && Decode(b[24..32]) == newSize
          && b[32..m] == ctrl && b[m..n] == diff && b[n..] == extra)
  }

  lemma FileOfFormat(newSize: int64, ctrl: seq<byte>, diff: seq<byte>, extra: seq<byte>)
    requires 0 <= newSize
    ensures IsPatchFile(FileOf(newSize, ctrl, diff, extra), newSize, ctrl, diff, extra)
  {
    hide Encode, Decode, Layout, HasMagic;
    if FileOf(newSize, ctrl, diff, extra).Patched? {
      LayoutFormat(newSize, ctrl, diff, extra);
      DecodeEncode(|ctrl|);
      DecodeEncode(|diff|);
      DecodeEncode(newSize);
    }
  }

  /** What diffing gives, with Z for bzip2: the file of the planned streams. */
  ghost function DiffBytesOf(d: Job, Z: seq<byte> -> seq<byte>): DiffResult
    requires Ready(d) && Resting(d, START)
  {
    var ts := Triples(d, START);
    FileOf(|d.nbuf|, Z(EncodeTriples(ts)), Z(DiffBytes(d, ts, 0, 0)), Z(ExtraBytes(d, ts, 0)))
  }

  /** The bytes that binary.Write sends for a header. */
  method HeaderBytes(h: Header) returns (s: seq<byte>)
    requires |h.magic| == 8
    ensures s == EncodeHeader(h)
  {
    var b0 := Int64Bytes(h.ctrlLen);
    var b1 := Int64Bytes(h.diffLen);
    var b2 := Int64Bytes(h.newSize);
    s := h.magic + b0 + b1 + b2;
  }

  /** Writing the header again over the first one leaves the blocks behind it. */
  lemma HeaderRewritten(h: seq<byte>, h': seq<byte>, ctrl: seq<byte>, diff: seq<byte>, extra: seq<byte>)
    requires |h| == |h'| == 32
    ensures Overlay(h + ctrl + diff + extra, 0, h') == h' + ctrl + diff + extra
  {
    assert (h + ctrl + diff + extra)[32..] == ctrl + diff + extra;
  }

  lemma OverlayAppends(buf: seq<byte>, p: seq<byte>)
    ensures Overlay(buf, |buf|, p) == buf + p
  {}

  /** Compresses the three streams behind a header, then goes back and completes the header. */
  method WriteFile(newSize: int64, ctrl: seq<byte>, diff: seq<byte>, extra: seq<byte>) returns (r: DiffResult)
    ensures r == FileOf(newSize, ctrl, diff, extra)
    ensures 0 <= newSize ==> IsPatchFile(r, newSize, ctrl, diff, extra)
  {
    hide Overlay, EncodeHeader, Wrap64, IsPatchFile;
    if 0 <= newSize {
      FileOfFormat(newSize, ctrl, diff, extra);
    }
    var patch := new Buffer();
    var first := HeaderBytes(Header(MAGIC, 0, 0, newSize));
    var n := patch.Write(first);
    OverlayAppends([], first);
    assert patch.buf == first;
    n := patch.Write(ctrl);
    if n.Overflow? {
      return TooLong;
    }
    OverlayAppends(first, ctrl);
    assert patch.buf == first + ctrl;
    WrapInRange(patch.pos);
    var l64 := patch.Seek(0, 1);
    if l64.NotMoved? {
      return SeekFailed(l64.error);
    }
    var ctrlLen := l64.position - 32;
    n := patch.Write(diff);
    if n.Overflow? {
      return TooLong;
    }
    OverlayAppends(first + ctrl, diff);
    assert patch.buf == first + ctrl + diff;
    WrapInRange(patch.pos);
    var n64 := patch.Seek(0, 1);
    if n64.NotMoved? {
      return SeekFailed(n64.error);
    }
    var diffLen := n64.position - l64.position;
    n := patch.Write(extra);
    if n.Overflow? {
      return TooLong;
    }
    OverlayAppends(first + ctrl + diff, extra);
    assert patch.buf == first + ctrl + diff + extra;
    WrapInRange(0);
    var start := patch.Seek(0, 0);
    assert start.Moved?;
    var second := HeaderBytes(Header(MAGIC, ctrlLen, diffLen, newSize));
    n := patch.Write(second);
    HeaderRewritten(first, second, ctrl, diff, extra);
    return Patched(patch.buf);
  }

  // ---- Patching undoes diffing ---------------------------------------------------------------------

  /** U decompresses what Z has compressed. */
  ghost predicate Inverts(U: seq<byte> -> seq<byte>, Z: seq<byte> -> seq<byte>)
  {
    forall s :: U(Z(s)) == s
  }

  /** No planned triple holds -2^63, the one integer that the encoding loses. */
  lemma {:induction false} TriplesEncodable(d: Job, c: Cursor)
    requires Resting(d, c)
    ensures forall t :: t in Triples(d, c) ==> Encodable(t)
    decreases Distance(d, c)
  {
    hide TripleAt, Emitted, NextStop, Best, Stops;
    if c.scan < |d.nbuf| {
      var a := Advance(d, c);
      if Emits(d, a) {
        TripleInRange(d, a);
        TriplesEncodable(d, Emitted(d, a));
      } else {
        TriplesEncodable(d, a);
      }
    }
  }

  /** The control block is at most 24 bytes for every 9 bytes of the new file, and 24 more. */
  lemma ControlSize(d: Job)
    requires Ready(d)
    ensures Resting(d, START)
    ensures |EncodeTriples(Triples(d, START))| <= 24 * (|d.nbuf| / 9 + 1)
  {
    hide Triples;
    TripleCount(d);
    EncodedLength(Triples(d, START));
  }

  /**
    Round trip: applying the patch to the old file gives the new file. It does not depend on
    which match the search prefers, only on the suffix array being a permutation.
   */
  lemma RoundTrip(d: Job, Z: seq<byte> -> seq<byte>, U: seq<byte> -> seq<byte>)
    requires Ready(d) && Inverts(U, Z)
    ensures Resting(d, START)
    ensures var r := DiffBytesOf(d, Z); r.Patched? ==> PatchBytes(d.obuf, r.bytes, U) == Ok(d.nbuf)
  {
    hide Triples, DiffBytes, ExtraBytes, Run, Parse, Layout, EncodeTriples, DecodeTriples;
    StartRests(d);
    var ts := Triples(d, START);
    var db, eb := DiffBytes(d, ts, 0, 0), ExtraBytes(d, ts, 0);
    if DiffBytesOf(d, Z).Patched? {
      ParseLayout(|d.nbuf|, Z(EncodeTriples(ts)), Z(db), Z(eb));
      TriplesEncodable(d, START);
      DecodeEncodeTriples(ts);
      Simulation(d, START);
      assert d.nbuf[..0] == [];
      assert Replay(d, ts, 0, 0) == State(Tape(ts, db, eb), 0, []);
    }
  }

  /**
    Diffing succeeds for every new file below 512 MiB, if compressing adds at most a hundredth
    of the length and 600 bytes.
   */
  lemma DiffSucceeds(d: Job, Z: seq<byte> -> seq<byte>)
    requires Ready(d) && |d.nbuf| < 0x2000_0000
    requires forall s :: |Z(s)| <= |s| + |s| / 100 + 600
    ensures Resting(d, START)
    ensures DiffBytesOf(d, Z).Patched?
  {
    hide Triples, DiffBytes, ExtraBytes, EncodeTriples, AddSum, CopySum, Layout, Ready, Resting;
    ControlSize(d);
    BlocksCover(d);
  }

  /** With blocks that are stored as they are, diffing succeeds and patching undoes it. */
  lemma StoredRoundTrip(d: Job)
    requires Ready(d) && |d.nbuf| < 0x2000_0000
    ensures Resting(d, START)
    ensures var stored := (s: seq<byte>) => s; var r := DiffBytesOf(d, stored);
            Inverts(stored, stored) && r.Patched? && PatchBytes(d.obuf, r.bytes, stored) == Ok(d.nbuf)
  {
    hide DiffBytesOf, PatchBytes, Ready, Resting;
    var stored := (s: seq<byte>) => s;
    DiffSucceeds(d, stored);
    RoundTrip(d, stored, stored);
  }

  /** `Diff`, from the bytes of both files to those of the patch. */
  method Diff(obuf: seq<byte>, nbuf: seq<byte>, Z: seq<byte> -> seq<byte>) returns (r: DiffResult, ghost d: Job)
    requires |obuf| < TWO63 && |nbuf| < TWO63
    ensures d.obuf == obuf && d.nbuf == nbuf && Valid(d) && Resting(d, START)
    ensures r == DiffBytesOf(d, Z)
    ensures var ts := Triples(d, START);
            IsPatchFile(r, |nbuf|, Z(EncodeTriples(ts)), Z(DiffBytes(d, ts, 0, 0)), Z(ExtraBytes(d, ts, 0)))
    ensures r.Patched? ==> forall U :: Inverts(U, Z) ==> PatchBytes(obuf, r.bytes, U) == Ok(nbuf)
  {
    hide Triples, DiffBytes, ExtraBytes, EncodeTriples, IsSuffixArray, IsPermutation;
    hide PatchBytes, Layout, Resting, IsPatchFile;
    var I := Qsufsort(obuf);
    SuffixArrayFacts(obuf, I[..]);
    var job := Job(obuf, nbuf, I[..]);
    d := job;
    var db := new byte[|nbuf|](_ => 0);
    var eb := new byte[|nbuf|](_ => 0);
    var ctrl, dblen, eblen := WriteStreams(job, db, eb);
    r := WriteFile(|nbuf|, Z(ctrl), Z(db[..dblen]), Z(eb[..eblen]));
    forall U | Inverts(U, Z)
      ensures r.Patched? ==> PatchBytes(obuf, r.bytes, U) == Ok(nbuf)
    {
      RoundTrip(d, Z, U);
    }
  }
}
