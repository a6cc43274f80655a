/** The patch file: a 32-byte header followed by three compressed blocks. */
module Container {
  import opened Lex
  import opened Interp
  import opened Encoding

  // ---- Control triples -----------------------------------------------------------------

  function EncodeTriple(t: Triple): (b: seq<byte>)
    ensures |b| == 24
  {
    Encode(t.add) + Encode(t.copy) + Encode(t.seek)
  }

  function DecodeTriple(b: seq<byte>): Triple
    requires |b| == 24
  {
    Triple(Decode(b[..8]), Decode(b[8..16]), Decode(b[16..]))
  }

  /** The control block before compression. */
  function EncodeTriples(ts: seq<Triple>): seq<byte>
  {
    if ts == [] then [] else EncodeTriple(ts[0]) + EncodeTriples(ts[1..])
  }

  /** The triples that can be read in full. */
  function DecodeTriples(b: seq<byte>): seq<Triple>
  {
    if |b| < 24 then [] else [DecodeTriple(b[..24])] + DecodeTriples(b[24..])
  }

  predicate Encodable(t: Triple)
  {
    t.add != -TWO63 && t.copy != -TWO63 && t.seek != -TWO63
  }

  lemma DecodeEncodeTriple(t: Triple)
    requires Encodable(t)
    ensures DecodeTriple(EncodeTriple(t)) == t
  {
    hide Encode, Decode;
    var b := EncodeTriple(t);
    assert b[..8] == Encode(t.add) && b[8..16] == Encode(t.copy) && b[16..] == Encode(t.seek);
    DecodeEncode(t.add);
    DecodeEncode(t.copy);
    DecodeEncode(t.seek);
  }

  /** Reading the control block gives the triples back. */
  lemma {:induction false} DecodeEncodeTriples(ts: seq<Triple>)
    requires forall t :: t in ts ==> Encodable(t)
    ensures DecodeTriples(EncodeTriples(ts)) == ts
  {
    hide EncodeTriple, DecodeTriple;
    if ts != [] {
      var b := EncodeTriples(ts);
      assert b[..24] == EncodeTriple(ts[0]) && b[24..] == EncodeTriples(ts[1..]);
      DecodeEncodeTriple(ts[0]);
      DecodeEncodeTriples(ts[1..]);
    }
  }

  /** The three integers of each triple, eight bytes each, one triple after the other. */
  lemma {:induction false} EncodeTriplesAt(ts: seq<Triple>, j: nat)
    requires j < |ts|
    ensures var b, i := EncodeTriples(ts), 24 * j;
            && |b| == 24 * |ts|
            && b[i..i + 8] == Encode(ts[j].add)
            && b[i + 8..i + 16] == Encode(ts[j].copy)
            && b[i + 16..i + 24] == Encode(ts[j].seek)
  {
    hide Encode;
    var b, e, rest := EncodeTriples(ts), EncodeTriple(ts[0]), EncodeTriples(ts[1..]);
    assert b == e + rest;
    if j == 0 {
      EncodedLength(ts[1..]);
      assert b[0..8] == e[0..8] && b[8..16] == e[8..16] && b[16..24] == e[16..24];
    } else {
      EncodeTriplesAt(ts[1..], j - 1);
      var i := 24 * (j - 1);
      assert b[24 + i..24 + i + 8] == rest[i..i + 8];
      assert b[24 + i + 8..24 + i + 16] == rest[i + 8..i + 16];
      assert b[24 + i + 16..24 + i + 24] == rest[i + 16..i + 24];
    }
  }

  lemma {:induction false} EncodedLength(ts: seq<Triple>)
    ensures |EncodeTriples(ts)| == 24 * |ts|
  {
    if ts != [] {
      EncodedLength(ts[1..]);
    }
  }

  /** A control block holds as many triples as whole groups of 24 bytes, each read from its own group. */
  lemma {:induction false} DecodeTriplesAt(b: seq<byte>, j: nat)
    requires j < |b| / 24
    ensures |DecodeTriples(b)| == |b| / 24
    ensures var t, i := DecodeTriples(b)[j], 24 * j;
            && t.add == Decode(b[i..i + 8]) && t.copy == Decode(b[i + 8..i + 16]) && t.seek == Decode(b[i + 16..i + 24])
  {
    hide Decode;
    var rest := b[24..];
    DecodedLength(b);
    if j == 0 {
      assert b[..24][..8] == b[0..8] && b[..24][8..16] == b[8..16] && b[..24][16..] == b[16..24];
    } else {
      DecodeTriplesAt(rest, j - 1);
      var i := 24 * (j - 1);
      assert b[24 + i..24 + i + 8] == rest[i..i + 8];
      assert b[24 + i + 8..24 + i + 16] == rest[i + 8..i + 16];
      assert b[24 + i + 16..24 + i + 24] == rest[i + 16..i + 24];
    }
  }

  lemma {:induction false} DecodedLength(b: seq<byte>)
    ensures |DecodeTriples(b)| == |b| / 24
  {
    if 24 <= |b| {
      DecodedLength(b[24..]);
    }
  }

  // ---- The header ------------------------------------------------------------------------

  /** "BSDIFF40" */
  const MAGIC: seq<byte> := [0x42, 0x53, 0x44, 0x49, 0x46, 0x46, 0x34, 0x30]

  datatype Header = Header(magic: seq<byte>, ctrlLen: int64, diffLen: int64, newSize: int64)

  function EncodeHeader(h: Header): (b: seq<byte>)
    requires |h.magic| == 8
    ensures |b| == 32
  {
    h.magic + Encode(h.ctrlLen) + Encode(h.diffLen) + Encode(h.newSize)
  }

  function DecodeHeader(b: seq<byte>): Header
    requires |b| == 32
  {
    Header(b[..8], Decode(b[8..16]), Decode(b[16..24]), Decode(b[24..]))
  }

  lemma DecodeEncodeHeader(h: Header)
    requires |h.magic| == 8 && h.ctrlLen >= 0 && h.diffLen >= 0 && h.newSize >= 0
    ensures DecodeHeader(EncodeHeader(h)) == h
  {
    hide Encode, Decode;
    var b := EncodeHeader(h);
    assert b[..8] == h.magic && b[8..16] == Encode(h.ctrlLen);
    assert b[16..24] == Encode(h.diffLen) && b[24..] == Encode(h.newSize);
    DecodeEncode(h.ctrlLen);
    DecodeEncode(h.diffLen);
    DecodeEncode(h.newSize);
  }

  // ---- The file --------------------------------------------------------------------------

  /** The layout of a patch file with the given compressed blocks. */
  function Layout(newSize: int64, ctrl: seq<byte>, diff: seq<byte>, extra: seq<byte>): seq<byte>
    requires |ctrl| < TWO63 && |diff| < TWO63
  {
    EncodeHeader(Header(MAGIC, |ctrl|, |diff|, newSize)) + ctrl + diff + extra
  }

  /** The first eight bytes are the characters B S D I F F 4 0. */
  predicate HasMagic(file: seq<byte>)
  {
    8 <= |file| && forall i :: 0 <= i < 8 ==> file[i] == "BSDIFF40"[i] as int
  }

  /** The format: the magic, the lengths of the first two blocks and of the new file, and the three blocks. */
  lemma LayoutFormat(newSize: int64, ctrl: seq<byte>, diff: seq<byte>, extra: seq<byte>)
    requires |ctrl| < TWO63 && |diff| < TWO63
    ensures var b := Layout(newSize, ctrl, diff, extra);
            && |b| == 32 + |ctrl| + |diff| + |extra| && HasMagic(b)
            && b[8..16] == Encode(|ctrl|) && b[16..24] == Encode(|diff|) && b[24..32] == Encode(newSize)
            && b[32..32 + |ctrl|] == ctrl
            && b[32 + |ctrl|..32 + |ctrl| + |diff|] == diff
            && b[32 + |ctrl| + |diff|..] == extra
  {
    hide Encode;
    var b := Layout(newSize, ctrl, diff, extra);
    assert b[..8] == MAGIC && forall i :: 0 <= i < 8 ==> b[i] == b[..8][i];
    assert b[8..16] == Encode(|ctrl|) && b[16..24] == Encode(|diff|) && b[24..32] == Encode(newSize);
    assert b[32..32 + |ctrl|] == ctrl && b[32 + |ctrl|..32 + |ctrl| + |diff|] == diff;
    assert b[32 + |ctrl| + |diff|..] == extra;
  }

  datatype Parsed = Blocks(newSize: int64, ctrl: seq<byte>, diff: seq<byte>, extra: seq<byte>) | Unreadable(why: Failure)

  /** How `Patch` takes a file apart before it decompresses anything. */
  function Parse(patch: seq<byte>): (p: Parsed)
    ensures p.Blocks? ==> p.newSize >= 0
  {
    if |patch| < 32 then Unreadable(ReadFailed)
    else
      var h := DecodeHeader(patch[..32]);
      if h.magic != MAGIC then Unreadable(Corrupt)
      else if h.ctrlLen < 0 || h.diffLen < 0 || h.newSize < 0 then Unreadable(Corrupt)
      else if |patch| < 32 + h.ctrlLen then Unreadable(ReadFailed)
      else if |patch| < 32 + h.ctrlLen + h.diffLen then Unreadable(ReadFailed)
      else Blocks(h.newSize, patch[32..32 + h.ctrlLen], patch[32 + h.ctrlLen..32 + h.ctrlLen + h.diffLen],
                  patch[32 + h.ctrlLen + h.diffLen..])
  }

  /** Taking a laid-out file apart gives its blocks back. */
  lemma ParseLayout(newSize: int64, ctrl: seq<byte>, diff: seq<byte>, extra: seq<byte>)
    requires |ctrl| < TWO63 && |diff| < TWO63 && newSize >= 0
    ensures Parse(Layout(newSize, ctrl, diff, extra)) == Blocks(newSize, ctrl, diff, extra)
  {
    hide EncodeHeader, DecodeHeader;
    var h := Header(MAGIC, |ctrl|, |diff|, newSize);
    var b := EncodeHeader(h) + ctrl + diff + extra;
    DecodeEncodeHeader(h);
    var m, n := 32 + |ctrl|, 32 + |ctrl| + |diff|;
    assert b[..32] == EncodeHeader(h) && b[32..m] == ctrl && b[m..n] == diff && b[n..] == extra;
  }

  /** A header is what its integers encode to exactly if none of them is spelled as a negative zero. */
  lemma HeaderSpelling(b: seq<byte>)
    requires |b| == 32 && b[..8] == MAGIC
    ensures EncodeHeader(DecodeHeader(b)) == b
            <==> b[8..16] != NEGATIVE_ZERO && b[16..24] != NEGATIVE_ZERO && b[24..] != NEGATIVE_ZERO
  {
    hide Encode, Decode;
    EncodeDecode(b[8..16]);
    EncodeDecode(b[16..24]);
    EncodeDecode(b[24..]);
    var e := EncodeHeader(DecodeHeader(b));
    assert e[..8] == MAGIC && e[8..16] == Encode(Decode(b[8..16]));
    assert e[16..24] == Encode(Decode(b[16..24])) && e[24..] == Encode(Decode(b[24..]));
    assert b == b[..8] + b[8..16] + b[16..24] + b[24..];
  }

  /** A file that can be taken apart is laid out from its blocks, up to the spelling of zero in the header. */
  lemma LayoutParse(patch: seq<byte>)
    requires Parse(patch).Blocks?
    ensures var p := Parse(patch);
            && |p.ctrl| < TWO63 && |p.diff| < TWO63
            && patch[32..] == p.ctrl + p.diff + p.extra
            && DecodeHeader(patch[..32]) == Header(MAGIC, |p.ctrl|, |p.diff|, p.newSize)
    ensures var p := Parse(patch);
            Layout(p.newSize, p.ctrl, p.diff, p.extra) == patch
            <==> patch[8..16] != NEGATIVE_ZERO && patch[16..24] != NEGATIVE_ZERO && patch[24..32] != NEGATIVE_ZERO
  {
    hide EncodeHeader, Decode;
    var head := patch[..32];
    var h := DecodeHeader(head);
    var m, n := 32 + h.ctrlLen, 32 + h.ctrlLen + h.diffLen;
    assert patch[32..] == patch[32..m] + patch[m..n] + patch[n..];
    HeaderSpelling(head);
    assert head[8..16] == patch[8..16] && head[16..24] == patch[16..24] && head[24..] == patch[24..32];
    var p := Parse(patch);
    var l := Layout(p.newSize, p.ctrl, p.diff, p.extra);
    assert l == EncodeHeader(h) + patch[32..];
    assert patch == head + patch[32..];
    assert l[..32] == EncodeHeader(h);
  }
}
