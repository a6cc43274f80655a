/** The sign-magnitude little-endian encoding of 64-bit integers. */
module Encoding {
  import opened Lex
  import opened Interp

  function Pow256(k: nat): (p: nat)
    ensures p > 0
  {
    if k == 0 then 1 else 256 * Pow256(k - 1)
  }

  /** The k low-order bytes of x, least significant first. */
  function LittleEndian(x: int, k: nat): (b: seq<byte>)
    ensures |b| == k
    decreases k
  {
    if k == 0 then [] else [x % 256] + LittleEndian(x / 256, k - 1)
  }

  function FromLittleEndian(b: seq<byte>): nat
  {
    if b == [] then 0 else b[0] as int + 256 * FromLittleEndian(b[1..])
  }

  lemma {:induction false} LittleEndianInverse(x: nat, k: nat)
    requires x < Pow256(k)
    ensures FromLittleEndian(LittleEndian(x, k)) == x
    decreases k
  {
    if k > 0 {
      LittleEndianInverse(x / 256, k - 1);
      assert LittleEndian(x, k)[1..] == LittleEndian(x / 256, k - 1);
    }
  }

  lemma LowByte(x: byte, y: nat)
    ensures (x as int + 256 * y) % 256 == x && (x as int + 256 * y) / 256 == y
  {}

  lemma {:induction false} FromLittleEndianInverse(b: seq<byte>)
    ensures FromLittleEndian(b) < Pow256(|b|)
    ensures LittleEndian(FromLittleEndian(b), |b|) == b
  {
    if b != [] {
      FromLittleEndianInverse(b[1..]);
      LowByte(b[0], FromLittleEndian(b[1..]));
      assert b == [b[0]] + b[1..];
    }
  }

  /** The magnitude that PutUint64 writes: in 64 bits, negating -2^63 gives -2^63 again. */
  function Magnitude(v: int64): int64
  {
    if v < 0 then Wrap64(-(v as int)) else v
  }

  /** The eight bytes of v: its magnitude, with the sign in the top bit. */
  function Encode(v: int64): (b: seq<byte>)
    ensures |b| == 8
  {
    var b := LittleEndian(Magnitude(v), 8);
    if v < 0 then b[7 := SetTopBit(b[7])] else b
  }

  function SetTopBit(x: byte): byte
  {
    if x < 128 then x + 128 else x
  }

  /** The number in the low 63 bits of eight bytes. */
  function Low63(b: seq<byte>): (y: nat)
    requires |b| == 8
    ensures y < TWO63
  {
    (b[0] as int) + (b[1] as int) * 0x100 + (b[2] as int) * 0x1_0000 + (b[3] as int) * 0x100_0000
    + (b[4] as int) * 0x1_0000_0000 + (b[5] as int) * 0x100_0000_0000
    + (b[6] as int) * 0x1_0000_0000_0000 + (b[7] as int % 128) * 0x100_0000_0000_0000
  }

  /** The integer of eight bytes: the low 63 bits, negated when the top bit is set. */
  function Decode(b: seq<byte>): int64
    requires |b| == 8
  {
    if b[7] >= 128 then -(Low63(b) as int) else Low63(b)
  }

  const NEGATIVE_ZERO: seq<byte> := [0, 0, 0, 0, 0, 0, 0, 128]

  lemma Pow8()
    ensures Pow256(8) == TWO64
  {
    assert Pow256(2) == 0x1_0000;
    assert Pow256(4) == 0x1_0000_0000;
    assert Pow256(6) == 0x1_0000_0000_0000;
  }

  /** The value of eight bytes, each with its own weight. */
  lemma EightBytes(b: seq<byte>)
    requires |b| == 8
    ensures FromLittleEndian(b)
            == (b[0] as int) + (b[1] as int) * 0x100 + (b[2] as int) * 0x1_0000 + (b[3] as int) * 0x100_0000
               + (b[4] as int) * 0x1_0000_0000 + (b[5] as int) * 0x100_0000_0000
               + (b[6] as int) * 0x1_0000_0000_0000 + (b[7] as int) * 0x100_0000_0000_0000
  {
    assert b[6..] == [b[6], b[7]];
    TwoBytes(b[6], b[7]);
    assert b[4..] == [b[4]] + b[5..] && b[5..] == [b[5]] + b[6..];
    assert FromLittleEndian(b[4..]) == (b[4] as int) + 0x100 * (b[5] as int) + 0x1_0000 * FromLittleEndian(b[6..]);
    assert b[2..] == [b[2]] + b[3..] && b[3..] == [b[3]] + b[4..];
    assert FromLittleEndian(b[2..]) == (b[2] as int) + 0x100 * (b[3] as int) + 0x1_0000 * FromLittleEndian(b[4..]);
    assert b == [b[0]] + b[1..] && b[1..] == [b[1]] + b[2..];
    assert FromLittleEndian(b) == (b[0] as int) + 0x100 * (b[1] as int) + 0x1_0000 * FromLittleEndian(b[2..]);
  }

  lemma TwoBytes(x: byte, y: byte)
    ensures FromLittleEndian([x, y]) == x as int + 0x100 * (y as int)
  {
    assert [x, y][1..] == [y] && [y][1..] == [];
    assert FromLittleEndian([y]) == y;
  }

  /** The low 63 bits are the little-endian number without the top bit. */
  lemma Low63Is(b: seq<byte>)
    requires |b| == 8
    ensures Low63(b) == FromLittleEndian(b[7 := b[7] % 128])
  {
    EightBytes(b[7 := b[7] % 128]);
  }

  /** The bytes of a magnitude below 2^63 leave the top bit free. */
  lemma TopBitFree(x: nat)
    requires x < TWO63
    ensures LittleEndian(x, 8)[7] < 128
    ensures FromLittleEndian(LittleEndian(x, 8)) == x
  {
    Pow8();
    LittleEndianInverse(x, 8);
    EightBytes(LittleEndian(x, 8));
  }

  lemma Shifted(x: int, k: nat)
    ensures LittleEndian(256 * x, k + 1) == [0] + LittleEndian(x, k)
  {}

  lemma OneByte(x: int)
    ensures LittleEndian(x, 1) == [x % 256]
  {}

  lemma EncodeLeast()
    ensures Encode(-TWO63) == NEGATIVE_ZERO && Decode(NEGATIVE_ZERO) == 0
    ensures LittleEndian(0, 8) == [0, 0, 0, 0, 0, 0, 0, 0]
  {
    hide LittleEndian;
    OneByte(-128);
    Shifted(-0x80, 1);
    Shifted(-0x8000, 2);
    Shifted(-0x80_0000, 3);
    Shifted(-0x8000_0000, 4);
    Shifted(-0x80_0000_0000, 5);
    Shifted(-0x8000_0000_0000, 6);
    Shifted(-0x80_0000_0000_0000, 7);
    OneByte(0);
    Shifted(0, 1);
    Shifted(0, 2);
    Shifted(0, 3);
    Shifted(0, 4);
    Shifted(0, 5);
    Shifted(0, 6);
    Shifted(0, 7);
  }

  /** Setting the top bit of a free byte and masking it out again changes nothing. */
  lemma TopBitMasked(b: seq<byte>)
    requires |b| == 8 && b[7] < 128
    ensures var e := b[7 := SetTopBit(b[7])]; e[7] >= 128 && e[7 := e[7] % 128] == b
    ensures b[7 := b[7] % 128] == b
  {}

  lemma NegativeZeroIsZero()
    ensures Low63(NEGATIVE_ZERO) == 0
  {}

  /** The top bit of the encoding is the sign, and the other 63 bits are the magnitude. */
  lemma EncodeSignMagnitude(v: int64)
    ensures Encode(v)[7] >= 128 <==> v < 0
    ensures v != -TWO63 ==>
              var b := Encode(v); FromLittleEndian(b[7 := b[7] % 128]) == if v < 0 then -(v as int) else v
    ensures v == -TWO63 ==> Encode(v) == [0, 0, 0, 0, 0, 0, 0, 128]
  {
    hide LittleEndian, FromLittleEndian, SetTopBit, Low63;
    if v == -TWO63 {
      EncodeLeast();
    } else {
      var x: nat := if v < 0 then -(v as int) else v;
      assert Magnitude(v) == x;
      TopBitFree(x);
      TopBitMasked(LittleEndian(x, 8));
    }
  }

  /** A set top bit makes the number negative or zero, and the other 63 bits are its magnitude. */
  lemma DecodeSignMagnitude(b: seq<byte>)
    requires |b| == 8
    ensures var y := FromLittleEndian(b[7 := b[7] % 128]); Decode(b) == if b[7] >= 128 then -(y as int) else y
  {
    Low63Is(b);
  }

  /** Decoding an encoded integer gives it back, unless it is -2^63, which reads as 0. */
  lemma DecodeEncode(v: int64)
    ensures Decode(Encode(v)) == if v == -TWO63 then 0 else v
    ensures Decode(Encode(v)) == v <==> v != -TWO63
  {
    hide LittleEndian, FromLittleEndian, SetTopBit, Low63;
    if v == -TWO63 {
      EncodeLeast();
    } else {
      var x: nat := if v < 0 then -(v as int) else v;
      assert Magnitude(v) == x;
      var b := LittleEndian(x, 8);
      TopBitFree(x);
      TopBitMasked(b);
      Low63Is(Encode(v));
    }
  }

  /** Encoding a decoded integer gives the bytes back, unless they are the negative zero. */
  lemma EncodeDecode(b: seq<byte>)
    requires |b| == 8
    ensures Encode(Decode(b)) == b <==> b != NEGATIVE_ZERO
  {
    hide LittleEndian, FromLittleEndian, Low63;
    var c := b[7 := b[7] % 128];
    var y := Low63(b);
    Low63Is(b);
    FromLittleEndianInverse(c);
    EncodeLeast();
    if b[7] < 128 {
      assert c == b;
    } else {
      assert b == c[7 := SetTopBit(c[7])];
      if y > 0 {
        assert Magnitude(-(y as int)) == y;
        NegativeZeroIsZero();
      } else {
        assert c == [0, 0, 0, 0, 0, 0, 0, 0];
        assert b == NEGATIVE_ZERO;
      }
    }
  }

  /** Different integers have different encodings; only -2^63 is encoded as a negative zero. */
  lemma EncodeInjective(v: int64, w: int64)
    requires Encode(v) == Encode(w)
    ensures v == w || {v, w} == {0, -TWO63}
  {
    DecodeEncode(v);
    DecodeEncode(w);
  }

  // ---- The array code --------------------------------------------------------------------------

  lemma BytesOf2(x: int)
    ensures LittleEndian(x, 2) == [x % 256, x / 0x100 % 256]
  {
    assert LittleEndian(x / 0x100, 1) == [x / 0x100 % 256];
  }

  lemma Unfold2(x: int, k: nat)
    ensures LittleEndian(x, k + 2) == LittleEndian(x, 2) + LittleEndian(x / 0x1_0000, k)
  {
    BytesOf2(x);
    assert x / 0x100 / 0x100 == x / 0x1_0000;
    assert LittleEndian(x, k + 2) == [x % 256] + LittleEndian(x / 0x100, k + 1);
    assert LittleEndian(x / 0x100, k + 1) == [x / 0x100 % 256] + LittleEndian(x / 0x100 / 0x100, k);
  }

  /** The eight bytes, each by its own shift. */
  lemma BytesOf(x: int)
    ensures LittleEndian(x, 8) == [x % 256, x / 0x100 % 256, x / 0x1_0000 % 256, x / 0x100_0000 % 256,
                                   x / 0x1_0000_0000 % 256, x / 0x100_0000_0000 % 256,
                                   x / 0x1_0000_0000_0000 % 256, x / 0x100_0000_0000_0000 % 256]
  {
    hide LittleEndian;
    Unfold2(x, 6);
    Unfold2(x / 0x1_0000, 4);
    Unfold2(x / 0x1_0000_0000, 2);
    ShiftTwice(x);
    BytesOf2(x);
    BytesOf2(x / 0x1_0000);
    BytesOf2(x / 0x1_0000_0000);
    BytesOf2(x / 0x1_0000_0000_0000);
  }

  lemma ShiftTwice(x: int)
    ensures x / 0x1_0000 / 0x1_0000 == x / 0x1_0000_0000
    ensures x / 0x1_0000_0000 / 0x1_0000 == x / 0x1_0000_0000_0000
    ensures x / 0x1_0000 / 0x100 == x / 0x100_0000
    ensures x / 0x1_0000_0000 / 0x100 == x / 0x100_0000_0000
    ensures x / 0x1_0000_0000_0000 / 0x100 == x / 0x100_0000_0000_0000
  {}

  /** Writes v to the first eight bytes of b. */
  method PutUint64(b: array<byte>, v: int64)
    requires b.Length >= 8
    modifies b
    ensures b[..8] == Encode(v)
    ensures b[7] >= 128 <==> v < 0
    ensures v != -TWO63 ==> FromLittleEndian(b[..8][7 := b[7] % 128]) == if v < 0 then -(v as int) else v
    ensures b[8..] == old(b[8..])
  {
    hide LittleEndian, FromLittleEndian;
    var x := v;
    var neg := x < 0;
    if neg {
      x := Wrap64(-(x as int));
    }
    b[0] := x % 256;
    b[1] := x / 0x100 % 256;
    b[2] := x / 0x1_0000 % 256;
    b[3] := x / 0x100_0000 % 256;
    b[4] := x / 0x1_0000_0000 % 256;
    b[5] := x / 0x100_0000_0000 % 256;
    b[6] := x / 0x1_0000_0000_0000 % 256;
    b[7] := x / 0x100_0000_0000_0000 % 256;
    BytesOf(x);
    if neg {
      b[7] := SetTopBit(b[7]);
    }
    EncodeSignMagnitude(v);
    assert b[7] == b[..8][7];
  }
}
