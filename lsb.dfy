/**
 * Least-significant-bit embedding: how one byte or one 32-bit field is hidden in the
 * low bits of a run of carrier bytes, and read back.
 */
module Lsb {
  import opened Bits

  /** `b | 1` when bit is set, `b & ~1` otherwise. */
  function SetLsb(b: byte, bit: bool): (r: byte)
    ensures r % 2 == Bit(bit)
    ensures r / 2 == b / 2
  {
    if bit then b - b % 2 + 1 else b - b % 2
  }

  /** `b & 1`. */
  predicate LowBit(b: byte)
  {
    b % 2 == 1
  }

  /** The low bits of a run of carrier bytes. */
  function LsbBits(s: seq<byte>): (bits: seq<bool>)
    ensures |bits| == |s|
    ensures forall i :: 0 <= i < |s| ==> bits[i] == LowBit(s[i])
  {
    seq(|s|, i requires 0 <= i < |s| => LowBit(s[i]))
  }

  /** The carrier with the low bit of its first |bits| bytes replaced by `bits`. */
  function Embed(carrier: seq<byte>, bits: seq<bool>): (r: seq<byte>)
    requires |bits| <= |carrier|
    ensures |r| == |carrier|
  {
    if bits == [] then carrier
    else [SetLsb(carrier[0], bits[0])] + Embed(carrier[1..], bits[1..])
  }

  /** Byte i of an embedding: its low bit replaced when a bit goes there, otherwise as it was. */
  lemma {:induction false} EmbedAt(carrier: seq<byte>, bits: seq<bool>, i: nat)
    requires |bits| <= |carrier| && i < |carrier|
    ensures Embed(carrier, bits)[i] == if i < |bits| then SetLsb(carrier[i], bits[i]) else carrier[i]
  {
    if bits != [] && i > 0 {
      EmbedAt(carrier[1..], bits[1..], i - 1);
    }
  }

  /** Only the low bits change, the first |bits| of them become `bits`, the rest stay. */
  lemma EmbedSpec(carrier: seq<byte>, bits: seq<bool>)
    requires |bits| <= |carrier|
    ensures LsbBits(Embed(carrier, bits)[..|bits|]) == bits
    ensures Embed(carrier, bits)[|bits|..] == carrier[|bits|..]
    ensures forall i :: 0 <= i < |carrier| ==> Embed(carrier, bits)[i] / 2 == carrier[i] / 2
  {
    forall i | 0 <= i < |carrier| {
      EmbedAt(carrier, bits, i);
    }
  }

  /** When a bit goes to every byte, the low bits of the embedding are the bits. */
  lemma EmbedLowBits(carrier: seq<byte>, bits: seq<bool>)
    requires |bits| == |carrier|
    ensures LsbBits(Embed(carrier, bits)) == bits
  {
    EmbedSpec(carrier, bits);
    assert Embed(carrier, bits)[..|bits|] == Embed(carrier, bits);
  }

  /** Embedding distributes over consecutive runs of carrier and bits. */
  lemma {:induction false} EmbedConcat(c1: seq<byte>, b1: seq<bool>, c2: seq<byte>, b2: seq<bool>)
    requires |b1| == |c1| && |b2| <= |c2|
    ensures Embed(c1 + c2, b1 + b2) == Embed(c1, b1) + Embed(c2, b2)
  {
    if b1 == [] {
      assert c1 + c2 == c2 && b1 + b2 == b2;
    } else {
      assert (c1 + c2)[1..] == c1[1..] + c2 && (b1 + b2)[1..] == b1[1..] + b2;
      EmbedConcat(c1[1..], b1[1..], c2, b2);
    }
  }

  /** Embedding into a run of the carrier, split at b into two neighbouring runs. */
  lemma EmbedSplit(src: seq<byte>, a: nat, b: nat, c: nat, b1: seq<bool>, b2: seq<bool>)
    requires a <= b <= c <= |src| && |b1| == b - a && |b2| == c - b
    ensures Embed(src[a..c], b1 + b2) == Embed(src[a..b], b1) + Embed(src[b..c], b2)
  {
    assert src[a..c] == src[a..b] + src[b..c];
    EmbedConcat(src[a..b], b1, src[b..c], b2);
  }

  /**
   * `encode_byte_to_lsb`: for width 32 or 8, writes bit i of the promoted char, for
   * i from width-1 down to 0, into the low bit of buffer[width-1-i]; any other width
   * fails and leaves the buffer alone. The two branches of the C code differ only in
   * their bit count, so one loop serves both.
   */
  method EncodeByteToLsb(data: byte, buffer: array<byte>, width: int) returns (ok: bool)
    requires width == 8 || width == 32 ==> width <= buffer.Length
    modifies buffer
    ensures ok == (width == 8 || width == 32)
    ensures ok ==> buffer[..] == Embed(old(buffer[..]), PackedBits(Promote(data), width))
    ensures !ok ==> buffer[..] == old(buffer[..])
  {
    if width != 32 && width != 8 {
      return false;
    }
    var u := Promote(data);
    ghost var bits := PackedBits(u, width);
    var j := 0;
    var i := width - 1;
    while i >= 0
      invariant -1 <= i < width && j == width - 1 - i
      invariant forall k :: 0 <= k < j ==> buffer[k] == SetLsb(old(buffer[k]), bits[k])
      invariant forall k :: j <= k < buffer.Length ==> buffer[k] == old(buffer[k])
    {
      var bit := BitAt(u, i);
      PackedBitsAt(u, width, j);
      buffer[j] := SetLsb(buffer[j], bit);
      j := j + 1;
      i := i - 1;
    }
    forall k | 0 <= k < buffer.Length
      ensures buffer[k] == Embed(old(buffer[..]), bits)[k]
    {
      EmbedAt(old(buffer[..]), bits, k);
    }
    return true;
  }

  /**
   * Byte j of the buffer after `encode_byte_to_lsb` at a width w: below w, its low bit
   * is bit w-1-j of the promoted char and its other bits are unchanged; from w on, the
   * byte is untouched.
   */
  lemma EncodedByteAt(carrier: seq<byte>, data: byte, width: nat, j: nat)
    requires width <= |carrier| && j < |carrier|
    ensures var r := Embed(carrier, PackedBits(Promote(data), width));
      && (j < width ==> (LowBit(r[j]) <==> BitAt(Promote(data), width - 1 - j)) && r[j] / 2 == carrier[j] / 2)
      && (j >= width ==> r[j] == carrier[j])
  {
    EmbedAt(carrier, PackedBits(Promote(data), width), j);
    if j < width {
      PackedBitsAt(Promote(data), width, j);
    }
  }

  /** Two lengths equal modulo 256 are hidden as the same 32 carrier bytes. */
  lemma FieldModulo(carrier: seq<byte>, v: int, w: int)
    requires |carrier| >= 32 && (v - w) % 256 == 0
    ensures Embed(carrier, PackedBits(Promote(Narrow(v)), 32)) == Embed(carrier, PackedBits(Promote(Narrow(w)), 32))
  {
    assert Narrow(v) == Narrow(w);
  }

  /** The byte whose bits, most significant first, are the low bits of the first 8 bytes. */
  function CharOf(buffer: seq<byte>): (c: byte)
    requires |buffer| >= 8
    ensures PackedBits(c, 8) == LsbBits(buffer[..8])
  {
    AssembleBound(LsbBits(buffer[..8]));
    PackedAssemble(LsbBits(buffer[..8]));
    Assemble(LsbBits(buffer[..8]))
  }

  /** The signed 32-bit value whose bits are the low bits of the first 32 bytes. */
  function IntOf(buffer: seq<byte>): (v: int)
    requires |buffer| >= 32
    ensures -0x8000_0000 <= v < 0x8000_0000
    ensures PackedBits((v + WORD) % WORD, 32) == LsbBits(buffer[..32])
  {
    AssembleWord(LsbBits(buffer[..32]));
    PackedAssemble(LsbBits(buffer[..32]));
    Signed32Word(Assemble(LsbBits(buffer[..32])));
    Signed32(Assemble(LsbBits(buffer[..32])))
  }

  /**
   * `decode_char_bytes_from_lsb`: ORs the low bit of buffer[j] into bit 7-j of the
   * result. The char's bit pattern is returned as a byte.
   */
  method DecodeCharBytesFromLsb(buffer: seq<byte>) returns (ch: byte)
    requires |buffer| >= 8
    ensures ch == CharOf(buffer)
  {
    var acc: nat := 0;
    var j := 0;
    var i := 7;
    ghost var bits := LsbBits(buffer[..8]);
    while i >= 0
      invariant -1 <= i <= 7 && j == 7 - i
      invariant acc == Assemble(bits[..j]) * Pow2(i + 1)
    {
      var bit := buffer[j] % 2;
      assert bit == Bit(bits[j]);
      AccumulateStep(bits, j, i, acc, bit);
      acc := Or(acc, bit * Pow2(i));
      j := j + 1;
      i := i - 1;
    }
    assert i + 1 == 0 && bits[..j] == bits;
    Unshifted(acc, Assemble(bits), Pow2(i + 1));
    AssembleBound(bits);
    Pow2Values();
    ch := acc;
  }

  /**
   * `decode_int_bytes_from_lsb`: ORs the low bit of buffer[j] into bit 31-j of a
   * 32-bit `int`.
   */
  method DecodeIntBytesFromLsb(buffer: seq<byte>) returns (v: int)
    requires |buffer| >= 32
    ensures v == IntOf(buffer)
  {
    var acc: nat := 0;
    var j := 0;
    var i := 31;
    ghost var bits := LsbBits(buffer[..32]);
    while i >= 0
      invariant -1 <= i <= 31 && j == 31 - i
      invariant acc == Assemble(bits[..j]) * Pow2(i + 1)
    {
      var bit := buffer[j] % 2;
      assert bit == Bit(bits[j]);
      AccumulateStep(bits, j, i, acc, bit);
      acc := Or(acc, bit * Pow2(i));
      j := j + 1;
      i := i - 1;
    }
    assert i + 1 == 0 && bits[..j] == bits;
    Unshifted(acc, Assemble(bits), Pow2(i + 1));
    AssembleWord(bits);
    v := Signed32(acc);
  }

  lemma AssembleWord(bits: seq<bool>)
    requires |bits| == 32
    ensures Assemble(bits) < WORD
  {
    AssembleBound(bits);
    Pow2Values();
  }

  lemma Unshifted(acc: int, a: int, p: int)
    requires p == 1 && acc == a * p
    ensures acc == a
  {
  }

  /** A byte embedded at width 8 reads back unchanged, whatever the carrier. */
  lemma CharRoundTrip(carrier: seq<byte>, b: byte)
    requires |carrier| >= 8
    ensures CharOf(Embed(carrier, PackedBits(b, 8))) == b
    ensures CharOf(Embed(carrier, PackedBits(Promote(b), 8))) == b
  {
    var bits := PackedBits(b, 8);
    EmbedSpec(carrier, bits);
    Pow2Values();
    AssemblePacked(b, 8);
    PromotedBits(b);
  }

  /**
   * A length embedded at width 32 reads back as the signed char it was narrowed to,
   * so it reads back unchanged exactly when it lies in -128..127.
   */
  lemma IntRoundTrip(carrier: seq<byte>, v: int)
    requires |carrier| >= 32
    ensures IntOf(Embed(carrier, PackedBits(Promote(Narrow(v)), 32))) == SignedChar(Narrow(v))
    ensures IntOf(Embed(carrier, PackedBits(Promote(Narrow(v)), 32))) == v <==> -128 <= v < 128
  {
    var b := Narrow(v);
    var u := Promote(b);
    var bits := PackedBits(u, 32);
    var s := Embed(carrier, bits);
    EmbedSpec(carrier, bits);
    assert s[..32] == s[..|bits|];
    Pow2Values();
    AssemblePacked(u, 32);
    assert Assemble(LsbBits(s[..32])) == u;
    SignExtension(b);
    NarrowSigned(v);
  }

  /** A sign-extended char read as a 32-bit `int` is the char's signed value. */
  lemma SignExtension(b: byte)
    ensures Signed32(Promote(b)) == SignedChar(b)
  {
    Pow2Values();
  }

  /** An `int` survives the trip through a signed `char` exactly when it fits in one. */
  lemma NarrowSigned(v: int)
    ensures SignedChar(Narrow(v)) == v <==> -128 <= v < 128
  {
  }

  /** Reading depends on nothing but the low bits of the bytes read. */
  lemma ReadsOnlyLowBits(x: seq<byte>, y: seq<byte>)
    requires |x| >= 32 && |y| >= 32
    requires LsbBits(x[..32]) == LsbBits(y[..32])
    ensures IntOf(x) == IntOf(y)
    ensures CharOf(x) == CharOf(y)
  {
    assert LsbBits(x[..8]) == LsbBits(x[..32])[..8];
    assert LsbBits(y[..8]) == LsbBits(y[..32])[..8];
  }
}
