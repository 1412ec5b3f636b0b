/**
 * The layout the encoder hides after the 54-byte BMP header, one bit per carrier byte:
 *
 *   magic "#*"         2 chars,   8 carrier bytes each
 *   extension length   1 field,  32 carrier bytes
 *   extension          e chars,   8 carrier bytes each
 *   secret file size   1 field,  32 carrier bytes
 *   secret file data   n chars,   8 carrier bytes each
 *
 * Every char and every field is written most significant bit first. A length field
 * is the `int` length passed through a `char` parameter, so it carries only the low
 * eight bits of the length, sign-extended.
 */
module Frame {
  import opened Bits
  import opened Lsb

  const HEADER_SIZE: nat := 54

  /** The signature "#*". */
  const MAGIC: seq<byte> := [0x23, 0x2A]

  /** The bytes of a C string: no NUL inside, so `strlen` is the length. */
  predicate NoNul(s: seq<byte>)
  {
    forall i :: 0 <= i < |s| ==> s[i] != 0
  }

  /** The bits written for a run of chars: eight per char, most significant first. */
  function ByteBits(data: seq<byte>): (bits: seq<bool>)
    ensures |bits| == 8 * |data|
  {
    if data == [] then [] else ByteBits(data[..|data| - 1]) + PackedBits(data[|data| - 1], 8)
  }

  /** The bits written for a length field: the 32 bits of the promoted narrowed value. */
  function FieldBits(v: int): (bits: seq<bool>)
    ensures |bits| == 32
  {
    PackedBits(Promote(Narrow(v)), 32)
  }

  /** Number of carrier bytes a frame with an e-char extension and n data bytes takes. */
  function FrameSize(e: nat, n: nat): nat
  {
    (|MAGIC| + 4 + e + 4 + n) * 8
  }

  /** The first three parts: the magic, the extension length and the extension. */
  function HeadBits(ext: seq<byte>): (bits: seq<bool>)
    ensures |bits| == 8 * |MAGIC| + 32 + 8 * |ext|
  {
    ByteBits(MAGIC) + FieldBits(|ext|) + ByteBits(ext)
  }

  /** The last two parts: the secret file size and the secret file data. */
  function TailBits(data: seq<byte>): (bits: seq<bool>)
    ensures |bits| == 32 + 8 * |data|
  {
    FieldBits(|data|) + ByteBits(data)
  }

  function FrameBits(ext: seq<byte>, data: seq<byte>): (bits: seq<bool>)
    ensures |bits| == FrameSize(|ext|, |data|)
  {
    HeadBits(ext) + TailBits(data)
  }

  // Offsets in the carrier where each part of the frame ends.
  function MagicEnd(): nat { HEADER_SIZE + 8 * |MAGIC| }
  function ExtnSizeEnd(): nat { MagicEnd() + 32 }
  function ExtnEnd(e: nat): nat { ExtnSizeEnd() + 8 * e }
  function FileSizeEnd(e: nat): nat { ExtnEnd(e) + 32 }
  function DataEnd(e: nat, n: nat): (end: nat)
    ensures end == HEADER_SIZE + FrameSize(e, n)
  {
    FileSizeEnd(e) + 8 * n
  }

  /** The chars read back from a run of carrier bytes, eight bytes per char. */
  function Chars(s: seq<byte>): (r: seq<byte>)
    requires |s| % 8 == 0
    ensures |r| == |s| / 8
  {
    if s == [] then [] else Chars(s[..|s| - 8]) + [CharOf(s[|s| - 8..|s|])]
  }

  /**
   * Where `fread` leaves the cursor of a file of `len` bytes after asking for n bytes
   * at `pos`: n further on when they are all there, otherwise at the end of the file,
   * or where it was when it already stood past the end.
   */
  function ReadEnd(len: nat, pos: nat, n: nat): (end: nat)
    ensures pos + n <= len ==> end == pos + n
    ensures pos + n > len ==> end == if pos <= len then len else pos
  {
    if pos + n <= len then pos + n else if pos <= len then len else pos
  }

  lemma {:induction false} ByteBitsConcat(a: seq<byte>, b: seq<byte>)
    ensures ByteBits(a + b) == ByteBits(a) + ByteBits(b)
  {
    if b != [] {
      var last := |b| - 1;
      assert (a + b)[..|a + b| - 1] == a + b[..last];
      ByteBitsConcat(a, b[..last]);
    } else {
      assert a + b == a;
    }
  }

  /** Chars of a run extended by one more group of eight. */
  lemma CharsSnoc(s: seq<byte>, t: seq<byte>)
    requires |s| % 8 == 0 && |t| == 8
    ensures Chars(s + t) == Chars(s) + [CharOf(t)]
  {
    assert (s + t)[..|s + t| - 8] == s;
    assert (s + t)[|s + t| - 8..|s + t|] == t;
  }

  /** Reading chars from carrier bytes that hold a run of chars gives the run back. */
  lemma {:induction false} CharsOfEmbedded(carrier: seq<byte>, data: seq<byte>)
    requires |carrier| == 8 * |data|
    ensures Chars(Embed(carrier, ByteBits(data))) == data
  {
    if data == [] {
      assert Embed(carrier, ByteBits(data)) == [];
    } else {
      var n := |data| - 1;
      var init, last := data[..n], data[n];
      var c1, c2 := carrier[..8 * n], carrier[8 * n..];
      var x, y := Embed(c1, ByteBits(init)), Embed(c2, PackedBits(last, 8));
      EmbedBytesSnoc(carrier, data);
      assert Chars(x + y) == init + [last] by {
        CharsOfEmbedded(c1, init);
        CharRoundTrip(c2, last);
        CharsSnoc(x, y);
      }
      assert data == init + [last];
    }
  }

  /** The carrier of a run of chars is the carrier of all but the last, then the last's eight bytes. */
  lemma EmbedBytesSnoc(carrier: seq<byte>, data: seq<byte>)
    requires |carrier| == 8 * |data| && data != []
    ensures var n := |data| - 1;
      Embed(carrier, ByteBits(data))
      == Embed(carrier[..8 * n], ByteBits(data[..n])) + Embed(carrier[8 * n..], PackedBits(data[n], 8))
  {
    var n := |data| - 1;
    var c1, c2 := carrier[..8 * n], carrier[8 * n..];
    assert carrier == c1 + c2;
    EmbedConcat(c1, ByteBits(data[..n]), c2, PackedBits(data[n], 8));
  }
}
