/**
 * Decoding a stego image the encoder produced. The length fields carry only the low
 * byte of each length, read back as a signed `char`: the extension and the secret
 * come back whole only when their lengths are below 128.
 */
module RoundTrip {
  import opened Status
  import opened Bits
  import opened Lsb
  import opened Frame
  import opened Encoding
  import opened Decoding

  /**
   * What decoding recovers of a secret of n bytes: the first n mod 256 bytes when that
   * count reads back as a non-negative `char`, and nothing otherwise.
   */
  function Recovered(data: seq<byte>): (r: seq<byte>)
    ensures |r| <= |data|
  {
    if |data| % 256 < 128 then data[..|data| % 256] else []
  }

  /**
   * The count the decoder's loop runs for a length field holding n: n mod 256 when
   * that reads back as a non-negative `char`, and none otherwise; the recovered bytes
   * are that many first bytes of the secret.
   */
  lemma RecoveredCount(data: seq<byte>)
    ensures LoopCount(SignedChar(Narrow(|data|))) <= |data|
    ensures Recovered(data) == data[..LoopCount(SignedChar(Narrow(|data|)))]
  {
    var n := |data|;
    assert n % 256 <= n;
    if n % 256 >= 128 {
      assert data[..0] == [];
    }
  }

  /** The whole secret comes back exactly when it is shorter than 128 bytes. */
  lemma RecoveredWhole(data: seq<byte>)
    ensures Recovered(data) == data <==> |data| < 128
  {
    if |data| >= 128 && |data| % 256 < 128 {
      assert |data| % 256 < |data|;
      assert |Recovered(data)| < |data|;
    }
  }

  /** The two halves of a run of carrier bytes hiding two runs of bits one after the other. */
  lemma SplitRegion(img: seq<byte>, src: seq<byte>, a: nat, m: nat, b: nat, bits: seq<bool>, b1: seq<bool>, b2: seq<bool>)
    requires a <= m <= b <= |img| && b <= |src| && |b1| == m - a && |b2| == b - m
    requires bits == b1 + b2 && img[a..b] == Embed(src[a..b], bits)
    ensures img[a..m] == Embed(src[a..m], b1)
    ensures img[m..b] == Embed(src[m..b], b2)
  {
    EmbedSplit(src, a, m, b, b1, b2);
    SliceHalves(img, a, m, b, Embed(src[a..m], b1), Embed(src[m..b], b2));
  }

  lemma SliceHalves<T>(s: seq<T>, a: nat, m: nat, b: nat, x: seq<T>, y: seq<T>)
    requires a <= m <= b <= |s| && |x| == m - a && s[a..b] == x + y
    ensures s[a..m] == x && s[m..b] == y
  {
    assert s[a..m] == s[a..b][..m - a];
    assert s[m..b] == s[a..b][m - a..];
  }

  /**
   * Reading k chars at p from image bytes p..q that hide a run of chars in the
   * carrier's bytes p..q gives the run's first k chars.
   */
  lemma ReadPrefix(img: seq<byte>, src: seq<byte>, p: nat, q: nat, data: seq<byte>, k: nat)
    requires k <= |data| && q == p + 8 * |data| && q <= |img| && q <= |src|
    requires img[p..q] == Embed(src[p..q], ByteBits(data))
    ensures ReadChars(img, p, k) == data[..k]
  {
    ReadCharsFit(img, p, k);
    assert img[p..p + 8 * k] == img[p..q][..8 * k];
    EmbedPrefix(src[p..q], data, k);
    CharsOfEmbedded(src[p..q][..8 * k], data[..k]);
  }

  /** Reading a length field from bytes that hide one gives the length's low byte as a signed char. */
  lemma ReadField(img: seq<byte>, src: seq<byte>, p: nat, q: nat, v: int)
    requires q == p + 32 && q <= |img| && q <= |src|
    requires img[p..q] == Embed(src[p..q], FieldBits(v))
    ensures IntOf(img[p..q]) == SignedChar(Narrow(v))
  {
    IntRoundTrip(src[p..q], v);
  }

  /** The magic hidden by the encoder passes the decoder's comparison. */
  lemma MagicAccepted()
    ensures MagicMatches(MAGIC)
  {
    assert UpToNul(MAGIC) == [MAGIC[0]] + UpToNul(MAGIC[1..]);
    assert UpToNul(MAGIC[1..]) == [MAGIC[1]] + UpToNul([]);
  }

  /**
   * The frame region of a stego image, cut into its five parts: the magic, the
   * extension length, the extension, the secret size and the secret.
   */
  lemma FrameParts(img: seq<byte>, src: seq<byte>, ext: seq<byte>, secret: seq<byte>)
    requires DataEnd(|ext|, |secret|) <= |img| && DataEnd(|ext|, |secret|) <= |src|
    requires img[HEADER_SIZE..DataEnd(|ext|, |secret|)]
          == Embed(src[HEADER_SIZE..DataEnd(|ext|, |secret|)], FrameBits(ext, secret))
    ensures img[HEADER_SIZE..MagicEnd()] == Embed(src[HEADER_SIZE..MagicEnd()], ByteBits(MAGIC))
    ensures img[MagicEnd()..ExtnSizeEnd()] == Embed(src[MagicEnd()..ExtnSizeEnd()], FieldBits(|ext|))
    ensures img[ExtnSizeEnd()..ExtnEnd(|ext|)] == Embed(src[ExtnSizeEnd()..ExtnEnd(|ext|)], ByteBits(ext))
    ensures img[ExtnEnd(|ext|)..FileSizeEnd(|ext|)]
         == Embed(src[ExtnEnd(|ext|)..FileSizeEnd(|ext|)], FieldBits(|secret|))
    ensures img[FileSizeEnd(|ext|)..DataEnd(|ext|, |secret|)]
         == Embed(src[FileSizeEnd(|ext|)..DataEnd(|ext|, |secret|)], ByteBits(secret))
  {
    var x, d := ExtnEnd(|ext|), DataEnd(|ext|, |secret|);
    SplitRegion(img, src, HEADER_SIZE, x, d, FrameBits(ext, secret), HeadBits(ext), TailBits(secret));
    SplitRegion(img, src, HEADER_SIZE, ExtnSizeEnd(), x, HeadBits(ext), ByteBits(MAGIC) + FieldBits(|ext|), ByteBits(ext));
    SplitRegion(img, src, HEADER_SIZE, MagicEnd(), ExtnSizeEnd(), ByteBits(MAGIC) + FieldBits(|ext|), ByteBits(MAGIC), FieldBits(|ext|));
    SplitRegion(img, src, x, FileSizeEnd(|ext|), d, TailBits(secret), FieldBits(|secret|), ByteBits(secret));
  }

  /** The first k chars of a hidden run are hidden in its first 8k bytes. */
  lemma EmbedPrefix(carrier: seq<byte>, data: seq<byte>, k: nat)
    requires k <= |data|
    requires |carrier| == 8 * |data|
    ensures Embed(carrier, ByteBits(data))[..8 * k] == Embed(carrier[..8 * k], ByteBits(data[..k]))
  {
    var c1, c2 := carrier[..8 * k], carrier[8 * k..];
    var b1, b2 := ByteBits(data[..k]), ByteBits(data[k..]);
    assert ByteBits(data) == b1 + b2 by {
      assert data == data[..k] + data[k..];
      ByteBitsConcat(data[..k], data[k..]);
    }
    assert carrier == c1 + c2;
    EmbedConcat(c1, b1, c2, b2);
  }

  /** What the decoder's reads see in the frame region of a stego image. */
  lemma FrameReads(img: seq<byte>, src: seq<byte>, ext: seq<byte>, secret: seq<byte>)
    requires DataEnd(|ext|, |secret|) <= |img| && DataEnd(|ext|, |secret|) <= |src|
    requires img[HEADER_SIZE..DataEnd(|ext|, |secret|)]
          == Embed(src[HEADER_SIZE..DataEnd(|ext|, |secret|)], FrameBits(ext, secret))
    ensures ReadChars(img, HEADER_SIZE, |MAGIC|) == MAGIC
    ensures IntOf(img[MagicEnd()..ExtnSizeEnd()]) == SignedChar(Narrow(|ext|))
    ensures ReadChars(img, ExtnSizeEnd(), |ext|) == ext
    ensures IntOf(img[ExtnEnd(|ext|)..FileSizeEnd(|ext|)]) == SignedChar(Narrow(|secret|))
    ensures ReadChars(img, FileSizeEnd(|ext|), LoopCount(SignedChar(Narrow(|secret|)))) == Recovered(secret)
  {
    FrameParts(img, src, ext, secret);
    assert ReadChars(img, HEADER_SIZE, |MAGIC|) == MAGIC by {
      assert MAGIC[..|MAGIC|] == MAGIC;
      ReadPrefix(img, src, HEADER_SIZE, MagicEnd(), MAGIC, |MAGIC|);
    }
    ReadField(img, src, MagicEnd(), ExtnSizeEnd(), |ext|);
    assert ReadChars(img, ExtnSizeEnd(), |ext|) == ext by {
      assert ext[..|ext|] == ext;
      ReadPrefix(img, src, ExtnSizeEnd(), ExtnEnd(|ext|), ext, |ext|);
    }
    ReadField(img, src, ExtnEnd(|ext|), FileSizeEnd(|ext|), |secret|);
    RecoveredCount(secret);
    ReadPrefix(img, src, FileSizeEnd(|ext|), DataEnd(|ext|, |secret|), secret, LoopCount(SignedChar(Narrow(|secret|))));
  }

  /** The head of a frame hiding an extension shorter than 128 chars reads back as that extension. */
  lemma HeadOfFrame(img: seq<byte>, ext: seq<byte>, base: seq<char>)
    requires |ext| < 128 && ExtnEnd(|ext|) <= |img|
    requires ReadChars(img, HEADER_SIZE, |MAGIC|) == MAGIC
    requires IntOf(img[MagicEnd()..ExtnSizeEnd()]) == SignedChar(Narrow(|ext|))
    requires ReadChars(img, ExtnSizeEnd(), |ext|) == ext
    ensures HeadRead(img, base) == Success((ExtnEnd(|ext|), OutputName(base, ext)))
  {
    MagicAccepted();
    NarrowSigned(|ext|);
    assert HeadRead(img, base).Success?;
    assert HeadRead(img, base).value.0 == ExtnEnd(|ext|);
    assert HeadRead(img, base).value.1 == OutputName(base, ext);
  }

  /** The tail of a frame at q reads back as the recovered part of the secret. */
  lemma TailOfFrame(img: seq<byte>, q: nat, r: nat, secret: seq<byte>)
    requires r == q + 32 && r + 8 * |secret| <= |img|
    requires IntOf(img[q..r]) == SignedChar(Narrow(|secret|))
    requires ReadChars(img, r, LoopCount(SignedChar(Narrow(|secret|)))) == Recovered(secret)
    ensures TailCheck(img, q) == Pass
    ensures TailData(img, q) == Recovered(secret)
  {
    RecoveredCount(secret);
  }

  /**
   * Decoding a stego image whose frame hides an extension shorter than 128 chars
   * names the file after the base and the extension, read as a C string, and gives
   * back the recovered part of the secret.
   */
  lemma DecodeFrame(img: seq<byte>, src: seq<byte>, ext: seq<byte>, secret: seq<byte>, base: seq<char>)
    requires |ext| < 128
    requires DataEnd(|ext|, |secret|) <= |img| && DataEnd(|ext|, |secret|) <= |src|
    requires img[HEADER_SIZE..DataEnd(|ext|, |secret|)]
          == Embed(src[HEADER_SIZE..DataEnd(|ext|, |secret|)], FrameBits(ext, secret))
    ensures Decode(img, base) == Success(Decoded(OutputName(base, ext), Recovered(secret)))
  {
    FrameReads(img, src, ext, secret);
    HeadOfFrame(img, ext, base);
    TailOfFrame(img, ExtnEnd(|ext|), FileSizeEnd(|ext|), secret);
  }

  /**
   * Decoding what the encoder wrote: with an extension shorter than 128 chars, the
   * decoded file is named after the base and the extension and holds the recovered
   * part of the secret.
   */
  lemma EncodeThenDecode(src: seq<byte>, secret: seq<byte>, ext: seq<byte>, pixelBytes: nat, base: seq<char>)
    requires |ext| < 128
    requires Encode(src, secret, ext, pixelBytes).Success?
    ensures Decode(Encode(src, secret, ext, pixelBytes).value, base)
         == Success(Decoded(OutputName(base, ext), Recovered(secret)))
  {
    EncodeLayout(src, secret, ext, pixelBytes);
    DecodeFrame(Encode(src, secret, ext, pixelBytes).value, src, ext, secret, base);
  }

  /**
   * With a short extension without NUL and a secret shorter than 128 bytes, the
   * decoded file is named after the base and the extension and holds the secret.
   */
  lemma RoundTripWhole(src: seq<byte>, secret: seq<byte>, ext: seq<byte>, pixelBytes: nat, base: seq<char>)
    requires |ext| < 128 && NoNul(ext) && |secret| < 128
    requires Encode(src, secret, ext, pixelBytes).Success?
    ensures Decode(Encode(src, secret, ext, pixelBytes).value, base)
         == Success(Decoded(base + ToChars(ext), secret))
  {
    EncodeThenDecode(src, secret, ext, pixelBytes, base);
    RecoveredWhole(secret);
    NameWithoutNul(base, ext);
  }
}
