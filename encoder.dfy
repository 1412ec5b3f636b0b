/**
 * The encoder: copies the source BMP to the stego image, hiding the frame in the low
 * bits of the bytes that follow the 54-byte header.
 *
 * Files are byte sequences. The source image is read through a cursor (`pos`), the
 * stego image is the sequence of bytes written so far (`out`).
 */
module Encoding {
  import opened Status
  import opened Bits
  import opened Lsb
  import opened Frame

  datatype EncodeError =
    | SecretEmpty      // check_capacity: the secret file counts as empty
    | NoCapacity       // check_capacity: the frame does not fit
    | HeaderFailed     // copy_bmp_header
    | MagicFailed      // encode_magic_string
    | ExtnSizeFailed   // encode_secret_file_extn_size
    | ExtnFailed       // encode_secret_file_extn
    | FileSizeFailed   // encode_secret_file_size
    | DataFailed       // encode_secret_file_data
    | RemainingFailed  // copy_remaining_img_data

  /**
   * `check_capacity`: the image capacity is the pixel bytes plus the header. The
   * secret file size is the length `get_file_size` reports minus one, which is the
   * file's length; a size of 0 or 1 counts as an empty secret. Otherwise the header
   * plus the frame, in carrier bytes, must be strictly less than the capacity.
   */
  function CheckCapacity(pixelBytes: nat, extnLen: nat, secretSize: nat): (r: Result<nat, EncodeError>)
    ensures r == Failure(SecretEmpty) <==> secretSize < 2
    ensures r.Success? <==> secretSize >= 2 && DataEnd(extnLen, secretSize) < pixelBytes + HEADER_SIZE
    ensures r.Success? ==> r.value == pixelBytes + HEADER_SIZE
  {
    var capacity := pixelBytes + HEADER_SIZE;
    if secretSize == 1 || secretSize == 0 then Failure(SecretEmpty)
    else if HEADER_SIZE + (|MAGIC| + 4 + extnLen + 4 + secretSize) * 8 < capacity then Success(capacity)
    else Failure(NoCapacity)
  }

  /**
   * The bytes `encode_data_to_image` writes for `data` when the source cursor stands
   * at p: an 8-byte chunk per char, hiding that char, until the chars run out or
   * fewer than 8 source bytes remain.
   */
  function DataWritten(src: seq<byte>, p: nat, data: seq<byte>): (w: seq<byte>)
    requires p <= |src|
    ensures |w| % 8 == 0 && |w| <= 8 * |data| && p + |w| <= |src|
    ensures |w| < 8 * |data| ==> |src| < p + |w| + 8
    decreases |data|
  {
    if data == [] || |src| < p + 8 then []
    else Embed(src[p..p + 8], PackedBits(data[0], 8)) + DataWritten(src, p + 8, data[1..])
  }

  /**
   * One more char: the chunk hiding it, appended to the chunks of the chars before
   * it, gives the chunks of one char more.
   */
  lemma DataStep(written: seq<byte>, before: seq<byte>, src: seq<byte>, p: nat, data: seq<byte>, i: nat)
    requires i < |data| && p + 8 * (i + 1) <= |src|
    requires written == before + Embed(src[p..p + 8 * i], ByteBits(data[..i]))
    ensures written + Embed(src[p + 8 * i..p + 8 * i + 8], PackedBits(data[i], 8))
         == before + Embed(src[p..p + 8 * (i + 1)], ByteBits(data[..i + 1]))
  {
    var c1, c2 := src[p..p + 8 * i], src[p + 8 * i..p + 8 * i + 8];
    var b1, b2 := ByteBits(data[..i]), PackedBits(data[i], 8);
    assert ByteBits(data[..i + 1]) == b1 + b2 by {
      assert data[..i + 1][..i] == data[..i];
    }
    assert src[p..p + 8 * (i + 1)] == c1 + c2;
    EmbedConcat(c1, b1, c2, b2);
    Associative(before, Embed(c1, b1), Embed(c2, b2));
  }

  lemma Associative<T>(a: seq<T>, b: seq<T>, c: seq<T>)
    ensures a + b + c == a + (b + c)
  {
  }

  /**
   * After i whole chunks, stopping because the chars ran out or because the next
   * chunk is short, what has been written is the first i chars hidden in order.
   */
  lemma {:induction false} DataWrittenStop(src: seq<byte>, p: nat, data: seq<byte>, i: nat)
    decreases i
    requires i <= |data| && p + 8 * i <= |src|
    requires i == |data| || |src| < p + 8 * i + 8
    ensures DataWritten(src, p, data) == Embed(src[p..p + 8 * i], ByteBits(data[..i]))
  {
    if i == 0 {
      assert data == [] || |src| < p + 8;
      assert data[..i] == [] && src[p..p] == [];
      assert DataWritten(src, p, data) == [];
      assert ByteBits(data[..i]) == [];
      assert Embed(src[p..p], []) == [];
    } else {
      var rest := DataWritten(src, p + 8, data[1..]);
      assert DataWritten(src, p, data) == Embed(src[p..p + 8], PackedBits(data[0], 8)) + rest;
      DataWrittenStop(src, p + 8, data[1..], i - 1);
      assert p + 8 + 8 * (i - 1) == p + 8 * i;
      assert rest == Embed(src[p + 8..p + 8 * i], ByteBits(data[1..][..i - 1]));
      ByteBitsCons(data, i);
      EmbedSplit(src, p, p + 8, p + 8 * i, PackedBits(data[0], 8), ByteBits(data[1..][..i - 1]));
    }
  }

  /** The bits of the first i chars: those of the first char, then those of the rest. */
  lemma ByteBitsCons(data: seq<byte>, i: nat)
    requires 0 < i <= |data|
    ensures ByteBits(data[..i]) == PackedBits(data[0], 8) + ByteBits(data[1..][..i - 1])
  {
    assert data[..i] == [data[0]] + data[1..][..i - 1];
    ByteBitsConcat([data[0]], data[1..][..i - 1]);
    assert ByteBits([data[0]]) == ByteBits([]) + PackedBits(data[0], 8);
  }

  /**
   * The chunk read into a local buffer, `encode_byte_to_lsb` applied to it, and the
   * buffer's bytes as they are then written.
   */
  method HideInChunk(c: byte, chunk: seq<byte>, width: int) returns (encoded: seq<byte>)
    requires (width == 8 || width == 32) && |chunk| == width
    ensures encoded == Embed(chunk, PackedBits(Promote(c), width))
  {
    var buffer := new byte[width](k requires 0 <= k < width => chunk[k]);
    assert buffer[..] == chunk;
    var _ := EncodeByteToLsb(c, buffer, width);
    encoded := buffer[..];
  }

  class Encoder {
    /** The source image file. */
    const src: seq<byte>
    /** The secret file. */
    const secret: seq<byte>
    /** The position of the source image's file cursor. */
    var pos: nat
    /** The stego image file, as written so far. */
    var out: seq<byte>

    constructor (src: seq<byte>, secret: seq<byte>, pos: nat)
      requires pos <= |src|
      ensures this.src == src && this.secret == secret && this.pos == pos && out == []
    {
      this.src := src;
      this.secret := secret;
      this.pos := pos;
      out := [];
    }

    /** `fread` of n bytes from the source image. */
    method Read(n: nat) returns (ok: bool, chunk: seq<byte>)
      requires pos <= |src|
      modifies this`pos
      ensures ok == (old(pos) + n <= |src|)
      ensures pos == ReadEnd(|src|, old(pos), n)
      ensures chunk == src[old(pos)..pos]
    {
      ok := pos + n <= |src|;
      var end := ReadEnd(|src|, pos, n);
      chunk := src[pos..end];
      pos := end;
    }

    /** `copy_bmp_header`: rewinds the source and copies its 54-byte header. */
    method CopyBmpHeader() returns (ok: bool)
      requires pos <= |src|
      modifies this
      ensures ok == (HEADER_SIZE <= |src|)
      ensures pos == ReadEnd(|src|, 0, HEADER_SIZE)
      ensures out == old(out) + if ok then src[..HEADER_SIZE] else []
    {
      pos := 0;
      var header;
      ok, header := Read(HEADER_SIZE);
      if !ok {
        return;
      }
      out := out + header;
    }

    /**
     * One round of `encode_data_to_image`'s loop: reads the next 8 source bytes, hides
     * the char c in their low bits and writes them out. A short read fails.
     */
    method EncodeChar(c: byte) returns (ok: bool)
      requires pos <= |src|
      modifies this
      ensures ok == (old(pos) + 8 <= |src|)
      ensures pos == ReadEnd(|src|, old(pos), 8)
      ensures ok ==> out == old(out) + Embed(src[old(pos)..old(pos) + 8], PackedBits(c, 8))
      ensures !ok ==> out == old(out)
    {
      var chunk;
      ok, chunk := Read(8);
      if !ok {
        return;
      }
      var encoded := HideInChunk(c, chunk, 8);
      assert encoded == Embed(chunk, PackedBits(c, 8)) by {
        PromotedBits(c);
      }
      out := out + encoded;
    }

    /**
     * `encode_data_to_image`: hides the chars of `data` one after another, 8 source
     * bytes each, and stops with failure at the first short read.
     */
    method EncodeDataToImage(data: seq<byte>) returns (ok: bool)
      requires pos <= |src|
      modifies this
      ensures ok == (old(pos) + 8 * |data| <= |src|)
      ensures pos == ReadEnd(|src|, old(pos), 8 * |data|)
      ensures out == old(out) + DataWritten(src, old(pos), data)
      ensures ok ==> out == old(out) + Embed(src[old(pos)..pos], ByteBits(data))
    {
      ghost var p0, out0 := pos, out;
      var i := 0;
      while i < |data|
        invariant 0 <= i <= |data|
        invariant pos == p0 + 8 * i <= |src|
        invariant out == out0 + Embed(src[p0..p0 + 8 * i], ByteBits(data[..i]))
      {
        ghost var before := out;
        ok := EncodeChar(data[i]);
        if !ok {
          DataWrittenStop(src, p0, data, i);
          return;
        }
        DataStep(before, out0, src, p0, data, i);
        i := i + 1;
      }
      assert data[..i] == data;
      DataWrittenStop(src, p0, data, i);
      return true;
    }

    /** `encode_magic_string`: encodes the signature "#*". */
    method EncodeMagicString() returns (ok: bool)
      requires pos <= |src|
      modifies this
      ensures ok == (old(pos) + 8 * |MAGIC| <= |src|)
      ensures pos == ReadEnd(|src|, old(pos), 8 * |MAGIC|)
      ensures out == old(out) + DataWritten(src, old(pos), MAGIC)
      ensures ok ==> out == old(out) + Embed(src[old(pos)..pos], ByteBits(MAGIC))
    {
      ok := EncodeDataToImage(MAGIC);
    }

    /**
     * `encode_secret_file_extn_size` and `encode_secret_file_size`, which differ only
     * in their messages: reads 32 source bytes, hides the length in them through
     * `encode_byte_to_lsb` (whose parameter is a `char`) and writes them out.
     */
    method EncodeSizeField(size: int) returns (ok: bool)
      requires pos <= |src|
      modifies this
      ensures ok == (old(pos) + 32 <= |src|)
      ensures pos == ReadEnd(|src|, old(pos), 32)
      ensures out == old(out) + if ok then Embed(src[old(pos)..pos], FieldBits(size)) else []
    {
      var chunk;
      ok, chunk := Read(32);
      if !ok {
        return;
      }
      var encoded := HideInChunk(Narrow(size), chunk, 32);
      out := out + encoded;
    }

    /** `encode_secret_file_extn`: encodes the extension's chars. */
    method EncodeSecretFileExtn(ext: seq<byte>) returns (ok: bool)
      requires pos <= |src|
      modifies this
      ensures ok == (old(pos) + 8 * |ext| <= |src|)
      ensures pos == ReadEnd(|src|, old(pos), 8 * |ext|)
      ensures out == old(out) + DataWritten(src, old(pos), ext)
      ensures ok ==> out == old(out) + Embed(src[old(pos)..pos], ByteBits(ext))
    {
      ok := EncodeDataToImage(ext);
    }

    /**
     * `encode_secret_file_data`: rewinds the secret file and reads `size` bytes from
     * it, then encodes them. `fread` of zero bytes reports failure, as does a short one.
     */
    method EncodeSecretFileData(size: nat) returns (ok: bool)
      requires pos <= |src|
      modifies this
      ensures ok == (0 < size <= |secret| && old(pos) + 8 * size <= |src|)
      ensures !(0 < size <= |secret|) ==> pos == old(pos) && out == old(out)
      ensures 0 < size <= |secret| ==>
        pos == ReadEnd(|src|, old(pos), 8 * size) &&
        out == old(out) + DataWritten(src, old(pos), secret[..size])
      ensures ok ==> out == old(out) + Embed(src[old(pos)..pos], ByteBits(secret[..size]))
    {
      if !(0 < size <= |secret|) {
        return false;
      }
      var data := secret[..size];
      ok := EncodeDataToImage(data);
    }

    /**
     * `copy_remaining_img_data`: copies the source bytes from the cursor up to and
     * including offset `capacity`, one at a time; a missing byte fails.
     */
    method CopyRemainingImgData(capacity: int) returns (ok: bool)
      requires pos <= |src|
      modifies this
      ensures ok == (capacity < old(pos) || capacity < |src|)
      ensures pos == if capacity < old(pos) then old(pos) else if capacity < |src| then capacity + 1 else |src|
      ensures out == old(out) + src[old(pos)..pos]
    {
      var i := pos;
      while i <= capacity
        invariant old(pos) <= pos <= |src|
        invariant i == pos
        invariant i == old(pos) || i <= capacity + 1
        invariant out == old(out) + src[old(pos)..pos]
        decreases capacity - i
      {
        var read, ch := Read(1);
        if !read {
          return false;
        }
        assert src[old(pos)..pos] == src[old(pos)..pos - 1] + ch;
        out := out + ch;
        i := i + 1;
      }
      return true;
    }

    /**
     * The first three frame steps of `do_encoding`: the magic string, the extension
     * length and the extension, each read starting where the one before it stopped.
     */
    method EncodeFrameHead(ext: seq<byte>) returns (r: Outcome<EncodeError>)
      requires pos == HEADER_SIZE <= |src|
      modifies this
      ensures r.Pass? <==> ExtnEnd(|ext|) <= |src|
      ensures r.Fail? ==> r == FrameCheck(|src|, |ext|, |secret|)
      ensures r.Pass? ==> pos == ExtnEnd(|ext|)
      ensures r.Pass? ==> out == old(out) + Embed(src[HEADER_SIZE..pos], HeadBits(ext))
    {
      var ok := EncodeMagicString();
      if !ok {
        return Fail(MagicFailed);
      }
      ok := EncodeSizeField(|ext|);
      if !ok {
        return Fail(ExtnSizeFailed);
      }
      EmbedAdjacent(old(out), src, HEADER_SIZE, MagicEnd(), ExtnSizeEnd(), ByteBits(MAGIC), FieldBits(|ext|));
      ok := EncodeSecretFileExtn(ext);
      if !ok {
        return Fail(ExtnFailed);
      }
      EmbedAdjacent(old(out), src, HEADER_SIZE, ExtnSizeEnd(), ExtnEnd(|ext|),
                    ByteBits(MAGIC) + FieldBits(|ext|), ByteBits(ext));
      return Pass;
    }

    /** The last two frame steps of `do_encoding`: the secret file size and its data. */
    method EncodeFrameTail() returns (r: Outcome<EncodeError>)
      requires pos <= |src| && 0 < |secret|
      modifies this
      ensures r.Pass? <==> old(pos) + 32 + 8 * |secret| <= |src|
      ensures r.Fail? ==> r == if |src| < old(pos) + 32 then Fail(FileSizeFailed) else Fail(DataFailed)
      ensures r.Pass? ==> pos == old(pos) + 32 + 8 * |secret|
      ensures r.Pass? ==> out == old(out) + Embed(src[old(pos)..pos], TailBits(secret))
    {
      var ok := EncodeSizeField(|secret|);
      if !ok {
        return Fail(FileSizeFailed);
      }
      ok := EncodeSecretFileData(|secret|);
      if !ok {
        return Fail(DataFailed);
      }
      assert secret[..|secret|] == secret;
      EmbedAdjacent(old(out), src, old(pos), old(pos) + 32, pos, FieldBits(|secret|), ByteBits(secret));
      return Pass;
    }

    /** The five frame steps of `do_encoding` in order, stopping at the first that fails. */
    method EncodeFrame(ext: seq<byte>) returns (r: Outcome<EncodeError>)
      requires pos == HEADER_SIZE <= |src| && 0 < |secret|
      modifies this
      ensures r == FrameCheck(|src|, |ext|, |secret|)
      ensures r.Pass? ==> pos == DataEnd(|ext|, |secret|)
      ensures r.Pass? ==> out == old(out) + Embed(src[HEADER_SIZE..pos], FrameBits(ext, secret))
    {
      r := EncodeFrameHead(ext);
      if r.Fail? {
        return;
      }
      ghost var p := pos;
      r := EncodeFrameTail();
      if r.Fail? {
        return;
      }
      EmbedAdjacent(old(out), src, HEADER_SIZE, p, pos, HeadBits(ext), TailBits(secret));
    }

    /**
     * The steps of `do_encoding` after the capacity check: the header, the frame and
     * the rest of the image, stopping at the first that fails.
     */
    method WriteStego(ext: seq<byte>, capacity: nat) returns (r: Result<seq<byte>, EncodeError>)
      requires pos <= |src| && out == [] && 2 <= |secret| && DataEnd(|ext|, |secret|) < capacity
      modifies this
      ensures r == Stego(src, secret, ext, capacity)
      ensures r.Success? ==> r.value == out
    {
      var ok := CopyBmpHeader();
      if !ok {
        return Failure(HeaderFailed);
      }
      var framed := EncodeFrame(ext);
      if framed.Fail? {
        return Failure(framed.error);
      }
      ghost var d := pos;
      ok := CopyRemainingImgData(capacity);
      if !ok {
        return Failure(RemainingFailed);
      }
      assert d == DataEnd(|ext|, |secret|) && pos == capacity + 1;
      assert src[..HEADER_SIZE] == old(out) + src[..HEADER_SIZE];
      return Success(out);
    }
  }

  /** Two neighbouring runs of carrier bytes embedded one after the other. */
  lemma EmbedAdjacent(before: seq<byte>, src: seq<byte>, a: nat, b: nat, c: nat, b1: seq<bool>, b2: seq<bool>)
    requires a <= b <= c <= |src| && |b1| == b - a && |b2| == c - b
    ensures before + Embed(src[a..b], b1) + Embed(src[b..c], b2) == before + Embed(src[a..c], b1 + b2)
  {
    EmbedSplit(src, a, b, c, b1, b2);
    Associative(before, Embed(src[a..b], b1), Embed(src[b..c], b2));
  }

  /**
   * The frame step that first runs out of source bytes, when the source has len bytes
   * and the header has been copied; `Pass` when the whole frame fits.
   */
  function FrameCheck(len: nat, e: nat, n: nat): (r: Outcome<EncodeError>)
    ensures r.Pass? <==> DataEnd(e, n) <= len
    ensures r == Fail(MagicFailed) <==> len < MagicEnd()
  {
    if len < MagicEnd() then Fail(MagicFailed)
    else if len < ExtnSizeEnd() then Fail(ExtnSizeFailed)
    else if len < ExtnEnd(e) then Fail(ExtnFailed)
    else if len < FileSizeEnd(e) then Fail(FileSizeFailed)
    else if len < DataEnd(e, n) then Fail(DataFailed)
    else Pass
  }

  /**
   * The stego image `do_encoding` produces, or the first step that fails: the capacity
   * check, then the steps of `Stego`.
   */
  function Encode(src: seq<byte>, secret: seq<byte>, ext: seq<byte>, pixelBytes: nat): (r: Result<seq<byte>, EncodeError>)
    ensures r.Success? ==> 2 <= |secret| && |r.value| == pixelBytes + HEADER_SIZE + 1
  {
    match CheckCapacity(pixelBytes, |ext|, |secret|)
    case Failure(err) => Failure(err)
    case Success(capacity) => Stego(src, secret, ext, capacity)
  }

  /**
   * The steps after the capacity check. The source must outlast every read: the
   * header, each part of the frame in turn, and then the copy loop, which reads up to
   * and including offset `capacity`.
   */
  function Stego(src: seq<byte>, secret: seq<byte>, ext: seq<byte>, capacity: nat): (r: Result<seq<byte>, EncodeError>)
    requires DataEnd(|ext|, |secret|) < capacity
    ensures r.Success? <==> capacity < |src|
    ensures r.Success? ==> |r.value| == capacity + 1
  {
    var d := DataEnd(|ext|, |secret|);
    if |src| < HEADER_SIZE then Failure(HeaderFailed)
    else match FrameCheck(|src|, |ext|, |secret|)
      case Fail(err) => Failure(err)
      case Pass =>
        if |src| <= capacity then Failure(RemainingFailed)
        else Success(src[..HEADER_SIZE] + Embed(src[HEADER_SIZE..d], FrameBits(ext, secret)) + src[d..capacity + 1])
  }

  /**
   * `do_encoding` after the files are open: checks the capacity, then runs the steps
   * in order and stops at the first that fails. On failure the stego file is removed,
   * so only a success leaves an image behind.
   */
  method DoEncoding(src: seq<byte>, secret: seq<byte>, ext: seq<byte>, pixelBytes: nat)
    returns (r: Result<seq<byte>, EncodeError>)
    ensures r == Encode(src, secret, ext, pixelBytes)
  {
    var checked := CheckCapacity(pixelBytes, |ext|, |secret|);
    if checked.Failure? {
      return Failure(checked.error);
    }
    // get_image_size_for_bmp leaves the cursor somewhere in the header; copy_bmp_header rewinds it.
    var enc := new Encoder(src, secret, 0);
    r := enc.WriteStego(ext, checked.value);
  }

  /**
   * Encoding succeeds exactly when the secret is not empty, the header and frame end
   * strictly before the capacity, and the source reaches offset `capacity`, which the
   * copy loop reads last.
   */
  lemma EncodeSucceeds(src: seq<byte>, secret: seq<byte>, ext: seq<byte>, pixelBytes: nat)
    ensures Encode(src, secret, ext, pixelBytes).Success? <==>
      2 <= |secret| && DataEnd(|ext|, |secret|) < pixelBytes + HEADER_SIZE < |src|
  {
  }

  /** An empty secret is refused before anything else, whatever the images. */
  lemma EmptySecretRefused(src: seq<byte>, secret: seq<byte>, ext: seq<byte>, pixelBytes: nat)
    requires |secret| < 2
    ensures Encode(src, secret, ext, pixelBytes) == Failure(SecretEmpty)
  {
  }

  /**
   * A carrier of exactly header plus pixel bytes is refused even when the frame fits:
   * the copy loop also reads the byte at offset `capacity`.
   */
  lemma ExactCarrierRefused(src: seq<byte>, secret: seq<byte>, ext: seq<byte>, pixelBytes: nat)
    requires 2 <= |secret| && DataEnd(|ext|, |secret|) < pixelBytes + HEADER_SIZE
    requires |src| == pixelBytes + HEADER_SIZE
    ensures Encode(src, secret, ext, pixelBytes) == Failure(RemainingFailed)
  {
  }

  /**
   * The stego image: the source header verbatim, then the frame hidden in the next
   * bytes, then the source bytes up to and including offset `capacity`.
   */
  lemma EncodeLayout(src: seq<byte>, secret: seq<byte>, ext: seq<byte>, pixelBytes: nat)
    requires Encode(src, secret, ext, pixelBytes).Success?
    ensures var img, d := Encode(src, secret, ext, pixelBytes).value, DataEnd(|ext|, |secret|);
      && |img| == pixelBytes + HEADER_SIZE + 1 <= |src|
      && HEADER_SIZE < d < |img|
      && img[..HEADER_SIZE] == src[..HEADER_SIZE]
      && img[HEADER_SIZE..d] == Embed(src[HEADER_SIZE..d], FrameBits(ext, secret))
      && img[d..] == src[d..|img|]
  {
    var img, d := Encode(src, secret, ext, pixelBytes).value, DataEnd(|ext|, |secret|);
    var head, frame, rest := src[..HEADER_SIZE], Embed(src[HEADER_SIZE..d], FrameBits(ext, secret)), src[d..|img|];
    assert img == head + frame + rest;
    assert img[..HEADER_SIZE] == head;
    assert img[HEADER_SIZE..d] == frame;
    assert img[d..] == rest;
  }

  /**
   * Only low bits differ between the source and the stego image, and the low bits of
   * the frame's bytes are the frame.
   */
  lemma OnlyLowBitsChange(src: seq<byte>, secret: seq<byte>, ext: seq<byte>, pixelBytes: nat)
    requires Encode(src, secret, ext, pixelBytes).Success?
    ensures var img, d := Encode(src, secret, ext, pixelBytes).value, DataEnd(|ext|, |secret|);
      && d <= |img| <= |src|
      && (forall i :: 0 <= i < |img| ==> img[i] / 2 == src[i] / 2)
      && LsbBits(img[HEADER_SIZE..d]) == FrameBits(ext, secret)
  {
    var img, d := Encode(src, secret, ext, pixelBytes).value, DataEnd(|ext|, |secret|);
    EncodeLayout(src, secret, ext, pixelBytes);
    SameHighBits(img, src, HEADER_SIZE, d, FrameBits(ext, secret));
  }

  /**
   * A copy of the source whose bytes from a to b are replaced by an embedding into
   * them differs from the source in low bits only.
   */
  lemma SameHighBits(img: seq<byte>, src: seq<byte>, a: nat, b: nat, bits: seq<bool>)
    requires a <= b <= |img| <= |src| && |bits| == b - a
    requires img[..a] == src[..a] && img[a..b] == Embed(src[a..b], bits) && img[b..] == src[b..|img|]
    ensures forall i :: 0 <= i < |img| ==> img[i] / 2 == src[i] / 2
    ensures LsbBits(img[a..b]) == bits
  {
    forall i | 0 <= i < |img|
      ensures img[i] / 2 == src[i] / 2
    {
      HighBitsAt(img, src, a, b, bits, i);
    }
    EmbedLowBits(src[a..b], bits);
  }

  lemma HighBitsAt(img: seq<byte>, src: seq<byte>, a: nat, b: nat, bits: seq<bool>, i: nat)
    requires a <= b <= |img| <= |src| && |bits| == b - a && i < |img|
    requires img[..a] == src[..a] && img[a..b] == Embed(src[a..b], bits) && img[b..] == src[b..|img|]
    ensures img[i] / 2 == src[i] / 2
  {
    if i < a {
      assert img[i] == img[..a][i] && src[i] == src[..a][i];
    } else if i < b {
      EmbedAt(src[a..b], bits, i - a);
      assert img[i] == img[a..b][i - a] && src[i] == src[a..b][i - a];
    } else {
      assert img[i] == img[b..][i - b] && src[i] == src[b..|img|][i - b];
    }
  }
}
