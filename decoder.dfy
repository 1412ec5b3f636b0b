/**
 * The decoder: skips the 54-byte header of the stego image and reads the frame back
 * from the low bits of the bytes that follow, writing the recovered secret to a file
 * named after a base name and the recovered extension.
 *
 * The stego image is a byte sequence read through a cursor (`pos`); the decoded
 * secret file is the sequence of bytes written so far (`out`).
 */
module Decoding {
  import opened Status
  import opened Bits
  import opened Lsb
  import opened Frame

  datatype DecodeError =
    | MagicReadFailed  // decode_magic_string: a short read
    | MagicMismatch    // decode_magic_string: the chars read are not "#*"
    | ExtnSizeFailed   // decode_secret_file_extn_size
    | ExtnFailed       // decode_secret_file_extn
    | FileSizeFailed   // decode_secret_file_size
    | DataFailed       // decode_secret_file_data

  /** The name of the decoded file and its contents. */
  datatype Decoded = Decoded(name: seq<char>, data: seq<byte>)

  /** The base name used when the command line gives none. */
  const DEFAULT_BASE: seq<char> := "decoded_secret"

  /**
   * The base name of the decoded file, chosen by `read_and_validate_decode_args`:
   * "decoded_secret" when no name is given, the given name when it has no '.', and
   * none (the arguments are refused) when it has one, since the extension comes from
   * the image. Whichever name is chosen, it holds no '.'.
   */
  function BaseName(given: Option<seq<char>>): (r: Option<seq<char>>)
    ensures r.Some? ==> '.' !in r.value
    ensures given.None? ==> r == Some(DEFAULT_BASE)
    ensures given.Some? ==> (r.Some? <==> '.' !in given.value)
    ensures given.Some? && r.Some? ==> r.value == given.value
  {
    match given
    case None => Some(DEFAULT_BASE)
    case Some(name) => if '.' in name then None else Some(name)
  }

  /** How many times `for (int i = 0; i < count; i++)` runs. */
  function LoopCount(count: int): (k: nat)
    ensures count <= 0 ==> k == 0
    ensures count > 0 ==> k == count
  {
    if count < 0 then 0 else count
  }

  /** The C string held in a char array: its chars up to the first NUL. */
  function UpToNul(s: seq<byte>): (r: seq<byte>)
    ensures |r| <= |s| && r == s[..|r|]
    ensures NoNul(r)
    ensures |r| < |s| ==> s[|r|] == 0
  {
    if s == [] || s[0] == 0 then [] else [s[0]] + UpToNul(s[1..])
  }

  /** Bytes read as chars. */
  function ToChars(s: seq<byte>): (r: seq<char>)
    ensures |r| == |s|
    ensures forall i :: 0 <= i < |s| ==> r[i] as int == s[i]
  {
    seq(|s|, i requires 0 <= i < |s| => s[i] as char)
  }

  /** `strcpy` of the base name, then `strcat` of the extension read as a C string. */
  function OutputName(base: seq<char>, ext: seq<byte>): (name: seq<char>)
    ensures |base| <= |name| <= |base| + |ext| && name[..|base|] == base
    ensures forall i :: |base| <= i < |name| ==> name[i] as int == ext[i - |base|] != 0
  {
    base + ToChars(UpToNul(ext))
  }

  /** An extension without NUL is appended whole. */
  lemma {:induction false} NameWithoutNul(base: seq<char>, ext: seq<byte>)
    requires NoNul(ext)
    ensures OutputName(base, ext) == base + ToChars(ext)
  {
    UpToNulWhole(ext);
  }

  lemma {:induction false} UpToNulWhole(s: seq<byte>)
    requires NoNul(s)
    ensures UpToNul(s) == s
  {
    if s != [] {
      UpToNulWhole(s[1..]);
      assert s == [s[0]] + s[1..];
    }
  }

  /** `strcmp` of the chars read, as a C string, with "#*" reports equality. */
  function MagicMatches(m: seq<byte>): (ok: bool)
    ensures ok <==> 2 <= |m| && m[..2] == MAGIC && (|m| == 2 || m[2] == 0)
  {
    UpToNul(m) == MAGIC
  }

  /** A loop of `count` reads of 8 bytes each, from p in a file of len bytes, never runs short. */
  predicate Fits(len: nat, p: nat, count: nat)
  {
    count == 0 || p + 8 * count <= len
  }

  /**
   * The chars a loop of `count` 8-byte reads starting at p decodes before it stops:
   * all of them when the image holds them, otherwise those read before the first
   * short read.
   */
  function ReadChars(image: seq<byte>, p: nat, count: nat): (r: seq<byte>)
    ensures |r| <= count
    ensures p + 8 * count <= |image| ==> |r| == count
  {
    if count == 0 then []
    else if p + 8 * count <= |image| then
      ReadChars(image, p, count - 1) + [CharOf(image[p + 8 * (count - 1)..p + 8 * count])]
    else ReadChars(image, p, count - 1)
  }

  /** When the image holds them all, the chars read are those of the whole run. */
  lemma {:induction false} ReadCharsFit(image: seq<byte>, p: nat, count: nat)
    requires p + 8 * count <= |image|
    ensures ReadChars(image, p, count) == Chars(image[p..p + 8 * count])
  {
    if count > 0 {
      var m := p + 8 * (count - 1);
      ReadCharsFit(image, p, count - 1);
      assert image[p..p + 8 * count] == image[p..m] + image[m..p + 8 * count];
      CharsSnoc(image[p..m], image[m..p + 8 * count]);
    }
  }

  /** A loop of 8-byte reads that stops at its (i+1)-th read leaves the cursor where one long read would. */
  lemma ShortRun(len: nat, p: nat, i: nat, count: nat)
    requires i < count && len < p + 8 * i + 8 && (i == 0 || p + 8 * i <= len)
    ensures !Fits(len, p, count)
    ensures ReadEnd(len, p + 8 * i, 8) == ReadEnd(len, p, 8 * count)
  {
  }

  /** A loop of 8-byte reads that completes leaves the cursor where one long read would. */
  lemma FullRun(len: nat, p: nat, count: nat)
    requires count == 0 || p + 8 * count <= len
    ensures Fits(len, p, count)
    ensures ReadEnd(len, p, 8 * count) == p + 8 * count
  {
  }

  /** A complete (i+1)-th read adds its char after the chars read before it. */
  lemma ReadCharsStep(before: seq<byte>, image: seq<byte>, p: nat, i: nat, ch: byte)
    requires p + 8 * (i + 1) <= |image| && ch == CharOf(image[p + 8 * i..p + 8 * i + 8])
    ensures before + ReadChars(image, p, i + 1) == before + ReadChars(image, p, i) + [ch]
  {
  }

  /** Once the (i+1)-th read runs short, no later read adds a char. */
  lemma {:induction false} ReadCharsStop(image: seq<byte>, p: nat, i: nat, count: nat)
    requires i <= count && |image| < p + 8 * (i + 1)
    ensures ReadChars(image, p, count) == ReadChars(image, p, i)
    decreases count
  {
    if count > i {
      ReadCharsStop(image, p, i, count - 1);
    }
  }

  /** The chars read never outnumber the reads, and fall short exactly when a read does. */
  lemma {:induction false} ReadCharsLength(image: seq<byte>, p: nat, count: nat)
    ensures |ReadChars(image, p, count)| <= count
    ensures |ReadChars(image, p, count)| == count <==> Fits(|image|, p, count)
  {
    if count > 0 {
      ReadCharsLength(image, p, count - 1);
    }
  }

  /**
   * The first steps of decoding: the frame is read from offset 54 on, and the first
   * step that runs short or finds no magic stops it. On success, the offset where the
   * extension ends and the output name built from it.
   */
  function HeadRead(image: seq<byte>, base: seq<char>): (r: Result<(nat, seq<char>), DecodeError>)
    ensures r == Failure(MagicReadFailed) <==> |image| < MagicEnd()
    ensures r == Failure(MagicMismatch) <==>
      MagicEnd() <= |image| && !MagicMatches(ReadChars(image, HEADER_SIZE, |MAGIC|))
    ensures r.Success? ==> ExtnSizeEnd() <= r.value.0 <= |image|
    ensures r.Success? ==> |base| <= |r.value.1| && r.value.1[..|base|] == base
  {
    if |image| < MagicEnd() then Failure(MagicReadFailed)
    else if !MagicMatches(ReadChars(image, HEADER_SIZE, |MAGIC|)) then Failure(MagicMismatch)
    else if |image| < ExtnSizeEnd() then Failure(ExtnSizeFailed)
    else
      var e := LoopCount(IntOf(image[MagicEnd()..ExtnSizeEnd()]));
      if |image| < ExtnSizeEnd() + 8 * e then Failure(ExtnFailed)
      else Success((ExtnSizeEnd() + 8 * e, OutputName(base, ReadChars(image, ExtnSizeEnd(), e))))
  }

  /** The number of data chars the size field at q announces: none when it is negative. */
  function DataCount(image: seq<byte>, q: nat): nat
    requires q + 32 <= |image|
  {
    LoopCount(IntOf(image[q..q + 32]))
  }

  /** The last steps of decoding, from offset q: the size field, then that many chars. */
  function TailCheck(image: seq<byte>, q: nat): (r: Outcome<DecodeError>)
    ensures r.Pass? <==> q + 32 <= |image| && q + 32 + 8 * DataCount(image, q) <= |image|
  {
    if |image| < q + 32 then Fail(FileSizeFailed)
    else if !Fits(|image|, q + 32, DataCount(image, q)) then Fail(DataFailed)
    else Pass
  }

  /** The data chars decoded after the size field at q. */
  function TailData(image: seq<byte>, q: nat): (r: seq<byte>)
    requires q + 32 <= |image|
    ensures |r| <= DataCount(image, q) < 0x8000_0000
    ensures q + 32 + 8 * DataCount(image, q) <= |image| ==> |r| == DataCount(image, q)
  {
    ReadChars(image, q + 32, DataCount(image, q))
  }

  /**
   * What `do_decoding` produces from the stego image once it is open, or the step
   * that stopped it. The output file exists only from the extension step on and is
   * removed on a later failure, so only a success leaves a file behind.
   */
  function Decode(image: seq<byte>, base: seq<char>): (r: Result<Decoded, DecodeError>)
    ensures r == Failure(MagicReadFailed) <==> |image| < MagicEnd()
    ensures r == Failure(MagicMismatch) <==>
      MagicEnd() <= |image| && !MagicMatches(ReadChars(image, HEADER_SIZE, |MAGIC|))
    ensures r.Success? ==> |r.value.data| < 0x8000_0000
    ensures r.Success? ==> |base| <= |r.value.name| && r.value.name[..|base|] == base
  {
    match HeadRead(image, base)
    case Failure(err) => Failure(err)
    case Success((q, name)) =>
      match TailCheck(image, q)
      case Fail(err) => Failure(err)
      case Pass => Success(Decoded(name, TailData(image, q)))
  }

  class Decoder {
    /** The stego image file. */
    const image: seq<byte>
    /** The position of the stego image's file cursor. */
    var pos: nat
    /** The decoded extension length. */
    var extnSize: int
    /** The decoded extension. */
    var ext: seq<byte>
    /** The name of the decoded file: the base name, then the extension once it is read. */
    var name: seq<char>
    /** The decoded secret file size. */
    var fileSize: int
    /** The decoded secret file, as written so far. */
    var out: seq<byte>

    constructor (image: seq<byte>, base: seq<char>)
      ensures this.image == image && name == base && pos == 0 && out == [] && ext == []
      ensures extnSize == 0 && fileSize == 0
    {
      this.image := image;
      name := base;
      pos := 0;
      extnSize := 0;
      ext := [];
      fileSize := 0;
      out := [];
    }

    /** `fread` of n bytes from the stego image; only a complete read counts. */
    method Read(n: nat) returns (ok: bool, chunk: seq<byte>)
      modifies this`pos
      ensures ok == (old(pos) + n <= |image|)
      ensures pos == ReadEnd(|image|, old(pos), n)
      ensures ok ==> chunk == image[old(pos)..pos]
    {
      ok := pos + n <= |image|;
      if ok {
        chunk := image[pos..pos + n];
        pos := pos + n;
      } else if pos <= |image| {
        chunk := image[pos..];
        pos := |image|;
      } else {
        chunk := [];
      }
    }

    /** `skip_bmp_header`: moves the cursor 54 bytes on; seeking past the end does not fail. */
    method SkipBmpHeader()
      modifies this`pos
      ensures pos == old(pos) + HEADER_SIZE
    {
      pos := pos + HEADER_SIZE;
    }

    /** One round of a char-reading loop: reads 8 bytes and decodes the char in their low bits. */
    method DecodeChar() returns (ok: bool, ch: byte)
      modifies this`pos
      ensures ok == (old(pos) + 8 <= |image|)
      ensures pos == ReadEnd(|image|, old(pos), 8)
      ensures ok ==> ch == CharOf(image[old(pos)..old(pos) + 8])
    {
      var chunk;
      ok, chunk := Read(8);
      if !ok {
        return false, 0;
      }
      ch := DecodeCharBytesFromLsb(chunk);
    }

    /**
     * The loop of `decode_magic_string` and `decode_secret_file_extn`: `count` rounds
     * of `DecodeChar`, collecting the chars, stopping with failure at a short read.
     */
    method DecodeChars(count: int) returns (ok: bool, chars: seq<byte>)
      modifies this`pos
      ensures ok == Fits(|image|, old(pos), LoopCount(count))
      ensures pos == ReadEnd(|image|, old(pos), 8 * LoopCount(count))
      ensures chars == ReadChars(image, old(pos), LoopCount(count))
    {
      ghost var p0, k := pos, LoopCount(count);
      chars := [];
      var i := 0;
      while i < count
        invariant 0 <= i <= k
        invariant pos == p0 + 8 * i
        invariant i == 0 || pos <= |image|
        invariant chars == ReadChars(image, p0, i)
      {
        var read, ch := DecodeChar();
        if !read {
          ShortRun(|image|, p0, i, k);
          ReadCharsStop(image, p0, i, k);
          return false, chars;
        }
        assert ReadChars(image, p0, i + 1) == chars + [ch];
        chars := chars + [ch];
        i := i + 1;
      }
      FullRun(|image|, p0, i);
      return true, chars;
    }

    /**
     * `decode_magic_string`: decodes two chars and compares them, as a C string, with
     * "#*".
     */
    method DecodeMagicString() returns (r: Outcome<DecodeError>)
      modifies this`pos
      ensures r == if old(pos) + 8 * |MAGIC| > |image| then Fail(MagicReadFailed)
                   else if !MagicMatches(ReadChars(image, old(pos), |MAGIC|)) then Fail(MagicMismatch)
                   else Pass
      ensures pos == ReadEnd(|image|, old(pos), 8 * |MAGIC|)
    {
      var ok, magic := DecodeChars(|MAGIC|);
      if !ok {
        return Fail(MagicReadFailed);
      }
      if !MagicMatches(magic) {
        return Fail(MagicMismatch);
      }
      return Pass;
    }

    /**
     * The read of `decode_secret_file_extn_size` and `decode_secret_file_size`: 32
     * bytes, decoded as a signed 32-bit `int`.
     */
    method DecodeSizeField() returns (ok: bool, v: int)
      modifies this`pos
      ensures ok == (old(pos) + 32 <= |image|)
      ensures pos == ReadEnd(|image|, old(pos), 32)
      ensures ok ==> v == IntOf(image[old(pos)..pos])
    {
      var chunk;
      ok, chunk := Read(32);
      if !ok {
        return false, 0;
      }
      v := DecodeIntBytesFromLsb(chunk);
    }

    /** `decode_secret_file_extn_size`. */
    method DecodeSecretFileExtnSize() returns (r: Outcome<DecodeError>)
      modifies this`pos, this`extnSize
      ensures r == if old(pos) + 32 <= |image| then Pass else Fail(ExtnSizeFailed)
      ensures pos == ReadEnd(|image|, old(pos), 32)
      ensures extnSize == if r.Pass? then IntOf(image[old(pos)..pos]) else old(extnSize)
    {
      var ok, v := DecodeSizeField();
      if !ok {
        return Fail(ExtnSizeFailed);
      }
      extnSize := v;
      return Pass;
    }

    /**
     * `decode_secret_file_extn`: decodes `size` chars (none when size is negative),
     * then appends them, as a C string, to the output name. A short read fails before
     * the name is built or the output file opened.
     */
    method DecodeSecretFileExtn(size: int) returns (r: Outcome<DecodeError>)
      modifies this`pos, this`ext, this`name
      ensures r == if Fits(|image|, old(pos), LoopCount(size)) then Pass else Fail(ExtnFailed)
      ensures pos == ReadEnd(|image|, old(pos), 8 * LoopCount(size))
      ensures r.Pass? ==> ext == ReadChars(image, old(pos), LoopCount(size))
      ensures r.Pass? ==> name == OutputName(old(name), ext)
      ensures r.Fail? ==> ext == old(ext) && name == old(name)
    {
      var ok, chars := DecodeChars(size);
      if !ok {
        return Fail(ExtnFailed);
      }
      ext := chars;
      name := OutputName(name, ext);
      return Pass;
    }

    /** `decode_secret_file_size`. */
    method DecodeSecretFileSize() returns (r: Outcome<DecodeError>)
      modifies this`pos, this`fileSize
      ensures r == if old(pos) + 32 <= |image| then Pass else Fail(FileSizeFailed)
      ensures pos == ReadEnd(|image|, old(pos), 32)
      ensures fileSize == if r.Pass? then IntOf(image[old(pos)..pos]) else old(fileSize)
    {
      var ok, v := DecodeSizeField();
      if !ok {
        return Fail(FileSizeFailed);
      }
      fileSize := v;
      return Pass;
    }

    /**
     * `decode_secret_file_data`: decodes `size` chars (none when size is negative),
     * writing each to the output file as soon as it is decoded; a short read fails,
     * leaving the chars written before it.
     */
    method DecodeSecretFileData(size: int) returns (r: Outcome<DecodeError>)
      modifies this`pos, this`out
      ensures r == if Fits(|image|, old(pos), LoopCount(size)) then Pass else Fail(DataFailed)
      ensures pos == ReadEnd(|image|, old(pos), 8 * LoopCount(size))
      ensures out == old(out) + ReadChars(image, old(pos), LoopCount(size))
    {
      ghost var p0, k, out0 := pos, LoopCount(size), out;
      var i := 0;
      while i < size
        invariant 0 <= i <= k
        invariant pos == p0 + 8 * i
        invariant i == 0 || pos <= |image|
        invariant out == out0 + ReadChars(image, p0, i)
      {
        var read, ch := DecodeChar();
        if !read {
          ShortRun(|image|, p0, i, k);
          ReadCharsStop(image, p0, i, k);
          return Fail(DataFailed);
        }
        ReadCharsStep(out0, image, p0, i, ch);
        out := out + [ch];
        i := i + 1;
      }
      FullRun(|image|, p0, i);
      return Pass;
    }

    /**
     * The first steps of `do_decoding`: the header skip, the magic string, the
     * extension length and the extension, each read where the one before it stopped.
     */
    method DecodeFrameHead() returns (r: Outcome<DecodeError>)
      requires pos == 0
      modifies this`pos, this`extnSize, this`ext, this`name
      ensures r.Fail? ==> HeadRead(image, old(name)) == Failure(r.error)
      ensures r.Pass? ==> pos <= |image|
      ensures r.Pass? ==> HeadRead(image, old(name)) == Success((pos, name))
    {
      SkipBmpHeader();
      r := DecodeMagicString();
      if r.Fail? {
        return;
      }
      assert pos == MagicEnd();
      r := DecodeSecretFileExtnSize();
      if r.Fail? {
        return;
      }
      assert pos == ExtnSizeEnd() && extnSize == IntOf(image[MagicEnd()..ExtnSizeEnd()]);
      r := DecodeSecretFileExtn(extnSize);
    }

    /** The last steps of `do_decoding`: the secret file size and the secret file data. */
    method DecodeFrameTail() returns (r: Outcome<DecodeError>)
      requires pos <= |image|
      modifies this`pos, this`fileSize, this`out
      ensures r == TailCheck(image, old(pos))
      ensures r.Pass? ==> out == old(out) + TailData(image, old(pos))
    {
      r := DecodeSecretFileSize();
      if r.Fail? {
        return;
      }
      r := DecodeSecretFileData(fileSize);
    }
  }

  /**
   * `do_decoding` once the stego image is open: the steps in order, stopping at the
   * first that fails. A failure after the output file was opened removes it, so a
   * failure leaves no decoded file.
   */
  method DoDecoding(image: seq<byte>, base: seq<char>) returns (r: Result<Decoded, DecodeError>)
    ensures r == Decode(image, base)
  {
    var dec := new Decoder(image, base);
    var step := dec.DecodeFrameHead();
    if step.Fail? {
      return Failure(step.error);
    }
    ghost var q := dec.pos;
    assert HeadRead(image, base) == Success((q, dec.name));
    step := dec.DecodeFrameTail();
    if step.Fail? {
      return Failure(step.error);
    }
    assert dec.out == [] + TailData(image, q) == TailData(image, q);
    return Success(Decoded(dec.name, dec.out));
  }
}
