# LSB steganography codec, modelled in Dafny

This project models the core of a C command-line tool. The tool hides a secret file in
the pixel bytes of a 24-bit BMP image and reads it back.

- **Encoder.** The encoder copies the 54-byte BMP header unchanged. It then hides a
  *frame* in the least-significant bits of the bytes that follow, one bit per carrier
  byte, most significant bit first. Last, it copies the source bytes up to and
  including offset `image_capacity`. The frame holds, in order:
  - the magic string `#*`, 8 bits per char;
  - the extension length, a 32-bit field;
  - the extension chars;
  - the secret size, a 32-bit field;
  - the secret bytes.
- **Decoder.** The decoder skips the header and reads the same frame back with a file
  cursor. It checks the magic. It writes the secret to a file named after a base name
  followed by the decoded extension.

Files are byte sequences (`seq<byte>`, where `byte` is `0..255`). A file cursor is a
`pos` field. The file being written is an `out` field that the methods append to. The
encoder and the decoder are classes (`Encoding.Encoder`, `Decoding.Decoder`), and each
of their C functions is a method. Each pipeline is also given as a function of its
inputs (`Encoding.Encode`, `Decoding.Decode`), and the method that runs the steps is
proved equal to it. The bit packer `encode_byte_to_lsb` works in place on an `array`.
The unpackers are loops proved equal to the functions `Lsb.CharOf` and `Lsb.IntOf`.
Their `acc | (bit << i)` is the bitwise OR `Bits.Or`, whose bits are those of either
operand (`Bits.OrBits`). Because bit i of the accumulator is still clear at that point,
each OR adds the bit's weight (`Bits.AccumulateStep`).

Modules:

- `Status`: result types.
- `Bits`: bit tests, packing and assembly, and the C conversions between `char`,
  `int` and `unsigned` (sign extension, narrowing, two's-complement views).
- `Lsb`: the LSB packer and unpackers, and the round trips of one char and one field.
- `Frame`: frame layout and offsets, and what `fread` does to a cursor.
- `Encoding`: the encoder's steps, the capacity check, and the layout of the stego image.
- `Decoding`: the decoder's steps and the output name.
- `RoundTrip`: what decoding an encoder's output gives back.

Both length fields go through `encode_byte_to_lsb`, whose parameter is a `char`. A
length is therefore narrowed to its low byte and sign-extended to 32 bits before it
is written. The model keeps this behaviour. It assumes `char` is a signed 8-bit
two's-complement type, and `Bits.Promote`, `Bits.Narrow` and `Bits.SignedChar` state
that assumption. As a consequence, decoding an encoder's output gives back the first
`n mod 256` secret bytes when `n mod 256 < 128` and no bytes otherwise
(`RoundTrip.EncodeThenDecode`). The whole secret comes back only when it is shorter
than 128 bytes (`RoundTrip.RoundTripWhole`).

## Model

| member | source | states |
|---|---|---|
| Bits.Promote | Steganography/encode.c:549 | a `char` converted to `int`/`unsigned` keeps bytes below 128 and sets the 24 high bits of the others; the result fits in 32 bits |
| Bits.Narrow | Steganography/encode.c:541 | an `int` passed as `char` keeps its value modulo 256 |
| Bits.SignedChar | Steganography/encode.c:549 | the signed view of a `char` lies in -128..127 and agrees with the byte modulo 256 |
| Bits.Signed32 | Steganography/decode.c:418-432 | the signed view of a 32-bit word lies in the `int` range and agrees with the word modulo 2^32 |
| Bits.Signed32Word | Steganography/decode.c:431 | the 32-bit word is recovered from the signed `int` by adding 2^32 and reducing |
| Bits.PackedBitsAt | Steganography/encode.c:553 | packed bit j is the C bit test `(u & (1 << i)) >> i` for i = w-1-j |
| Bits.AssemblePacked | Steganography/decode.c:403-410 | assembling the w packed bits of any u below 2^w gives u back |
| Bits.PackedAssemble | Steganography/decode.c:403-410 | packing an assembled bit sequence gives the bits back |
| Bits.AssembleBound | Steganography/decode.c:423-430 | n assembled bits stay below 2^n |
| Bits.PackedBitsConcat | Steganography/encode.c:551-563 | the bits of `x * 2^w + y` are the bits of x followed by the w bits of y |
| Bits.PromotedBits | Steganography/encode.c:549-580 | the 32 bits of a promoted char are 24 copies of its sign bit then its own 8 bits; its 8 low bits are the byte's bits |
| Bits.OrBits | Steganography/decode.c:407 | bit k of `a OR b` is set exactly when bit k of a or of b is |
| Bits.OrZero | Steganography/decode.c:407 | OR-ing a zero bit changes nothing |
| Bits.OrDisjoint | Steganography/decode.c:427 | setting a bit that is clear adds its weight: `acc OR 2^i == acc + 2^i` |
| Bits.ClearBit | Steganography/decode.c:403-410 | a value shifted up past bit i has bit i clear |
| Bits.AccumulateStep | Steganography/decode.c:407 | before the OR, bit i of the accumulator (the first j bits shifted up past bit i) is clear; OR-ing `bit << i` into it adds `bit * 2^i` and leaves the first j+1 bits shifted up past bit i-1 |
| Lsb.SetLsb | Steganography/encode.c:556-560 | `b OR 1` or `b AND NOT 1` sets the low bit to the wanted bit and keeps the other seven |
| Lsb.Embed | Steganography/encode.c:551-580 | the carrier with the low bit of its first bytes set to the bits, one bit per byte; keeps the carrier's length (byte by byte in `Lsb.EmbedAt`, `Lsb.EmbedSpec`) |
| Lsb.LsbBits | Steganography/decode.c:405 | bit i of the result is `buffer[i] & 1` |
| Lsb.EmbedAt | Steganography/encode.c:551-580 | carrier byte i gets bit i in its low bit when a bit goes there, and is left alone otherwise |
| Lsb.EmbedSpec | Steganography/encode.c:551-580 | the low bits of the embedded prefix are the bits, the rest of the carrier is unchanged, and no byte changes above its low bit |
| Lsb.EmbedLowBits | Steganography/encode.c:551-580 | a carrier filled with bits has exactly those bits as its low bits |
| Lsb.EmbedConcat | Steganography/encode.c:490-508 | embedding distributes over consecutive carrier runs and bit runs |
| Lsb.EmbedSplit | Steganography/encode.c:490-508 | embedding into src[a..c] is embedding into src[a..b] then src[b..c] |
| Lsb.EncodeByteToLsb | Steganography/encode.c:541-587 | widths 8 and 32 write the promoted char's bits, MSB first, into the low bits of the first `width` bytes; any other width fails and leaves the buffer unchanged |
| Lsb.EncodedByteAt | Steganography/encode.c:565-580 | for j < width, byte j's low bit is bit width-1-j of the promoted char and its other bits are kept; bytes from `width` on are untouched |
| Lsb.FieldModulo | Steganography/encode.c:549-563 | two lengths equal modulo 256 produce identical 32-byte carriers |
| Lsb.CharOf | Steganography/decode.c:398-412 | the decoded char's 8 bits, MSB first, are the low bits of the first 8 bytes |
| Lsb.IntOf | Steganography/decode.c:418-432 | the decoded field lies in the signed 32-bit range, and bit 31-j of it (as a 32-bit word) is the low bit of byte j, for j in 0..31 |
| Lsb.DecodeCharBytesFromLsb | Steganography/decode.c:398-412 | the loop returns the byte whose bits, MSB first, are the low bits of bytes 0..7 |
| Lsb.DecodeIntBytesFromLsb | Steganography/decode.c:418-432 | the loop returns the signed `int` whose bits, MSB first, are the low bits of bytes 0..31 |
| Lsb.CharRoundTrip | Steganography/decode.c:398-412 | a char packed at width 8 into any carrier decodes back to itself |
| Lsb.IntRoundTrip | Steganography/decode.c:418-432 | a length packed at width 32 decodes to its low byte read as a signed char, which equals the length exactly when it lies in -128..127 |
| Lsb.SignExtension | Steganography/encode.c:549 | a sign-extended char read as `int` is the char's signed value |
| Lsb.NarrowSigned | Steganography/encode.c:541 | an `int` survives the trip through `char` exactly when it lies in -128..127 |
| Lsb.ReadsOnlyLowBits | Steganography/decode.c:405 | buffers with the same low bits in bytes 0..31 decode to the same char and the same `int` |
| Frame.ByteBits | Steganography/encode.c:488-510 | a run of chars takes 8 bits per char |
| Frame.FieldBits | Steganography/encode.c:516-536 | a length field takes 32 bits |
| Frame.FrameBits | Steganography/encode.c:266-286 | the frame takes `FrameSize` bits |
| Frame.DataEnd | Steganography/encode.c:405 | the frame ends at header size plus `(2 + 4 + extlen + 4 + size) * 8` |
| Frame.Chars | Steganography/decode.c:369-388 | 8k carrier bytes decode to k chars |
| Frame.ReadEnd | Steganography/decode.c:373 | `fread` leaves the cursor n bytes on when they are there, at the end of the file when it is reached, and where it was when it was already past the end |
| Frame.ByteBitsConcat | Steganography/encode.c:490-508 | the bits of two runs of chars are the bits of the first run followed by those of the second |
| Frame.CharsSnoc | Steganography/decode.c:369-388 | 8 more bytes decode to one more char at the end |
| Frame.CharsOfEmbedded | Steganography/decode.c:365-392 | decoding bytes that hide a run of chars gives the run back |
| Frame.EmbedBytesSnoc | Steganography/encode.c:490-508 | the carrier of a run of chars is the carrier of all but the last char, then the last char's 8 bytes |
| Encoding.CheckCapacity | Steganography/encode.c:379-416 | a size of 0 or 1 is refused as empty; otherwise the check succeeds, with capacity `pixelBytes + 54`, exactly when the header plus frame end strictly before that capacity |
| Encoding.DataWritten | Steganography/encode.c:490-508 | whole 8-byte chunks only, at most one per char, never past the source's end; fewer than one per char only when fewer than 8 source bytes remain after them |
| Encoding.DataStep | Steganography/encode.c:490-508 | one more loop round appends the next char's chunk, giving the chunks of one more char |
| Encoding.DataWrittenStop | Steganography/encode.c:490-508 | when the loop stops after i whole chunks, the bytes written are exactly the first i chars hidden in order |
| Encoding.ByteBitsCons | Steganography/encode.c:490-508 | the bits of the first i chars are the first char's bits, then the bits of the rest |
| Encoding.HideInChunk | Steganography/encode.c:492-507 | a chunk read into a local buffer and passed to `encode_byte_to_lsb` comes out with the char's bits embedded |
| Encoding.Encoder.Read | Steganography/encode.c:493 | `fread` succeeds exactly when n bytes remain; it returns the bytes it passed over and moves the cursor as `Frame.ReadEnd` says |
| Encoding.Encoder.CopyBmpHeader | Steganography/encode.c:439-462 | rewinds the source and copies its first 54 bytes; fails, writing nothing, when the source is shorter |
| Encoding.Encoder.EncodeChar | Steganography/encode.c:491-507 | one round reads 8 bytes and writes them with the char hidden; a short read fails and writes nothing |
| Encoding.Encoder.EncodeDataToImage | Steganography/encode.c:488-510 | succeeds exactly when 8 bytes per char remain; writes the chunks of the chars read before any short read; on success writes all chars hidden in order and advances the cursor 8 bytes per char |
| Encoding.Encoder.EncodeMagicString | Steganography/encode.c:468-483 | writes "#*" hidden in the next 16 bytes, or fails when fewer remain |
| Encoding.Encoder.EncodeSizeField | Steganography/encode.c:516-536 | consumes and writes exactly 32 bytes hiding the length narrowed to a `char`, or fails writing nothing when fewer remain; `encode_secret_file_size` (encode.c:616-639) is the same |
| Encoding.Encoder.EncodeSecretFileExtn | Steganography/encode.c:594-609 | writes the extension's chars hidden in order, 8 bytes each |
| Encoding.Encoder.EncodeSecretFileData | Steganography/encode.c:645-671 | reads `size` secret bytes (a read of 0 bytes or past the end fails, writing nothing) and writes them hidden in order |
| Encoding.Encoder.CopyRemainingImgData | Steganography/encode.c:677-702 | copies the source bytes from the cursor up to and including offset `capacity`; fails when the source ends first, keeping the bytes already copied |
| Encoding.Encoder.EncodeFrameHead | Steganography/encode.c:269-278 | magic, extension length and extension in order; on success the cursor is at the extension's end and the bytes written hide the head bits |
| Encoding.Encoder.EncodeFrameTail | Steganography/encode.c:280-284 | secret size then secret data; reports which of them ran short |
| Encoding.Encoder.EncodeFrame | Steganography/encode.c:269-285 | the five frame steps end with `FrameCheck`'s verdict; on success the bytes written are the source's frame region with the frame hidden in it |
| Encoding.Encoder.WriteStego | Steganography/encode.c:266-301 | header, frame and remaining bytes in order, stopping at the first failure; equals `Stego` |
| Encoding.FrameCheck | Steganography/encode.c:269-285 | the frame steps pass exactly when the source reaches the frame's end; the magic step fails exactly when the source ends before the magic's end |
| Encoding.Stego | Steganography/encode.c:266-301 | after the capacity check, the steps succeed exactly when the source extends past offset `capacity`, and the stego image then has `capacity + 1` bytes |
| Encoding.Encode | Steganography/encode.c:254-301 | an image comes out only for a secret of at least 2 bytes, and it has `pixelBytes + 54 + 1` bytes |
| Encoding.EmbedAdjacent | Steganography/encode.c:269-284 | the output of two neighbouring steps is the embedding of their joined bits into the joined carrier run |
| Encoding.DoEncoding | Steganography/encode.c:246-373 | the whole encoding equals `Encode`: the capacity check, then the steps |
| Encoding.EncodeSucceeds | Steganography/encode.c:254-291 | encoding succeeds exactly when the secret has at least 2 bytes, the header plus frame end strictly before the capacity, and the source extends past offset `capacity` |
| Encoding.EmptySecretRefused | Steganography/encode.c:393-401 | a secret of 0 or 1 bytes is refused before anything is written |
| Encoding.ExactCarrierRefused | Steganography/encode.c:685 | a source of exactly `capacity` bytes is refused even when the frame fits, because the copy loop also reads offset `capacity` |
| Encoding.EncodeLayout | Steganography/encode.c:266-286 | the stego image is `capacity + 1` bytes: the source header, then the frame hidden in the next source bytes, then the source bytes up to offset `capacity` |
| Encoding.OnlyLowBitsChange | Steganography/encode.c:266-286 | every stego byte equals the source byte above its low bit, and the low bits of the frame region are the frame |
| Encoding.SameHighBits | Steganography/encode.c:266-286 | a copy of the source with one region replaced by an embedding differs from the source in low bits only |
| Encoding.HighBitsAt | Steganography/encode.c:266-286 | the same, for one byte |
| Decoding.BaseName | Steganography/decode.c:89-111 | "decoded_secret" when no name is given; a given name is used when it has no '.' and refused otherwise; a chosen name never holds a '.' |
| Decoding.LoopCount | Steganography/decode.c:369 | `for (i = 0; i < size; i++)` runs `size` times, or none when size is negative |
| Decoding.UpToNul | Steganography/decode.c:305 | `strcat` appends the chars up to, and not including, the first NUL |
| Decoding.ToChars | Steganography/decode.c:305 | bytes appended to the name keep their values, one char each |
| Decoding.OutputName | Steganography/decode.c:303-305 | the name starts with the base name and adds at most the extension's length; every char added is the extension's char at that place and is not NUL |
| Decoding.NameWithoutNul | Steganography/decode.c:303-306 | an extension without NUL is appended to the base name whole |
| Decoding.UpToNulWhole | Steganography/decode.c:305 | a C string without NUL is kept whole |
| Decoding.MagicMatches | Steganography/decode.c:238 | `strcmp` with "#*" reports equality exactly when the chars start with `#*` and end there or continue with a NUL |
| Decoding.ReadChars | Steganography/decode.c:281-296 | no more chars than rounds, and one per round when the image holds all `count` chunks |
| Decoding.ReadCharsFit | Steganography/decode.c:281-296 | when the image holds all `count` chunks, the chars read are the decoding of those bytes |
| Decoding.ShortRun | Steganography/decode.c:369-381 | a loop that stops at a short read leaves the cursor where one long read would, and the run did not fit |
| Decoding.FullRun | Steganography/decode.c:369-388 | a loop that completes leaves the cursor 8 bytes per char on |
| Decoding.ReadCharsStep | Steganography/decode.c:384-387 | a complete read appends its char after those before |
| Decoding.ReadCharsStop | Steganography/decode.c:377-381 | after the first short read no further char is added |
| Decoding.ReadCharsLength | Steganography/decode.c:369-388 | no more chars are read than rounds run, and all `count` are read exactly when the run fits |
| Decoding.HeadRead | Steganography/decode.c:128-137 | a short read of the magic is reported exactly when the image ends before the magic's end, and a wrong marker exactly when the magic is there but fails the `strcmp` with "#*"; on success the extension ends between the extension length's end and the image's end, and the name starts with the base name |
| Decoding.TailCheck | Steganography/decode.c:140-143 | the tail passes exactly when the image holds the size field and the announced number of 8-byte chunks after it |
| Decoding.TailData | Steganography/decode.c:365-392 | no more data bytes than the size field announces (none if negative), fewer than 2^31, and all of them when the image holds them |
| Decoding.Decode | Steganography/decode.c:121-190 | fails on the magic read exactly when the image ends before the magic's end, and refuses the image for a wrong marker exactly when the magic is there but fails the `strcmp` with "#*"; on success the data is shorter than 2^31 bytes and the name starts with the base name |
| Decoding.Decoder.Read | Steganography/decode.c:373 | `fread` succeeds exactly when n bytes remain, returns them, and moves the cursor as `ReadEnd` says |
| Decoding.Decoder.SkipBmpHeader | Steganography/decode.c:196-208 | moves the cursor 54 bytes on and never fails |
| Decoding.Decoder.DecodeChar | Steganography/decode.c:372-384 | reads 8 bytes and decodes their char; fails exactly when fewer than 8 remain |
| Decoding.Decoder.DecodeChars | Steganography/decode.c:281-296 | `count` rounds (none if negative) collect the chars read before the first short read, and succeed exactly when all fit |
| Decoding.Decoder.DecodeMagicString | Steganography/decode.c:214-246 | reads 16 bytes, moving the cursor as `fread` does whatever the outcome; fails on a short read, fails when the two chars, compared as a C string, are not "#*", and passes otherwise |
| Decoding.Decoder.DecodeSizeField | Steganography/decode.c:254-266 | reads 32 bytes and decodes them as a signed `int`; fails exactly when fewer remain |
| Decoding.Decoder.DecodeSecretFileExtnSize | Steganography/decode.c:252-270 | stores the decoded extension length, or fails on a short read |
| Decoding.Decoder.DecodeSecretFileExtn | Steganography/decode.c:276-306 | reads `size` chars (none if negative) and appends them, as a C string, to the name; a short read fails, leaving the name unchanged |
| Decoding.Decoder.DecodeSecretFileSize | Steganography/decode.c:338-358 | stores the decoded secret size, or fails on a short read |
| Decoding.Decoder.DecodeSecretFileData | Steganography/decode.c:365-392 | writes each decoded char as it is read; on a short read fails, having written exactly the chars before it |
| Decoding.Decoder.DecodeFrameHead | Steganography/decode.c:128-137 | header skip, magic, extension length and extension: fails with `HeadRead`'s error or passes with its cursor and name |
| Decoding.Decoder.DecodeFrameTail | Steganography/decode.c:140-143 | secret size and secret data: ends with `TailCheck`'s verdict and, on success, writes `TailData` |
| Decoding.DoDecoding | Steganography/decode.c:121-190 | the whole decoding equals `Decode`: the first failing step's error, or the output name and the decoded data |
| RoundTrip.Recovered | Steganography/decode.c:369 | what comes back of a secret is never longer than the secret |
| RoundTrip.RecoveredCount | Steganography/decode.c:369 | the data loop runs `n mod 256` times when that is below 128, otherwise none, and never more than n times; what it reads is that many first bytes of the secret |
| RoundTrip.RecoveredWhole | Steganography/decode.c:365-392 | the whole secret comes back exactly when it is shorter than 128 bytes |
| RoundTrip.SplitRegion | Steganography/encode.c:269-284 | an image region hiding two bit runs in a row is made of two sub-regions, each hiding one run |
| RoundTrip.SliceHalves | Steganography/encode.c:269-284 | a slice equal to two joined parts splits back into them |
| RoundTrip.FrameParts | Steganography/encode.c:269-284 | the frame region is cut into the magic, extension length, extension, secret size and secret regions |
| RoundTrip.EmbedPrefix | Steganography/encode.c:490-508 | the first 8k bytes of a hidden run of chars hide the first k chars |
| RoundTrip.ReadPrefix | Steganography/decode.c:281-296 | reading k chars from bytes that hide a run of chars gives the run's first k chars |
| RoundTrip.ReadField | Steganography/decode.c:252-270 | reading a hidden length field gives the length's low byte as a signed char |
| RoundTrip.MagicAccepted | Steganography/decode.c:238 | the encoder's magic passes the decoder's `strcmp` |
| RoundTrip.FrameReads | Steganography/decode.c:128-143 | what each of the decoder's reads sees in an encoder's frame region |
| RoundTrip.HeadOfFrame | Steganography/decode.c:128-137 | with an extension shorter than 128 chars, the head decodes to the extension's end and the name `base + extension` |
| RoundTrip.TailOfFrame | Steganography/decode.c:140-143 | the tail passes and yields the recovered part of the secret |
| RoundTrip.DecodeFrame | Steganography/decode.c:121-190 | an image whose frame region hides a frame with an extension shorter than 128 chars decodes to the output name and the recovered secret |
| RoundTrip.EncodeThenDecode | Steganography/decode.c:121-190 | decoding the encoder's output, for an extension shorter than 128 chars, gives the name `base + extension` (as a C string) and the first `n mod 256` secret bytes when that is below 128, otherwise none |
| RoundTrip.RoundTripWhole | Steganography/decode.c:121-190 | with an extension shorter than 128 chars and without NUL, and a secret shorter than 128 bytes, decoding gives back the name `base + extension` and the whole secret |

## Left out

- File I/O is modelled as byte sequences. Opening, closing, removing files, `printf` and `perror` are left out. A removed output file is a `Failure` result.
- `main`, `check_operation_type` and the `.bmp`/`.txt` suffix checks on the command line are left out, except the decoder's choice of base name (`Decoding.BaseName`).
- `get_image_size_for_bmp` is replaced by a parameter, `pixelBytes`, which is width × height × 3.
- `get_file_size` is replaced by the secret's own length. The C code measures one byte past the end and subtracts 1, which gives the same length.
- The extension is a parameter. In the C code it is the suffix of the secret file's name starting at its first '.', dot included, and the command-line check only accepts `.txt`, `.sh` and `.c` (encode.c:185-201). Every extension the program accepts is therefore a NUL-free string shorter than 128 chars, so the `|ext| < 128` requirement of `RoundTrip.EncodeThenDecode` always holds in the program.
- `Encoding.CheckCapacity`: does not model overflow of the C `int` arithmetic. The sizes are unbounded integers.
- The decoder's `fopen` of the output file is assumed to succeed. Its failure path (decode.c:318-326) is not modelled.
- `Decoding.Decoder.SkipBmpHeader`: never fails. On a regular file, `fseek` past the end succeeds, so a short image shows up as a later short read.
- C memory hazards are left out: the variable-length arrays sized by a decoded length (a negative or huge one is undefined behaviour), the fixed `str[100]` for the output name, and the pointers to stack arrays kept in `decInfo`.
- `RoundTrip.EncodeThenDecode`: only covers extensions shorter than 128 chars. A longer extension's length field reads back as the length's low byte taken as a signed char, which is not the length, so the decoder then reads the secret size from the wrong bytes.
- `char` is assumed to be a signed 8-bit two's-complement type. The decoded char's bit pattern is returned as a byte. The decoder's `ch | (bit << i)` ORs into a `char`, which C widens to `int` and narrows back; the model ORs unsigned values, which gives the same low eight bits.
- The model also assumes what common compilers do in three places the C standard leaves open. `1 << 31` (encode.c:553, decode.c:427) is taken to be the word with only bit 31 set. An `int` length passed to the `char` parameter of `encode_byte_to_lsb` (encode.c:530, 632) keeps its low eight bits. The encoder's variable-length array sized by the secret's length (encode.c:653) is assumed to fit on the stack. The decoder stores both decoded lengths in `uint` fields (decode.h:63 and 65, written at decode.c:267 and 354) and passes them back to `int` parameters (decode.c:137 and 143, into decode.c:276 and 365); that round trip is assumed to give back the same `int`, so a negative length stays negative and its loop runs no rounds (`Decoding.LoopCount`).
