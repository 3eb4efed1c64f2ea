# vbyte64 in Dafny

A model of the vbyte64 codec. The codec compresses a sequence of 64-bit
unsigned words. Each word is stored in its significant bytes only, in
little-endian order: 0 to 8 bytes. Its byte count (the width code) goes into a
separate key region, packed two four-bit codes per key byte, low nibble first.
The delta variant first replaces every word after the first by its difference
from the previous word, modulo 2^64.

Layouts:

- A plain image is the key region (`(n + 1) / 2` bytes) followed by the data
  region.
- A framed image ("with length") first stores the count `n` in eight bytes.
- A compressing entry point allocates 64 bytes of padding past the image and
  reports the used length.

The streaming codec writes and reads the framed delta image through two file
streams on the same file: one for the keys and one for the data.

Modules:

- `Words`: powers of two, little-endian bytes, and arithmetic modulo 2^64.
- `Width`: the width of a word. The count-leading-zeros formula, the
  comparison ladder and the threshold count are each proved equal to the
  byte width.
- `Format`: the layout as pure functions. These include the key and data
  streams of a sequence of words, `Unpack` / `Decoded` (what a decoder reads
  back), `Delta` / `Undelta`, and the plain and framed images. It also holds
  the round-trip lemmas.
- `Sizes`: the size estimators, as loops over the input.
- `Codec`: the in-place packers and unpackers, working on a caller-supplied
  `array`.
- `Compress`: the buffer entry points, plain and delta, each with and
  without the count header.
- `Files`: files and streams without the operating system. `fopen` can fail
  (`accessible`), `fwrite` can fail for lack of room (`capacity`), `fread`
  can fail at the end of the file, and `fseek` always succeeds.
- `FileCodec`: the streaming `vb64f_*` encoder and decoder over `Files`.

Every method is proved against a specification function of `Format`. The
round trips are proved as lemmas about those functions:

- `Decoded(Image(v)) == v`;
- `Undelta(Delta(v)) == v` and `Delta(Undelta(d)) == d`;
- the framed image reads back its own count.

## Model

| member | source | states |
|---|---|---|
| Words.AddSubCancel | vbyte64.c:315 | adding the wrapped difference `a - b` (mod 2^64) back to `b` recovers `a` for all words |
| Words.SubAddCancel | vbyte64.c:169 | subtracting `a` from the wrapped sum `a + d` (mod 2^64) recovers `d` for all words |
| Words.LeBytes | vbyte64.c:37 | the low `w` bytes of a word as `memcpy` of a little-endian word copies them (length `w`) |
| Words.MemBytes | vbyte64.c:249 | the eight bytes of the count as `memcpy(key_p, &n, 8)` stores them |
| Words.FromBytes | vbyte64.c:291 | the little-endian value of a byte string, below `256^|s|` |
| Words.FromLeBytes | vbyte64.c:291 | reading back the low `w` bytes of `x < 256^w` gives `x` |
| Words.LeFromBytes | vbyte64.c:37 | writing back the value of `s` in `|s|` bytes gives `s` |
| Words.FromBytesZeroExtend | vbyte64.c:290-291 | appending zero bytes does not change a little-endian value (the `val = 0` before a short copy) |
| Width.Clz | vbyte64.c:36 | `__builtin_clzll(x)`: the `r` with `2^(63-r) <= x < 2^(64-r)` |
| Width.OrOneKeepsBitLength | vbyte64.c:36 | `v \| 1` keeps the bit length of a non-zero `v` |
| Width.ByteWidth | vbyte64.c:36 | the width code is at most 8 and is 0 exactly for 0 |
| Width.ByteWidthMinimal | vbyte64.c:36-37 | the width is the least byte count holding `v`: `v < 256^w` and `256^(w-1) <= v` when `w > 0` |
| Width.WidthUnique | vbyte64.c:36 | any `w >= 1` with `256^(w-1) <= v < 256^w` is the width |
| Width.ClzMatchesWidth | vbyte64.c:36 | `v ? 8 - (clz(v\|1) >> 3) : 0` equals the byte width for every word |
| Width.ClzWidthMinimal | vbyte64.c:36 | for `v != 0` the CLZ formula gives a code in 1..8 bracketing `v` between `256^(w-1)` and `256^w` |
| Width.LadderMatchesWidth | vbyte64.c:8-33 | the comparison ladder of `vb64_benc_noclz` returns the byte width for every word |
| Width.ThresholdMatchesWidth | vbyte64.c:67-70 | counting which of the thresholds 0, 0xFF, 0xFFFF, …, 0xFF_FFFF_FFFF_FFFF a word exceeds gives its byte width |
| Width.WidthExamples | vbyte64.c:8-33 | widths of 0, 255, 256 and 2^64-1 are 0, 1, 2 and 8 |
| Sizes.EncodeSize | vbyte64.c:54-62 | the data size is the length of the data stream, at most `8n` |
| Sizes.EncodeSizeNoClz | vbyte64.c:83-94 | the threshold-counting estimator gives the same data size |
| Sizes.DeltaEncodeSize | vbyte64.c:42-52 | the delta data size is the length of the data stream of the deltas, at most `8n` |
| Sizes.DeltaEncodeSizeNoClz | vbyte64.c:64-81 | the threshold-counting delta estimator gives the same size |
| Sizes.CompressedSize | vbyte64.c:127-143 | key size + data size + 64 is the plain image length plus the padding |
| Sizes.DeltaCompressedSize | vbyte64.c:103-119 | the same for the image of the deltas |
| Format.Codes | vbyte64.c:183-196 | the width codes of the words: one per word, each at most 8 |
| Format.Significant | vbyte64.c:35-40 | the bytes `vb64_benc` writes, as many as the width; their meaning is `Format.SignificantRoundTrip` |
| Format.DataStream | vbyte64.c:183-196 | the data region, of length `DataSize`; what it holds is `Format.UnpackDataStream` |
| Format.KeyStream | vbyte64.c:183-197 | the key region, `(n + 1) / 2` bytes; what it holds is `Format.KeyLayout` |
| Format.NibbleHalves | vbyte64.c:337 | `(key >> 0) & 0xF` and `(key >> 4) & 0xF` are the low and high nibble |
| Format.KeyCodes | vbyte64.c:329-338 | the codes a decoder reads from the key region, exactly `n` of them |
| Format.Unpack | vbyte64.c:331-339 | the words a decoder reads from the data region, one per code |
| Format.Decoded | vbyte64.c:324-342 | the words `vb64_decode` produces, exactly `n`; inverse of the encoder by `Format.ImageDecodes` |
| Format.Delta | vbyte64.c:148-174 | the deltas, one per word; pointwise meaning in `Format.DeltaAt` |
| Format.Undelta | vbyte64.c:302-319 | the running sums, one per delta; inverse of `Delta` by `Format.UndeltaDelta` and `Format.DeltaUndelta` |
| Format.Image | vbyte64.c:221-237 | the used part of a plain buffer, key size + data size long; decoded by `Compress.ImageRoundTrip` |
| Format.FramedImage | vbyte64.c:260-280 | the used part of a framed buffer, 8 + key size + data size long; decoded by `Compress.FramedRoundTrip` |
| Format.SignificantRoundTrip | vbyte64.c:291 | reading back a word's significant bytes gives the word |
| Format.SumOfCodes | vbyte64.c:54-62 | the codes add up to the data size |
| Format.KeyLayout | vbyte64.c:329-338 | the codes read back from a packed key region are the packed codes |
| Format.NibbleOfKeyByte | vbyte64.c:337 | nibble `i % 2` of key byte `i / 2` is code `i` |
| Format.UnpackDataStream | vbyte64.c:331-339 | unpacking a data stream with its own codes gives the words, whatever follows it |
| Format.ImageDecodes | vbyte64.c:324-342 | an encoded key and data stream, followed by anything, decodes to the encoded words |
| Format.KeyCodesOfImage | vbyte64.c:329-338 | the codes read from an encoded key stream are the words' widths |
| Format.DeltaAt | vbyte64.c:165-173 | delta `i` is `v[0]` for `i == 0`, else `v[i] - v[i-1]` modulo 2^64 |
| Format.DeltaPrefix | vbyte64.c:159-174 | the deltas of a prefix are the prefix of the deltas |
| Format.UndeltaDelta | vbyte64.c:314-317 | undoing the deltas recovers every sequence of words |
| Format.DeltaUndelta | vbyte64.c:167-173 | taking deltas of running sums recovers every sequence of deltas |
| Format.UndeltaSnoc | vbyte64.c:314-317 | one more delta adds one word, the previous word plus it |
| Format.HeaderRoundTrip | vbyte64.c:361 | reading the eight-byte count back gives the count |
| Format.DeltaExample | test.c:42-59 | the deltas and codes of the first words of `sanity_check_wl`, and their running sums |
| Codec.PutValue | vbyte64.c:35-40 | stores the word's significant bytes at the cursor, returns the width and advances by it; nothing else changes |
| Codec.GetValue | vbyte64.c:282-294 | reads `code` bytes as a little-endian word below `256^code` and advances by `code` |
| Codec.PackedDone | vbyte64.c:197 | after the last word, storing the pending key byte completes the key region and the data region |
| Codec.Encode | vbyte64.c:180-201 | the buffer becomes the old buffer with the key region and the data stream spliced in; returns the end of the data |
| Codec.EncodeDelta | vbyte64.c:145-178 | the same for the deltas of `v` |
| Codec.UnpackValue | vbyte64.c:331-339 | one step of the decoder extends the decoded prefix by the word it returns |
| Codec.ReadingDone | vbyte64.c:341 | after `n` steps the decoded prefix is `Decoded` and the data cursor is past all codes |
| Codec.Decode | vbyte64.c:324-342 | `out[..n]` is `Decoded` of the two regions, `out` beyond `n` is unchanged, returns the end of the data |
| Codec.DecodeFirst | vbyte64.c:302-306 | the first word is stored as read |
| Codec.UnpackDeltaValue | vbyte64.c:308-319 | one step extends the running sums by the previous word plus the delta read |
| Codec.DecodeDelta | vbyte64.c:296-322 | `out[..n]` is `Undelta(Decoded(..))`, beyond `n` unchanged; `n == 0` writes nothing |
| Compress.ImageLayout | vbyte64.c:229-235 | the key region at 0 and the data at `KeySize(n)` make up the plain image |
| Compress.FramedLayout | vbyte64.c:268-278 | count at 0, keys at 8, data after the keys make up the framed image |
| Compress.Compress | vbyte64.c:221-237 | a fresh buffer of image length + 64 whose first `clen` bytes are `Image(v)` |
| Compress.CompressDelta | vbyte64.c:203-219 | the same with `Image(Delta(v))` |
| Compress.CompressWl | vbyte64.c:260-280 | a fresh buffer whose first `clen` bytes are `FramedImage(n, v)` |
| Compress.CompressDeltaWl | vbyte64.c:239-258 | a fresh buffer whose first `clen` bytes are `FramedImage(n, Delta(v))` |
| Compress.Decompress | vbyte64.c:352-358 | `out[..n]` is the decoding of keys at 0 and data at `KeySize(n)` |
| Compress.DecompressDelta | vbyte64.c:344-350 | `out[..n]` is the running sums of that decoding |
| Compress.FramedCount | vbyte64.c:361 | the count read from the first eight bytes, a word |
| Compress.DecompressWl | vbyte64.c:373-384 | a fresh array of the stored count holding the decoded words |
| Compress.DecompressDeltaWl | vbyte64.c:360-371 | a fresh array of the stored count holding the running sums of the decoded deltas |
| Compress.ImageRoundTrip | vbyte64.c:352-358 | a buffer starting with `Image(v)` decodes to `v` |
| Compress.DeltaImageRoundTrip | vbyte64.c:344-350 | a buffer starting with `Image(Delta(v))` decodes and undeltas to `v` |
| Compress.FramedRoundTrip | vbyte64.c:373-384 | a buffer starting with `FramedImage(n, ws)` is decodable, reads back `n` and decodes to `ws` |
| Compress.EncDec | test.c:161-197 | `vb64_decompress_wl(vb64_compress_wl(v))` returns `|v|` words equal to `v` |
| Compress.EncDecDelta | test.c:123-159 | the same for the delta pair |
| Files.Overwrite | vbyte64.c:427 | a write keeps the bytes before the position (zero-filling a gap), puts `x` there and keeps what follows |
| Files.Stream.Write | vbyte64.c:427-429 | unbuffered `fwrite` of one item: succeeds exactly when it is non-empty and fits the device, and then overwrites at the position and advances; otherwise nothing changes |
| Files.Stream.Read | vbyte64.c:520-522 | `fread` succeeds exactly when enough bytes remain and returns them |
| Files.Stream.Seek | vbyte64.c:581 | `fseek` moves to the offset |
| Files.Open | vbyte64.c:554-559 | `fopen` gives a stream at 0 exactly when the file is accessible |
| Files.Create | vbyte64.c:479 | `fopen(.., "wb")` empties an accessible file |
| FileCodec.WrittenFull | vbyte64.c:433-473 | with the key side complete the file is the key side followed by the data written so far |
| FileCodec.LayoutFull | vbyte64.c:433-473 | after all keys and values the file is the framed image |
| FileCodec.StreamDone | vbyte64.c:469-472 | the final key byte completes the framed image, and the count of bytes written is keys + data |
| FileCodec.PutFileValue | vbyte64.c:422-431 | writes the significant bytes at the data stream and returns the width; fails only when a non-empty write does not fit |
| FileCodec.LastKeyByte | vbyte64.c:469-472 | the last key write succeeds exactly when the framed image fits, and the file is then that image |
| FileCodec.EncodeDeltaToFile | vbyte64.c:433-473 | succeeds exactly when the framed delta image fits; the file is then that image and the count is keys + data |
| FileCodec.CompressDeltaToFile | vbyte64.c:475-511 | non-zero exactly when the file opens and the image fits; the file is then `FramedImage(n, Delta(v))` and the result its length |
| FileCodec.KeyCodesPrefix | vbyte64.c:539-545 | the first `i` codes of a longer key region are its `i` codes |
| FileCodec.CursorShort | vbyte64.c:545 | a value that runs past the data makes the file undecodable |
| FileCodec.GetFileValue | vbyte64.c:514-524 | reads `code` bytes as a little-endian word, or 0 for code 0; fails exactly when the file ends first |
| FileCodec.ScanValue | vbyte64.c:539-545 | one step extends the scanned words by the word read, or fails only on an undecodable file |
| FileCodec.ScanFirst | vbyte64.c:529-533 | the first word read is the first scanned word, or the file is undecodable |
| FileCodec.FileDecoded | vbyte64.c:526-551 | the words a file decoder reads: at least one word even for count 0 |
| FileCodec.RunningSumsSnoc | vbyte64.c:545-548 | storing previous + delta extends the running sums |
| FileCodec.RunningSumsUndelta | vbyte64.c:526-551 | words stored as running sums are `Undelta` of the deltas |
| FileCodec.NextValue | vbyte64.c:539-549 | one step stores previous + delta after the stored words |
| FileCodec.DecodeRest | vbyte64.c:538-550 | the loop stores the running sums of all deltas, or fails only on an undecodable file |
| FileCodec.DecodeDeltaFromFile | vbyte64.c:526-551 | succeeds exactly when the file decodes; `out` then holds the running sums of the decoded deltas |
| FileCodec.FileIsFramed | vbyte64.c:553-593 | for a non-zero count the file decoder and the framed buffer decoder agree on decodability and on the words |
| FileCodec.FileIsEmpty | vbyte64.c:299-300 | a zero count decodes to no words |
| FileCodec.DecompressDeltaFromFile | vbyte64.c:553-593 | non-null exactly when the file opens and decodes; the result holds the stored count of words, the running sums of the decoded deltas |
| FileCodec.ZeroCountStores | vbyte64.c:526-551 | on a file with count 0 the decoder as written stores one word |
| FileCodec.ImageKeysFit | vbyte64.c:553-593 | a file starting with a framed image carries its count and codes of at most 8 |
| FileCodec.FileMatchesBuffer | test.c:83-121 | the streamed file equals the framed delta buffer the in-memory compressor makes |
| FileCodec.FileRoundTrip | test.c:83-121 | when the streaming compressor succeeds, the streaming decompressor returns `v` |
| FileCodec.AutoFile | test.c:315-354 | with an accessible file with room, compressing to the file and decompressing from it returns `v` |

## Left out

- Allocation failure. `malloc` and `new` always succeed here, so the
  `NULL` returns at vbyte64.c:209, 227, 245, 266, 363 and 376 are not
  modelled. Memory is never freed.
- `size_t` wrap-around of sizes and counts. Integers are unbounded; the
  framed entry points require `n < 2^64`, so the count fits its eight bytes.
- The words' machine representation. `memcpy` of a word is modelled as
  little-endian, the byte order the format is defined by.
- The `VBYTE64_NO_CLZ` compile switch. Both width forms are modelled and
  proved equal, so the choice changes nothing.
- `vb64_encode` with `n == 0` writes one key byte at `key_p`. For the plain
  layout that byte lands in the padding; the model writes it too and states
  only the used image.
- `Codec.EncodeDelta`, `Compress.CompressDelta`, `Compress.CompressDeltaWl`,
  `Sizes.DeltaEncodeSize`, `Sizes.DeltaEncodeSizeNoClz`,
  `Sizes.DeltaCompressedSize`, `FileCodec.EncodeDeltaToFile` and
  `FileCodec.CompressDeltaToFile` require at least one word: the source reads
  `v[0]` unconditionally (vbyte64.c:148, 44, 66 and 437). The streaming
  compressor's `n == 0` input is therefore not modelled, and neither are the
  round trips built on the delta encoders (`Compress.EncDecDelta`,
  `FileCodec.FileMatchesBuffer`, `FileCodec.FileRoundTrip`,
  `FileCodec.AutoFile`) for the empty sequence.
- `FileCodec.CompressDeltaToFile`: one `accessible` flag decides both
  `fopen` calls (vbyte64.c:479-480), so the model cannot express the
  half-open path where the `"wb"` open succeeds and empties the file but the
  `"r+b"` open fails (a write-only file, or no file descriptors left). The
  source then returns 0 with the file already emptied and `cf_key` never
  closed; the model's `!f.accessible ==> f.bytes == old(f.bytes)` holds only
  because both opens share the flag.
- Decoders (`Codec.Decode`, `Codec.DecodeDelta`, `Compress.Decompress*`)
  require a decodable input. Every code must be at most 8 and the data must
  be long enough. A code above 8 overflows the word in the source.
- `FileCodec.DecompressDeltaFromFile` requires that every code within the
  stored count is at most 8, for the same reason; truncated files are modelled
  as failures.
- `FileCodec.CompressDeltaToFile` does not state the file contents after a
  failed write, only that the result is 0.
- `FileCodec.DecodeDeltaFromFile` does not state the contents of `out` or
  the stream positions after a failed read, nor that `out` past the stored
  words is unchanged.
- `FileCodec.DecompressDeltaFromFile` does not model the array the source
  allocates and leaks when a read fails (it returns `NULL`), nor the count
  left in `*n` when `fopen` fails or when the eight-byte header read comes up
  short (the source leaves whatever `fread` stored there; the model reports 0).
- `FileCodec.CompressDeltaToFile`: its "non-zero exactly when the file opens
  and the image fits" holds of the unbuffered stream model only, where a write
  fails only for lack of room and lands at once. The source discards the
  results of `fclose` (vbyte64.c:508-509), so with stdio buffering a full
  device can surface only at `fclose`, and the source then reports a non-zero
  count for a truncated file; an `fwrite` may also fail for other reasons.
- Stream buffering, `fclose`, the `setjmp`/`longjmp` error path, messages to
  `stderr` and `exit`. A failed call is modelled as its return value (0 or
  `NULL`).
- The file name. A path is modelled as the `File` it names.
- The rest of test.c: random input, timing, printing, `main`, the
  manual-file tests (a plain `fwrite`/`fread` copy of the buffer) and
  `sanity_check`/`sanity_check_wl` beyond the round trips above.

## Findings

| source | as written | input that shows it | evidently intended | confidence | as-written member | corrected member |
|---|---|---|---|---|---|---|
| vbyte64.c:526-551 | `vb64f_decode_delta` has no `n == 0` guard and always reads and stores a first word | a file holding the count 0 followed by one key byte `0x00`: the decoder stores one word into `malloc(0)` | return at once for `n == 0`, as `vb64_decode_delta` does at vbyte64.c:299-300 | not executed | FileCodec.ZeroCountStores | FileCodec.DecompressDeltaFromFile |
