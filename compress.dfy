/**
 * The buffer entry points. The compressors size and allocate one buffer,
 * optionally store the count in its first eight bytes, and run an encoder
 * with the key region first and the data region right after it; the used
 * length excludes the padding. The decompressors find the same two regions
 * (reading the count back for the framed layout) and run a decoder.
 */
module Compress {
  import opened Words
  import opened Format
  import opened Sizes
  import opened Codec

  // ---------------------------------------------------------------------
  // Buffer layout
  // ---------------------------------------------------------------------

  /** Two regions written back to back from offset 0 fill the prefix they cover. */
  lemma {:induction false} SplicedPrefix(s: seq<u8>, x: seq<u8>, p: nat, y: seq<u8>, e: nat)
    requires p == |x| && e == p + |y| && e <= |s|
    ensures Splice(Splice(s, 0, x), p, y)[..e] == x + y
  {
    var r := Splice(Splice(s, 0, x), p, y);
    forall i | 0 <= i < e
      ensures r[i] == (x + y)[i]
    {
      SpliceAt(Splice(s, 0, x), p, y, i);
      SpliceAt(s, 0, x, i);
    }
  }

  /** A header and two regions written back to back from offset 0 fill the prefix they cover. */
  lemma {:induction false} FramedPrefix(s: seq<u8>, h: seq<u8>, x: seq<u8>, p: nat, y: seq<u8>, e: nat)
    requires p == |h| + |x| && e == p + |y| && e <= |s|
    ensures Splice(Splice(Splice(s, 0, h), |h|, x), p, y)[..e] == h + x + y
  {
    var r := Splice(Splice(Splice(s, 0, h), |h|, x), p, y);
    forall i | 0 <= i < e
      ensures r[i] == (h + x + y)[i]
    {
      SpliceAt(Splice(Splice(s, 0, h), |h|, x), p, y, i);
      SpliceAt(Splice(s, 0, h), |h|, x, i);
      SpliceAt(s, 0, h, i);
    }
  }

  /** Writes at or after the end of a header leave the header in place. */
  lemma {:induction false} HeaderKept(s: seq<u8>, h: seq<u8>, p: nat, x: seq<u8>, y: seq<u8>)
    requires p == |h| && p + |x| <= |s| && p + |y| <= |s|
    ensures Splice(Splice(Splice(s, 0, h), p, x), p, y)[..p] == h
  {
    var r := Splice(Splice(Splice(s, 0, h), p, x), p, y);
    forall i | 0 <= i < p
      ensures r[i] == h[i]
    {
      SpliceAt(Splice(Splice(s, 0, h), p, x), p, y, i);
      SpliceAt(Splice(s, 0, h), p, x, i);
      SpliceAt(s, 0, h, i);
    }
  }

  /**
   * What the unframed compressors leave in the used prefix: the stored keys at
   * 0 and the data stream after the key region make up the image of `ws`.
   */
  lemma {:induction false} ImageLayout(s: seq<u8>, ws: seq<u64>, e: nat)
    requires e == KeySize(|ws|) + DataSize(ws) < |s|
    ensures Splice(Splice(s, 0, StoredKeys(Codes(ws))), KeySize(|ws|), DataStream(ws))[..e] == Image(ws)
  {
    if ws != [] {
      SplicedPrefix(s, KeyStream(Codes(ws)), KeySize(|ws|), DataStream(ws), e);
    }
  }

  /**
   * What the framed compressors leave in the used prefix: the count at 0, the
   * stored keys at 8 and the data stream after the key region make up the
   * framed image of `ws`.
   */
  lemma {:induction false} FramedLayout(s: seq<u8>, n: u64, ws: seq<u64>, e: nat)
    requires n == |ws| && e == HEADER_SIZE + KeySize(n) + DataSize(ws) < |s|
    ensures Splice(Splice(Splice(s, 0, MemBytes(n)), HEADER_SIZE, StoredKeys(Codes(ws))),
                   HEADER_SIZE + KeySize(n), DataStream(ws))[..e]
         == FramedImage(n, ws)
  {
    assert MemBytes(n) == Header(n);
    if ws != [] {
      FramedPrefix(s, Header(n), KeyStream(Codes(ws)), HEADER_SIZE + KeySize(n), DataStream(ws), e);
    } else {
      HeaderKept(s, Header(0), HEADER_SIZE, StoredKeys(Codes(ws)), DataStream(ws));
      assert FramedImage(0, ws) == Header(0) + [];
    }
  }

  /** `memcpy(buf + at, bytes, |bytes|)`. */
  method CopyBytes(buf: array<u8>, at: nat, bytes: seq<u8>)
    requires at + |bytes| <= buf.Length
    modifies buf
    ensures buf[..] == Splice(old(buf[..]), at, bytes)
  {
    forall k | 0 <= k < |bytes| {
      buf[at + k] := bytes[k];
    }
    forall i | 0 <= i < buf.Length
      ensures buf[i] == Splice(old(buf[..]), at, bytes)[i]
    {
      SpliceAt(old(buf[..]), at, bytes, i);
    }
  }

  // ---------------------------------------------------------------------
  // Compression
  // ---------------------------------------------------------------------

  /**
   * `vb64_compress`: the key region at offset 0, the data region after it.
   * The used length is the key size plus the data size; the allocation adds
   * the padding, which also holds the pending key byte of an empty input.
   */
  method Compress(v: seq<u64>) returns (cdata: array<u8>, clen: nat)
    ensures fresh(cdata) && cdata.Length == |Image(v)| + PADDING
    ensures clen == KeySize(|v|) + DataSize(v) && cdata[..clen] == Image(v)
  {
    var keySize := (|v| + 1) / 2;
    var dataSize := EncodeSize(v);
    var compressSize := keySize + dataSize + PADDING;
    cdata := new u8[compressSize];
    ghost var b0 := cdata[..];
    var dataEnd := Encode(cdata, 0, keySize, v);
    clen := dataEnd;
    ImageLayout(b0, v, clen);
  }

  /**
   * `vb64_compress_delta`: as `Compress`, on the delta transform of `v`.
   * The size estimator reads `v[0]` unconditionally.
   */
  method CompressDelta(v: seq<u64>) returns (cdata: array<u8>, clen: nat)
    requires |v| >= 1
    ensures fresh(cdata) && cdata.Length == |Image(Delta(v))| + PADDING
    ensures clen == KeySize(|v|) + DataSize(Delta(v)) && cdata[..clen] == Image(Delta(v))
  {
    var keySize := (|v| + 1) / 2;
    var dataSize := DeltaEncodeSize(v);
    var compressSize := keySize + dataSize + PADDING;
    cdata := new u8[compressSize];
    ghost var b0 := cdata[..];
    var dataEnd := EncodeDelta(cdata, 0, keySize, v);
    clen := dataEnd;
    ImageLayout(b0, Delta(v), clen);
  }

  /**
   * `vb64_compress_wl`: the count `n` as the eight bytes of a `size_t` at
   * offset 0, the key region at 8, the data region at `8 + (n + 1) / 2`.
   */
  method CompressWl(v: seq<u64>) returns (cdata: array<u8>, clen: nat)
    requires |v| < WORD_LIMIT
    ensures fresh(cdata) && cdata.Length == |FramedImage(|v|, v)| + PADDING
    ensures clen == HEADER_SIZE + KeySize(|v|) + DataSize(v) && cdata[..clen] == FramedImage(|v|, v)
  {
    var keySize := HEADER_SIZE + (|v| + 1) / 2;
    var dataSize := EncodeSize(v);
    var compressSize := keySize + dataSize + PADDING;
    cdata := new u8[compressSize];
    ghost var b0 := cdata[..];
    CopyBytes(cdata, 0, MemBytes(|v|));
    var dataEnd := Encode(cdata, HEADER_SIZE, keySize, v);
    clen := dataEnd;
    FramedLayout(b0, |v|, v, clen);
  }

  /** `vb64_compress_delta_wl`: the framed layout of the delta transform. */
  method CompressDeltaWl(v: seq<u64>) returns (cdata: array<u8>, clen: nat)
    requires 1 <= |v| < WORD_LIMIT
    ensures fresh(cdata) && cdata.Length == |FramedImage(|v|, Delta(v))| + PADDING
    ensures clen == HEADER_SIZE + KeySize(|v|) + DataSize(Delta(v))
    ensures cdata[..clen] == FramedImage(|v|, Delta(v))
  {
    var keySize := HEADER_SIZE + (|v| + 1) / 2;
    var dataSize := DeltaEncodeSize(v);
    var compressSize := keySize + dataSize + PADDING;
    cdata := new u8[compressSize];
    ghost var b0 := cdata[..];
    CopyBytes(cdata, 0, MemBytes(|v|));
    var dataEnd := EncodeDelta(cdata, HEADER_SIZE, keySize, v);
    clen := dataEnd;
    FramedLayout(b0, |v|, Delta(v), clen);
  }

  // ---------------------------------------------------------------------
  // Decompression
  // ---------------------------------------------------------------------

  /**
   * `vb64_decompress`: `n` values from the key region at offset 0 and the
   * data region at `(n + 1) / 2` of `input`, into the caller's `out`.
   */
  method Decompress(input: seq<u8>, out: array<u64>, n: nat)
    requires KeySize(n) <= |input| && Decodable(input, input[KeySize(n)..], n)
    requires n <= out.Length
    modifies out
    ensures out[..n] == Decoded(input, input[KeySize(n)..], n)
    ensures out[n..] == old(out[n..])
  {
    var keySize := (n + 1) / 2;
    assert input[0..] == input;
    var _ := Decode(input, 0, keySize, out, n);
  }

  /** `vb64_decompress_delta`: as `Decompress`, undoing the delta transform. */
  method DecompressDelta(input: seq<u8>, out: array<u64>, n: nat)
    requires KeySize(n) <= |input| && Decodable(input, input[KeySize(n)..], n)
    requires n <= out.Length
    modifies out
    ensures out[..n] == Undelta(Decoded(input, input[KeySize(n)..], n))
    ensures out[n..] == old(out[n..])
  {
    var keySize := (n + 1) / 2;
    assert input[0..] == input;
    var _ := DecodeDelta(input, 0, keySize, out, n);
  }

  /** The count a framed buffer starts with: its first eight bytes as a `size_t`. */
  function FramedCount(input: seq<u8>): (n: nat)
    requires HEADER_SIZE <= |input|
    ensures n < WORD_LIMIT
  {
    Pow256Table();
    FromBytes(input[..HEADER_SIZE])
  }

  /** A framed buffer whose count and regions can be read: what the `_wl` decompressors demand. */
  predicate FramedDecodable(input: seq<u8>)
  {
    HEADER_SIZE <= |input|
    && var n := FramedCount(input);
    HEADER_SIZE + KeySize(n) <= |input|
    && Decodable(input[HEADER_SIZE..], input[HEADER_SIZE + KeySize(n)..], n)
  }

  /** The values a framed buffer describes. */
  function FramedDecoded(input: seq<u8>): (vs: seq<u64>)
    requires FramedDecodable(input)
    ensures |vs| == FramedCount(input)
  {
    var n := FramedCount(input);
    Decoded(input[HEADER_SIZE..], input[HEADER_SIZE + KeySize(n)..], n)
  }

  /**
   * `vb64_decompress_wl`: read the count from the first eight bytes, allocate
   * that many words, and decode from the key region at 8 and the data region
   * at `8 + (n + 1) / 2`.
   */
  method DecompressWl(input: seq<u8>) returns (out: array<u64>, n: nat)
    requires FramedDecodable(input)
    ensures fresh(out) && n == FramedCount(input) && out.Length == n
    ensures out[..] == FramedDecoded(input)
  {
    n := FromBytes(input[..HEADER_SIZE]);
    out := new u64[n];
    var keySize := (n + 1) / 2;
    var _ := Decode(input, HEADER_SIZE, HEADER_SIZE + keySize, out, n);
    assert out[..] == out[..n];
  }

  /** `vb64_decompress_delta_wl`: as `DecompressWl`, undoing the delta transform. */
  method DecompressDeltaWl(input: seq<u8>) returns (out: array<u64>, n: nat)
    requires FramedDecodable(input)
    ensures fresh(out) && n == FramedCount(input) && out.Length == n
    ensures out[..] == Undelta(FramedDecoded(input))
  {
    n := FromBytes(input[..HEADER_SIZE]);
    out := new u64[n];
    var keySize := (n + 1) / 2;
    var _ := DecodeDelta(input, HEADER_SIZE, HEADER_SIZE + keySize, out, n);
    assert out[..] == out[..n];
  }

  // ---------------------------------------------------------------------
  // Round trips
  // ---------------------------------------------------------------------

  /** A buffer that starts with `x + y` splits into `x` and the rest. */
  lemma {:induction false} PrefixSplit(buf: seq<u8>, x: seq<u8>, y: seq<u8>)
    requires |x| + |y| <= |buf| && buf[..|x| + |y|] == x + y
    ensures buf == x + (y + buf[|x| + |y|..]) && buf[|x|..] == y + buf[|x| + |y|..]
    ensures buf[..|x|] == x
  {
    assert buf == buf[..|x| + |y|] + buf[|x| + |y|..];
  }

  /**
   * Whatever follows it, the image of `v` decompresses to `v`: the decoder
   * finds the key region at 0 and the data region at `(n + 1) / 2`.
   */
  lemma {:induction false} ImageRoundTrip(v: seq<u64>, buf: seq<u8>)
    requires |Image(v)| <= |buf| && buf[..|Image(v)|] == Image(v)
    ensures KeySize(|v|) <= |buf| && Decodable(buf, buf[KeySize(|v|)..], |v|)
    ensures Decoded(buf, buf[KeySize(|v|)..], |v|) == v
  {
    var keys, data := KeyStream(Codes(v)), DataStream(v);
    PrefixSplit(buf, keys, data);
    ImageDecodes(v, data + buf[|Image(v)|..], buf[|Image(v)|..]);
  }

  /** The delta image of any `v`, decreasing or not, decompresses to `v` in delta mode. */
  lemma {:induction false} DeltaImageRoundTrip(v: seq<u64>, buf: seq<u8>)
    requires |Image(Delta(v))| <= |buf| && buf[..|Image(Delta(v))|] == Image(Delta(v))
    ensures KeySize(|v|) <= |buf| && Decodable(buf, buf[KeySize(|v|)..], |v|)
    ensures Undelta(Decoded(buf, buf[KeySize(|v|)..], |v|)) == v
  {
    ImageRoundTrip(Delta(v), buf);
    UndeltaDelta(v);
  }

  /**
   * Whatever follows it, the framed image of `ws` (with `n == |ws|`) is
   * framed-decodable: the count read back is `n` and the values are `ws`.
   */
  lemma {:induction false} FramedRoundTrip(ws: seq<u64>, buf: seq<u8>)
    requires |ws| < WORD_LIMIT
    requires |FramedImage(|ws|, ws)| <= |buf| && buf[..|FramedImage(|ws|, ws)|] == FramedImage(|ws|, ws)
    ensures FramedDecodable(buf) && FramedCount(buf) == |ws| && FramedDecoded(buf) == ws
  {
    var n := |ws|;
    var h, img := Header(n), Image(ws);
    assert FramedImage(n, ws) == h + img;
    PrefixSplit(buf, h, img);
    HeaderRoundTrip(n);
    assert FramedCount(buf) == n;
    var body := buf[HEADER_SIZE..];
    assert body[..|img|] == img;
    ImageRoundTrip(ws, body);
    DropDrop(buf, HEADER_SIZE, KeySize(n));
  }

  lemma {:induction false} DropDrop(s: seq<u8>, a: nat, b: nat)
    requires a + b <= |s|
    ensures s[a..][b..] == s[a + b..]
  {
  }

  /**
   * `test_encdec`: compress with the count in front, decompress, and compare.
   * Every value comes back, and so does the count.
   */
  method EncDec(v: seq<u64>) returns (decompressed: array<u64>, clen: nat)
    requires |v| < WORD_LIMIT
    ensures fresh(decompressed) && clen == |v| && decompressed[..] == v
  {
    var compressed, compressedLen := CompressWl(v);
    FramedRoundTrip(v, compressed[..]);
    decompressed, clen := DecompressWl(compressed[..]);
  }

  /**
   * `test_encdec_delta`: the same in delta mode, on any sequence of words,
   * unsorted ones included.
   */
  method EncDecDelta(v: seq<u64>) returns (decompressed: array<u64>, clen: nat)
    requires 1 <= |v| < WORD_LIMIT
    ensures fresh(decompressed) && clen == |v| && decompressed[..] == v
  {
    var compressed, compressedLen := CompressDeltaWl(v);
    FramedRoundTrip(Delta(v), compressed[..]);
    decompressed, clen := DecompressDeltaWl(compressed[..]);
    UndeltaDelta(v);
  }
}
