/**
 * The compressed layout, as functions of the input values:
 * the key stream (4-bit width codes, two per byte, low nibble first),
 * the data stream (each value's significant bytes, low-order byte first),
 * the delta transform, the 8-byte length header, and the reading of
 * those streams back into values.
 */
module Format {
  import opened Words
  import opened Width

  /** `VBYTE64_PADDING`: spare bytes allocated after the logical stream. */
  const PADDING: nat := 64

  /** `sizeof(size_t)`: the length header of the framed layouts. */
  const HEADER_SIZE: nat := 8

  /** Number of key bytes for `n` values: two codes per byte, rounded up. */
  function KeySize(n: nat): nat
  {
    (n + 1) / 2
  }

  predicate CodesFit(cs: seq<nat>)
  {
    forall i :: 0 <= i < |cs| ==> cs[i] <= 8
  }

  /** The width code of each value. */
  function Codes(ws: seq<u64>): (cs: seq<nat>)
    ensures |cs| == |ws| && CodesFit(cs)
  {
    seq(|ws|, i requires 0 <= i < |ws| => ByteWidth(ws[i]))
  }

  function Sum(cs: seq<nat>): nat
  {
    if cs == [] then 0 else Sum(cs[..|cs| - 1]) + cs[|cs| - 1]
  }

  /** The data-stream size of `ws`: the sum of the widths of its values. */
  function DataSize(ws: seq<u64>): nat
  {
    if ws == [] then 0 else DataSize(ws[..|ws| - 1]) + ByteWidth(ws[|ws| - 1])
  }

  /** The significant bytes of a value: its `ByteWidth(v)` low-order bytes. */
  function Significant(v: u64): (s: seq<u8>)
    ensures |s| == ByteWidth(v)
  {
    MemBytes(v)[..ByteWidth(v)]
  }

  /** The data stream: the significant bytes of every value, in order. */
  function DataStream(ws: seq<u64>): (d: seq<u8>)
    ensures |d| == DataSize(ws)
  {
    if ws == [] then [] else DataStream(ws[..|ws| - 1]) + Significant(ws[|ws| - 1])
  }

  /** Key byte `j`: code 2j in the low nibble, code 2j+1 (or 0 past the end) in the high nibble. */
  function KeyByte(cs: seq<nat>, j: nat): u8
    requires CodesFit(cs) && 2 * j < |cs|
  {
    cs[2 * j] + 16 * (if 2 * j + 1 < |cs| then cs[2 * j + 1] else 0)
  }

  /** The key stream: one nibble per value, two per byte, low nibble first. */
  function KeyStream(cs: seq<nat>): (ks: seq<u8>)
    requires CodesFit(cs)
    ensures |ks| == KeySize(|cs|)
  {
    seq(KeySize(|cs|), j requires 0 <= j < KeySize(|cs|) => KeyByte(cs, j))
  }

  /** `(key >> shift) & 0xF`. */
  function Nibble(key: u8, shift: nat): nat
  {
    key / Pow2(shift) % 16
  }

  /** Shifting by 0 and by 4 selects the low and the high nibble. */
  lemma {:induction false} NibbleHalves(key: u8)
    ensures Nibble(key, 0) == key % 16 && Nibble(key, 4) == key / 16
  {
    assert Pow2(4) == 16;
  }

  /**
   * The code the decoders read for value `i`: the low nibble of key byte
   * `i / 2` when `i` is even, its high nibble when `i` is odd.
   */
  function CodeAt(keys: seq<u8>, i: nat): nat
    requires i / 2 < |keys|
  {
    if i % 2 == 0 then keys[i / 2] % 16 else keys[i / 2] / 16
  }

  /** The codes of the first `n` values of a key stream. */
  function KeyCodes(keys: seq<u8>, n: nat): (cs: seq<nat>)
    requires KeySize(n) <= |keys|
    ensures |cs| == n
  {
    seq(n, i requires 0 <= i < n => CodeAt(keys, i))
  }

  /** The value of the zero-extended little-endian bytes `s`. */
  function Value(s: seq<u8>): u64
    requires |s| <= 8
  {
    ValueFits(s);
    FromBytes(s)
  }

  lemma {:induction false} ValueFits(s: seq<u8>)
    requires |s| <= 8
    ensures FromBytes(s) < WORD_LIMIT
  {
    Pow256Monotone(|s|, 8);
    Pow256Table();
  }

  /** Read one value per code from the data stream, each taking as many bytes as its code. */
  function Unpack(cs: seq<nat>, data: seq<u8>): (vs: seq<u64>)
    requires CodesFit(cs) && Sum(cs) <= |data|
    ensures |vs| == |cs|
  {
    if cs == [] then []
    else
      var k := |cs| - 1;
      Unpack(cs[..k], data) + [Value(data[Sum(cs[..k])..Sum(cs)])]
  }

  /** What the decoders demand of their input: codes that fit a word and enough data bytes. */
  predicate Decodable(keys: seq<u8>, data: seq<u8>, n: nat)
  {
    KeySize(n) <= |keys| && CodesFit(KeyCodes(keys, n)) && Sum(KeyCodes(keys, n)) <= |data|
  }

  /** The `n` values a key stream and a data stream describe. */
  function Decoded(keys: seq<u8>, data: seq<u8>, n: nat): (vs: seq<u64>)
    requires Decodable(keys, data, n)
    ensures |vs| == n
  {
    Unpack(KeyCodes(keys, n), data)
  }

  /** The delta transform: the first value as it is, then each value minus its predecessor mod 2^64. */
  function Delta(v: seq<u64>): (d: seq<u64>)
    ensures |d| == |v|
  {
    if |v| <= 1 then v
    else Delta(v[..|v| - 1]) + [WrapSub(v[|v| - 1], v[|v| - 2])]
  }

  /** The running sum mod 2^64 that undoes the delta transform. */
  function Undelta(d: seq<u64>): (v: seq<u64>)
    ensures |v| == |d|
  {
    if |d| <= 1 then d
    else
      var p := Undelta(d[..|d| - 1]);
      p + [WrapAdd(p[|p| - 1], d[|d| - 1])]
  }

  /** The length header: `n` as the eight bytes of a `size_t`. */
  function Header(n: nat): (h: seq<u8>)
    ensures |h| == HEADER_SIZE
  {
    LeBytes(n, HEADER_SIZE)
  }

  /** The logical stream of a layout without header: key region, then data region. */
  function Image(ws: seq<u64>): (s: seq<u8>)
    ensures |s| == KeySize(|ws|) + DataSize(ws)
  {
    KeyStream(Codes(ws)) + DataStream(ws)
  }

  /** The logical stream of a framed layout: the count `n`, then the key and data regions. */
  function FramedImage(n: nat, ws: seq<u64>): (s: seq<u8>)
    ensures |s| == HEADER_SIZE + KeySize(|ws|) + DataSize(ws)
  {
    Header(n) + Image(ws)
  }

  // ---------------------------------------------------------------------
  // Properties of the layout
  // ---------------------------------------------------------------------

  /** The size of a prefix never exceeds the size of the whole sequence. */
  lemma {:induction false} DataSizePrefix(ws: seq<u64>, i: nat)
    requires i <= |ws|
    ensures DataSize(ws[..i]) <= DataSize(ws)
  {
    if i < |ws| {
      assert ws[..|ws| - 1][..i] == ws[..i];
      DataSizePrefix(ws[..|ws| - 1], i);
    } else {
      assert ws[..i] == ws;
    }
  }

  /** Extending by one value adds that value's width to the size and its bytes to the stream. */
  lemma {:induction false} DataStreamStep(ws: seq<u64>, i: nat)
    requires i < |ws|
    ensures DataSize(ws[..i + 1]) == DataSize(ws[..i]) + ByteWidth(ws[i])
    ensures DataStream(ws[..i + 1]) == DataStream(ws[..i]) + Significant(ws[i])
  {
    assert ws[..i + 1][..i] == ws[..i];
  }

  /** The significant bytes are the low-order bytes up to the width. */
  lemma {:induction false} SignificantBytes(v: u64)
    ensures Significant(v) == LeBytes(v, ByteWidth(v))
  {
    LeBytesPrefix(v, 8, ByteWidth(v));
  }

  /** Reading the significant bytes of a value back gives the value: `vb64_bdec` inverts `vb64_benc`. */
  lemma {:induction false} SignificantRoundTrip(v: u64)
    ensures Value(Significant(v)) == v
  {
    SignificantBytes(v);
    ByteWidthMinimal(v);
    FromLeBytes(v, ByteWidth(v));
  }

  /** The sum of the width codes is the data size. */
  lemma {:induction false} SumOfCodes(ws: seq<u64>)
    ensures Sum(Codes(ws)) == DataSize(ws)
  {
    if ws != [] {
      var k := |ws| - 1;
      assert Codes(ws)[..k] == Codes(ws[..k]);
      SumOfCodes(ws[..k]);
    }
  }

  lemma {:induction false} SumPrefix(cs: seq<nat>, i: nat)
    requires i <= |cs|
    ensures Sum(cs[..i]) <= Sum(cs)
  {
    if i < |cs| {
      assert cs[..|cs| - 1][..i] == cs[..i];
      SumPrefix(cs[..|cs| - 1], i);
    } else {
      assert cs[..i] == cs;
    }
  }

  lemma {:induction false} SumStep(cs: seq<nat>, i: nat)
    requires i < |cs|
    ensures Sum(cs[..i + 1]) == Sum(cs[..i]) + cs[i]
  {
    assert cs[..i + 1][..i] == cs[..i];
  }

  /** The value after the first `i` starts where their bytes end and takes `cs[i]` bytes. */
  lemma {:induction false} UnpackStep(cs: seq<nat>, data: seq<u8>, i: nat)
    requires CodesFit(cs) && Sum(cs) <= |data| && i < |cs|
    ensures Sum(cs[..i + 1]) == Sum(cs[..i]) + cs[i] <= |data|
    ensures Unpack(cs[..i + 1], data)
         == Unpack(cs[..i], data) + [Value(data[Sum(cs[..i])..Sum(cs[..i]) + cs[i]])]
  {
    SumPrefix(cs, i + 1);
    assert cs[..i + 1][..i] == cs[..i];
  }

  /**
   * Key layout: reading the key stream back gives every code. Code i sits in
   * key byte i / 2, in the low nibble when i is even and the high nibble when i is odd.
   */
  lemma {:induction false} KeyLayout(cs: seq<nat>, rest: seq<u8>)
    requires CodesFit(cs)
    ensures KeyCodes(KeyStream(cs) + rest, |cs|) == cs
  {
    var keys := KeyStream(cs) + rest;
    forall i | 0 <= i < |cs|
      ensures CodeAt(keys, i) == cs[i]
    {
      NibbleOfKeyByte(cs, i);
      assert keys[i / 2] == KeyStream(cs)[i / 2];
    }
  }

  lemma {:induction false} NibbleOfKeyByte(cs: seq<nat>, i: nat)
    requires CodesFit(cs) && i < |cs|
    ensures CodeAt(KeyStream(cs), i) == cs[i]
  {
    var j := i / 2;
    var lo := cs[2 * j];
    var hi := if 2 * j + 1 < |cs| then cs[2 * j + 1] else 0;
    assert KeyStream(cs)[j] == lo + 16 * hi;
    assert (lo + 16 * hi) % 16 == lo;
    assert (lo + 16 * hi) / 16 == hi;
  }

  /** Unpacking the data stream by the widths of its values gives the values back. */
  lemma {:induction false} UnpackDataStream(ws: seq<u64>, rest: seq<u8>)
    ensures Sum(Codes(ws)) <= |DataStream(ws) + rest|
    ensures Unpack(Codes(ws), DataStream(ws) + rest) == ws
    decreases |ws|
  {
    SumOfCodes(ws);
    if ws != [] {
      var k := |ws| - 1;
      UnpackDataStream(ws[..k], Significant(ws[k]) + rest);
      UnpackLast(ws, rest);
    }
  }

  /** The data stream of `ws` is that of all but the last value, then the last value's bytes. */
  lemma {:induction false} DataStreamSnoc(ws: seq<u64>, rest: seq<u8>)
    requires ws != []
    ensures DataStream(ws) + rest
         == DataStream(ws[..|ws| - 1]) + (Significant(ws[|ws| - 1]) + rest)
  {
    var front, last := DataStream(ws[..|ws| - 1]), Significant(ws[|ws| - 1]);
    assert DataStream(ws) == front + last;
    assert (front + last) + rest == front + (last + rest);
  }

  /** The step of the data-stream round trip: decoding all but the last value extends to all. */
  lemma {:induction false} UnpackLast(ws: seq<u64>, rest: seq<u8>)
    requires ws != []
    requires var k := |ws| - 1;
      Sum(Codes(ws[..k])) <= |DataStream(ws[..k]) + (Significant(ws[k]) + rest)|
      && Unpack(Codes(ws[..k]), DataStream(ws[..k]) + (Significant(ws[k]) + rest)) == ws[..k]
    ensures Sum(Codes(ws)) <= |DataStream(ws) + rest|
    ensures Unpack(Codes(ws), DataStream(ws) + rest) == ws
  {
    var k := |ws| - 1;
    var cs, data := Codes(ws), DataStream(ws) + rest;
    DataStreamSnoc(ws, rest);
    CodesPrefix(ws, k);
    LastValue(ws, rest);
    UnpackSnoc(cs, data, ws[..k], ws[k]);
    LastSplit(ws);
  }

  /** A nonempty sequence is its front followed by its last element. */
  lemma {:induction false} LastSplit<T>(s: seq<T>)
    requires s != []
    ensures s[..|s| - 1] + [s[|s| - 1]] == s
  {
  }

  /** Unpacking all codes is unpacking all but the last, then reading the last value. */
  lemma {:induction false} UnpackSnoc(cs: seq<nat>, data: seq<u8>, front: seq<u64>, x: u64)
    requires cs != [] && CodesFit(cs) && Sum(cs) <= |data|
    requires Sum(cs[..|cs| - 1]) <= Sum(cs)
    requires Unpack(cs[..|cs| - 1], data) == front
    requires Value(data[Sum(cs[..|cs| - 1])..Sum(cs)]) == x
    ensures Unpack(cs, data) == front + [x]
  {
  }

  /** The width codes of a prefix are the prefix of the width codes. */
  lemma {:induction false} CodesPrefix(ws: seq<u64>, k: nat)
    requires k <= |ws|
    ensures Codes(ws)[..k] == Codes(ws[..k])
  {
  }

  /** The last value's bytes sit after those of the others, and read back as the value. */
  lemma {:induction false} LastValue(ws: seq<u64>, rest: seq<u8>)
    requires ws != []
    ensures var k, cs := |ws| - 1, Codes(ws);
      Sum(cs[..k]) <= Sum(cs) <= |DataStream(ws) + rest| &&
      Value((DataStream(ws) + rest)[Sum(cs[..k])..Sum(cs)]) == ws[k]
  {
    var k, cs := |ws| - 1, Codes(ws);
    var front, last := DataStream(ws[..k]), Significant(ws[k]);
    assert cs[..k] == Codes(ws[..k]);
    SumOfCodes(ws);
    SumOfCodes(ws[..k]);
    assert (DataStream(ws) + rest)[|front|..|front| + |last|] == last;
    SignificantRoundTrip(ws[k]);
  }

  /**
   * Round trip of the streams: the key stream and data stream of `ws`, followed
   * by anything, are decodable and decode to `ws`.
   */
  lemma {:induction false} ImageDecodes(ws: seq<u64>, keyRest: seq<u8>, dataRest: seq<u8>)
    ensures Decodable(KeyStream(Codes(ws)) + keyRest, DataStream(ws) + dataRest, |ws|)
    ensures Decoded(KeyStream(Codes(ws)) + keyRest, DataStream(ws) + dataRest, |ws|) == ws
  {
    KeyLayout(Codes(ws), keyRest);
    UnpackDataStream(ws, dataRest);
  }

  /** Every code the decoders read from an encoder's key stream is that value's width. */
  lemma {:induction false} KeyCodesOfImage(ws: seq<u64>, rest: seq<u8>)
    ensures KeyCodes(KeyStream(Codes(ws)) + rest, |ws|) == Codes(ws)
  {
    KeyLayout(Codes(ws), rest);
  }

  /** Each delta after the first is the wrapped difference of neighbouring values. */
  lemma {:induction false} DeltaAt(v: seq<u64>, i: nat)
    requires i < |v|
    ensures Delta(v)[i] == if i == 0 then v[0] else WrapSub(v[i], v[i - 1])
  {
    if |v| > 1 && i < |v| - 1 {
      DeltaAt(v[..|v| - 1], i);
    }
  }

  /** The delta transform of a prefix is the prefix of the delta transform. */
  lemma {:induction false} DeltaPrefix(v: seq<u64>, i: nat)
    requires i <= |v|
    ensures Delta(v[..i]) == Delta(v)[..i]
  {
    if i == |v| {
      assert v[..i] == v;
    } else if |v| > 1 {
      assert v[..|v| - 1][..i] == v[..i];
      DeltaPrefix(v[..|v| - 1], i);
    }
  }

  /** Extending the input by one value extends the delta stream by its wrapped difference. */
  lemma {:induction false} DeltaStep(v: seq<u64>, i: nat)
    requires 1 <= i < |v|
    ensures Delta(v[..i + 1]) == Delta(v[..i]) + [WrapSub(v[i], v[i - 1])]
  {
    assert v[..i + 1][..i] == v[..i];
  }

  /** The running sum undoes the delta transform, for every sequence, decreasing ones included. */
  lemma {:induction false} UndeltaDelta(v: seq<u64>)
    ensures Undelta(Delta(v)) == v
  {
    if |v| > 1 {
      var k := |v| - 1;
      var d := Delta(v);
      assert d[..k] == Delta(v[..k]);
      UndeltaDelta(v[..k]);
      AddSubCancel(v[k], v[k - 1]);
      assert v == v[..k] + [v[k]];
    }
  }

  /** The delta transform undoes the running sum: the two are inverse bijections. */
  lemma {:induction false} DeltaUndelta(d: seq<u64>)
    ensures Delta(Undelta(d)) == d
  {
    if |d| > 1 {
      var k := |d| - 1;
      var p := Undelta(d[..k]);
      var x := WrapAdd(p[k - 1], d[k]);
      var v := p + [x];
      assert Undelta(d) == v;
      assert v[..k] == p && v[k] == x && v[k - 1] == p[k - 1];
      DeltaUndelta(d[..k]);
      SubAddCancel(p[k - 1], d[k]);
      assert Delta(v) == d[..k] + [d[k]];
      LastSplit(d);
    }
  }

  /** Undoing the delta transform on a prefix gives the prefix of the result. */
  lemma {:induction false} UndeltaStep(d: seq<u64>, i: nat)
    requires 1 <= i < |d|
    ensures Undelta(d[..i + 1]) == Undelta(d[..i]) + [WrapAdd(Undelta(d[..i])[i - 1], d[i])]
  {
    assert d[..i + 1][..i] == d[..i];
  }

  /** Undoing the delta transform of one more value adds it to the last running sum. */
  lemma {:induction false} UndeltaSnoc(d: seq<u64>, x: u64)
    requires d != []
    ensures Undelta(d + [x]) == Undelta(d) + [WrapAdd(Undelta(d)[|d| - 1], x)]
  {
    assert (d + [x])[..|d|] == d;
  }

  /** A running sum `o` of `d` ending in `prev` extends by `prev + x` to the running sum of `d + [x]`. */
  lemma {:induction false} UndeltaExtend(o: seq<u64>, d: seq<u64>, x: u64, prev: u64)
    requires d != [] && o == Undelta(d) && prev == o[|o| - 1]
    ensures o + [WrapAdd(prev, x)] == Undelta(d + [x])
  {
    UndeltaSnoc(d, x);
  }

  /** The header holds the count: reading its eight bytes back gives `n` for every `size_t`. */
  lemma {:induction false} HeaderRoundTrip(n: nat)
    requires n < WORD_LIMIT
    ensures FromBytes(Header(n)) == n
  {
    Pow256Table();
    FromLeBytes(n, HEADER_SIZE);
  }

  /** The worked example: deltas [0, 13, 3, 1, 3, 0], widths [0, 1, 1, 1, 1, 0]. */
  lemma {:induction false} DeltaExample()
    ensures Delta([0, 13, 16, 17, 20, 20]) == [0, 13, 3, 1, 3, 0]
    ensures Codes(Delta([0, 13, 16, 17, 20, 20])) == [0, 1, 1, 1, 1, 0]
    ensures Undelta([0, 13, 3, 1, 3, 0]) == [0, 13, 16, 17, 20, 20]
  {
    var v: seq<u64> := [0, 13, 16, 17, 20, 20];
    DeltaAt(v, 0);
    DeltaAt(v, 1);
    DeltaAt(v, 2);
    DeltaAt(v, 3);
    DeltaAt(v, 4);
    DeltaAt(v, 5);
    assert Delta(v) == [0, 13, 3, 1, 3, 0];
    LadderMatchesWidth(13);
    LadderMatchesWidth(3);
    LadderMatchesWidth(1);
    UndeltaDelta(v);
  }
}
