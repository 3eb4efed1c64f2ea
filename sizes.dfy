/**
 * The size estimators: the exact number of data-stream bytes the encoders
 * will write, and the allocation size that adds the key region and the
 * padding. Each has a leading-zero form and a comparison form; both return
 * the same count.
 */
module Sizes {
  import opened Words
  import opened Width
  import opened Format

  /** `vb64_encode_size`: the sum of the widths of the values. */
  method EncodeSize(v: seq<u64>) returns (nbytes: nat)
    ensures nbytes == DataSize(v) == |DataStream(v)|
    ensures nbytes <= 8 * |v|
  {
    nbytes := 0;
    for i := 0 to |v|
      invariant nbytes == DataSize(v[..i]) <= 8 * i
    {
      DataStreamStep(v, i);
      nbytes := nbytes + ByteWidth(v[i]);
    }
    assert v[..|v|] == v;
  }

  /** `vb64_encode_size_noclz`: the same sum, counting exceeded thresholds. */
  method EncodeSizeNoClz(v: seq<u64>) returns (nbytes: nat)
    ensures nbytes == DataSize(v) == |DataStream(v)|
  {
    nbytes := 0;
    for i := 0 to |v|
      invariant nbytes == DataSize(v[..i])
    {
      DataStreamStep(v, i);
      ThresholdMatchesWidth(v[i]);
      nbytes := nbytes + ThresholdWidth(v[i]);
    }
    assert v[..|v|] == v;
  }

  /**
   * `vb64d_encode_size`: the width of the first value plus the widths of the
   * wrapped differences of neighbours. It reads `v[0]` unconditionally.
   */
  method DeltaEncodeSize(v: seq<u64>) returns (nbytes: nat)
    requires |v| >= 1
    ensures nbytes == DataSize(Delta(v)) == |DataStream(Delta(v))|
    ensures nbytes <= 8 * |v|
  {
    var prev := v[0];
    nbytes := ByteWidth(prev);
    assert Delta(v[..1]) == [v[0]];
    assert DataSize([v[0]]) == ByteWidth(v[0]) by {
      assert [v[0]][..0] == [];
    }
    for i := 1 to |v|
      invariant prev == v[i - 1]
      invariant nbytes == DataSize(Delta(v[..i])) <= 8 * i
    {
      var cur := v[i];
      DeltaStep(v, i);
      DataStreamStep(Delta(v[..i + 1]), i);
      assert Delta(v[..i + 1])[..i] == Delta(v[..i]);
      nbytes := nbytes + ByteWidth(WrapSub(cur, prev));
      prev := cur;
    }
    assert v[..|v|] == v;
  }

  /** `vb64d_encode_size_noclz`: the delta size, counting exceeded thresholds. */
  method DeltaEncodeSizeNoClz(v: seq<u64>) returns (nbytes: nat)
    requires |v| >= 1
    ensures nbytes == DataSize(Delta(v)) == |DataStream(Delta(v))|
  {
    var prev := v[0];
    ThresholdMatchesWidth(prev);
    nbytes := ThresholdWidth(prev);
    assert Delta(v[..1]) == [v[0]];
    assert DataSize([v[0]]) == ByteWidth(v[0]) by {
      assert [v[0]][..0] == [];
    }
    for i := 1 to |v|
      invariant prev == v[i - 1]
      invariant nbytes == DataSize(Delta(v[..i]))
    {
      var cur := v[i];
      DeltaStep(v, i);
      DataStreamStep(Delta(v[..i + 1]), i);
      assert Delta(v[..i + 1])[..i] == Delta(v[..i]);
      ThresholdMatchesWidth(WrapSub(cur, prev));
      nbytes := nbytes + ThresholdWidth(WrapSub(cur, prev));
      prev := cur;
    }
    assert v[..|v|] == v;
  }

  /** `vb64_compressed_size`: key bytes, plus data bytes, plus `VBYTE64_PADDING`. */
  method CompressedSize(v: seq<u64>) returns (size: nat)
    ensures size == KeySize(|v|) + |DataStream(v)| + PADDING
    ensures size == |Image(v)| + PADDING
  {
    var keySize := (|v| + 1) / 2;
    var dataSize := EncodeSize(v);
    size := keySize + dataSize + PADDING;
  }

  /** `vb64d_compressed_size`: the same for the delta stream. */
  method DeltaCompressedSize(v: seq<u64>) returns (size: nat)
    requires |v| >= 1
    ensures size == KeySize(|v|) + |DataStream(Delta(v))| + PADDING
    ensures size == |Image(Delta(v))| + PADDING
  {
    var keySize := (|v| + 1) / 2;
    var dataSize := DeltaEncodeSize(v);
    size := keySize + dataSize + PADDING;
  }
}
