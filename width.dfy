/**
 * The width calculator: how many low-order bytes of a 64-bit value are
 * significant. The codec computes it from the count of leading zero bits
 * (`__builtin_clzll`); with `VBYTE64_NO_CLZ` it walks a ladder of
 * comparisons instead, and the size estimators count exceeded thresholds.
 * All three are the same function of the value.
 */
module Width {
  import opened Words

  /** The number of significant bits of `x`: 0 for 0, otherwise floor(log2 x) + 1. */
  function BitLength(x: nat): (b: nat)
    ensures x == 0 ==> b == 0
    ensures x > 0 ==> b >= 1 && Pow2(b - 1) <= x < Pow2(b)
  {
    if x == 0 then 0 else 1 + BitLength(x / 2)
  }

  lemma {:induction false} WordBitLength(x: u64)
    ensures BitLength(x) <= 64
  {
    var b := BitLength(x);
    if b > 64 {
      Pow2Monotone(64, b - 1);
      Pow256IsPow2(8);
      Pow256Table();
    }
  }

  /** `__builtin_clzll(x)`: the number of leading zero bits of a nonzero 64-bit word. */
  function Clz(x: u64): (r: nat)
    requires x != 0
    ensures r <= 63
    ensures Pow2(63 - r) <= x < Pow2(64 - r)
  {
    WordBitLength(x);
    64 - BitLength(x)
  }

  /** `x | 1`: sets the lowest bit. */
  function OrOne(x: u64): (r: u64)
    ensures r != 0
  {
    if x % 2 == 0 then x + 1 else x
  }

  /** Setting the lowest bit of a nonzero word does not move its highest bit. */
  lemma {:induction false} OrOneKeepsBitLength(x: u64)
    requires x != 0
    ensures BitLength(OrOne(x)) == BitLength(x)
  {
    if x % 2 == 0 {
      assert (x + 1) / 2 == x / 2;
    }
  }

  /** The number of significant bytes of `x`: 0 for 0, otherwise one more than that of `x / 256`. */
  function SigBytes(x: nat): nat
  {
    if x == 0 then 0 else 1 + SigBytes(x / 256)
  }

  /** `x` needs exactly `SigBytes(x)` bytes: it lies in [256^(w-1), 256^w). */
  lemma {:induction false} SigBytesBounds(x: nat)
    ensures x < Pow256(SigBytes(x))
    ensures x > 0 ==> SigBytes(x) >= 1 && Pow256(SigBytes(x) - 1) <= x
  {
    if x > 0 {
      SigBytesBounds(x / 256);
    }
  }

  /** A value below 256^k has at most k significant bytes. */
  lemma {:induction false} SigBytesAtMost(x: nat, k: nat)
    requires x < Pow256(k)
    ensures SigBytes(x) <= k
  {
    if x > 0 {
      SigBytesAtMost(x / 256, k - 1);
    }
  }

  /** The width code of a value: how many of its low-order bytes are significant. */
  function ByteWidth(v: u64): (w: nat)
    ensures w <= 8
    ensures w == 0 <==> v == 0
  {
    Pow256Table();
    SigBytesAtMost(v, 8);
    SigBytes(v)
  }

  /** The width code is minimal: the least W in 0..8 with v < 256^W. */
  lemma {:induction false} ByteWidthMinimal(v: u64)
    ensures v < Pow256(ByteWidth(v))
    ensures ByteWidth(v) > 0 ==> Pow256(ByteWidth(v) - 1) <= v
  {
    SigBytesBounds(v);
  }

  /** Only one width brackets a nonzero value between consecutive powers of 256. */
  lemma {:induction false} WidthUnique(v: u64, w: nat)
    requires 1 <= w && Pow256(w - 1) <= v < Pow256(w)
    ensures w == ByteWidth(v)
  {
    ByteWidthMinimal(v);
    var s := ByteWidth(v);
    if w < s {
      Pow256Monotone(w, s - 1);
    } else if w > s {
      Pow256Monotone(s, w - 1);
    }
  }

  /**
   * The width code by the expression of the default build:
   * `v ? 8 - (__builtin_clzll(v | 1) >> 3) : 0`.
   */
  function ClzWidth(v: u64): nat
  {
    if v == 0 then 0 else 8 - Clz(OrOne(v)) / 8
  }

  /** The leading-zero expression computes the width code of every 64-bit word. */
  lemma {:induction false} ClzMatchesWidth(v: u64)
    ensures ClzWidth(v) == ByteWidth(v)
  {
    if v != 0 {
      ClzWidthMinimal(v);
    }
  }

  /**
   * For a nonzero word the leading-zero expression brackets it between
   * consecutive powers of 256, so it is the width code.
   */
  lemma {:induction false} ClzWidthMinimal(v: u64)
    requires v != 0
    ensures 1 <= ClzWidth(v) <= 8 && Pow256(ClzWidth(v) - 1) <= v < Pow256(ClzWidth(v))
    ensures ClzWidth(v) == ByteWidth(v)
  {
    var b := BitLength(v);
    assert Clz(OrOne(v)) == 64 - b by {
      OrOneKeepsBitLength(v);
      WordBitLength(v);
    }
    var w := ClzWidth(v);
    assert w == 8 - (64 - b) / 8;
    CeilingBytes(b);
    BracketBytes(v, b, w);
    WidthUnique(v, w);
  }

  /** A value with `b` significant bits, where `8(w - 1) < b <= 8w`, has `w` significant bytes. */
  lemma {:induction false} BracketBytes(v: nat, b: nat, w: nat)
    requires 1 <= b && 1 <= w && 8 * (w - 1) <= b - 1 && b <= 8 * w
    requires Pow2(b - 1) <= v < Pow2(b)
    ensures Pow256(w - 1) <= v < Pow256(w)
  {
    Pow2Monotone(8 * (w - 1), b - 1);
    Pow2Monotone(b, 8 * w);
    Pow256IsPow2(w);
    Pow256IsPow2(w - 1);
  }

  lemma {:induction false} CeilingBytes(b: nat)
    requires 1 <= b <= 64
    ensures var w := 8 - (64 - b) / 8;
      1 <= w <= 8 && 8 * (w - 1) <= b - 1 && b <= 8 * w
  {
  }

  /** The comparison ladder of `vb64_benc_noclz` and `vb64f_benc_noclz`. */
  function LadderWidth(v: u64): nat
  {
    if v == 0 then 0
    else if v < 0x100 then 1
    else if v < 0x1_0000 then 2
    else if v < 0x100_0000 then 3
    else if v < 0x1_0000_0000 then 4
    else if v < 0x100_0000_0000 then 5
    else if v < 0x1_0000_0000_0000 then 6
    else if v < 0x100_0000_0000_0000 then 7
    else 8
  }

  /** The count of exceeded thresholds used by the `_noclz` size estimators. */
  function ThresholdWidth(v: u64): nat
  {
    (if v > 0 then 1 else 0) + (if v > 0xFF then 1 else 0)
    + (if v > 0xFFFF then 1 else 0) + (if v > 0xFF_FFFF then 1 else 0)
    + (if v > 0xFFFF_FFFF then 1 else 0) + (if v > 0xFF_FFFF_FFFF then 1 else 0)
    + (if v > 0xFFFF_FFFF_FFFF then 1 else 0) + (if v > 0xFF_FFFF_FFFF_FFFF then 1 else 0)
  }

  /** The comparison ladder computes the width code of every 64-bit word. */
  lemma {:induction false} LadderMatchesWidth(v: u64)
    ensures LadderWidth(v) == ByteWidth(v)
  {
    var w := ByteWidth(v);
    ByteWidthMinimal(v);
    Pow256Table();
    if w == 1 {
    } else if w == 2 {
    } else if w == 3 {
    } else if w == 4 {
    } else if w == 5 {
    } else if w == 6 {
    } else if w == 7 {
    } else if w == 8 {
    }
  }

  /** The threshold count computes the width code of every 64-bit word. */
  lemma {:induction false} ThresholdMatchesWidth(v: u64)
    ensures ThresholdWidth(v) == ByteWidth(v)
  {
    LadderMatchesWidth(v);
  }

  /** The boundary cases of the width code. */
  lemma {:induction false} WidthExamples()
    ensures ByteWidth(0) == 0 && ByteWidth(255) == 1 && ByteWidth(256) == 2
    ensures ByteWidth(0xFFFF_FFFF_FFFF_FFFF) == 8
  {
    LadderMatchesWidth(255);
    LadderMatchesWidth(256);
    LadderMatchesWidth(0xFFFF_FFFF_FFFF_FFFF);
  }
}
