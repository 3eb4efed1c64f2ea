/**
 * Machine words as the codec sees them: unsigned bytes, unsigned 64-bit
 * words with wrap-around subtraction and addition, and the little-endian
 * byte image of a word that `memcpy` copies on a little-endian host.
 */
module Words {

  /** 2^64, the modulus of `uint64_t` arithmetic. */
  const WORD_LIMIT: int := 0x1_0000_0000_0000_0000

  type u8 = x: int | 0 <= x < 0x100
  type u64 = x: int | 0 <= x < 0x1_0000_0000_0000_0000

  function Pow2(k: nat): (r: nat)
    ensures r >= 1
  {
    if k == 0 then 1 else 2 * Pow2(k - 1)
  }

  function Pow256(k: nat): (r: nat)
    ensures r >= 1
  {
    if k == 0 then 1 else 256 * Pow256(k - 1)
  }

  lemma {:induction false} Pow2Monotone(a: nat, b: nat)
    requires a <= b
    ensures Pow2(a) <= Pow2(b)
  {
    if a < b {
      Pow2Monotone(a, b - 1);
    }
  }

  lemma {:induction false} Pow256Monotone(a: nat, b: nat)
    requires a <= b
    ensures Pow256(a) <= Pow256(b)
  {
    if a < b {
      Pow256Monotone(a, b - 1);
    }
  }

  /** A byte is eight bits: 256^k is 2^(8k). */
  lemma {:induction false} Pow256IsPow2(k: nat)
    ensures Pow256(k) == Pow2(8 * k)
  {
    if k > 0 {
      Pow256IsPow2(k - 1);
      var m := 8 * (k - 1);
      assert Pow2(m + 8) == 256 * Pow2(m) by {
        assert Pow2(m + 8) == 2 * Pow2(m + 7) == 4 * Pow2(m + 6) == 8 * Pow2(m + 5)
          == 16 * Pow2(m + 4) == 32 * Pow2(m + 3) == 64 * Pow2(m + 2) == 128 * Pow2(m + 1);
      }
    }
  }

  lemma {:induction false} Pow256Table()
    ensures Pow256(1) == 0x100 && Pow256(2) == 0x1_0000 && Pow256(3) == 0x100_0000
    ensures Pow256(4) == 0x1_0000_0000 && Pow256(5) == 0x100_0000_0000
    ensures Pow256(6) == 0x1_0000_0000_0000 && Pow256(7) == 0x100_0000_0000_0000
    ensures Pow256(8) == WORD_LIMIT
  {
  }

  /** `a - b` on `uint64_t`: the difference modulo 2^64. */
  function WrapSub(a: u64, b: u64): u64
  {
    (a - b) % WORD_LIMIT
  }

  /** `a + b` on `uint64_t`: the sum modulo 2^64. */
  function WrapAdd(a: u64, b: u64): u64
  {
    (a + b) % WORD_LIMIT
  }

  /** Adding back a wrapped difference recovers the minuend, for every pair of words. */
  lemma {:induction false} AddSubCancel(a: u64, b: u64)
    ensures WrapAdd(b, WrapSub(a, b)) == a
  {
    if a >= b {
      assert WrapSub(a, b) == a - b;
    } else {
      assert WrapSub(a, b) == a - b + WORD_LIMIT;
    }
  }

  /** Subtracting the addend from a wrapped sum recovers the other addend. */
  lemma {:induction false} SubAddCancel(a: u64, d: u64)
    ensures WrapSub(WrapAdd(a, d), a) == d
  {
    if a + d < WORD_LIMIT {
      assert WrapAdd(a, d) == a + d;
    } else {
      assert WrapAdd(a, d) == a + d - WORD_LIMIT;
    }
  }

  /** The `w` low-order bytes of `x`, least significant first. */
  function LeBytes(x: nat, w: nat): (s: seq<u8>)
    ensures |s| == w
  {
    if w == 0 then [] else [x % 256] + LeBytes(x / 256, w - 1)
  }

  /** The eight bytes of a word in memory on a little-endian host (`&v`). */
  function MemBytes(x: u64): (s: seq<u8>)
    ensures |s| == 8
  {
    LeBytes(x, 8)
  }

  /** The unsigned value of little-endian bytes: what `memcpy` into a zeroed word yields. */
  function FromBytes(s: seq<u8>): (x: nat)
    ensures x < Pow256(|s|)
  {
    if s == [] then 0 else s[0] + 256 * FromBytes(s[1..])
  }

  function Zeros(k: nat): (s: seq<u8>)
    ensures |s| == k && forall i :: 0 <= i < k ==> s[i] == 0
  {
    if k == 0 then [] else [0] + Zeros(k - 1)
  }

  /** Copying the first `k` bytes of a word takes the `k` low-order bytes. */
  lemma {:induction false} LeBytesPrefix(x: nat, w: nat, k: nat)
    requires k <= w
    ensures LeBytes(x, w)[..k] == LeBytes(x, k)
  {
    if k > 0 {
      LeBytesPrefix(x / 256, w - 1, k - 1);
      assert LeBytes(x, w)[..k] == [x % 256] + LeBytes(x / 256, w - 1)[..k - 1];
    }
  }

  /** Reading back the `w` low-order bytes of a value below 256^w gives the value. */
  lemma {:induction false} FromLeBytes(x: nat, w: nat)
    requires x < Pow256(w)
    ensures FromBytes(LeBytes(x, w)) == x
  {
    if w > 0 {
      assert x / 256 < Pow256(w - 1);
      FromLeBytes(x / 256, w - 1);
      assert LeBytes(x, w)[1..] == LeBytes(x / 256, w - 1);
    }
  }

  /** Writing out the value of a byte string, at its own length, gives the bytes back. */
  lemma {:induction false} LeFromBytes(s: seq<u8>)
    ensures LeBytes(FromBytes(s), |s|) == s
  {
    if s != [] {
      LeFromBytes(s[1..]);
      var x := FromBytes(s);
      assert x % 256 == s[0] && x / 256 == FromBytes(s[1..]);
    }
  }

  /** Zero bytes above the copied ones do not change the value: `memcpy` zero-extends. */
  lemma {:induction false} FromBytesZeroExtend(s: seq<u8>, k: nat)
    ensures FromBytes(s + Zeros(k)) == FromBytes(s)
  {
    if s == [] {
      assert s + Zeros(k) == Zeros(k);
      ZerosValue(k);
    } else {
      assert (s + Zeros(k))[1..] == s[1..] + Zeros(k);
      FromBytesZeroExtend(s[1..], k);
    }
  }

  lemma {:induction false} ZerosValue(k: nat)
    ensures FromBytes(Zeros(k)) == 0
  {
    if k > 0 {
      assert Zeros(k)[1..] == Zeros(k - 1);
      ZerosValue(k - 1);
    }
  }
}
