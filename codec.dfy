/**
 * The in-memory codec. The encoders write into one allocated buffer through
 * a key cursor and a data cursor, packing two width codes per key byte; the
 * decoders walk the same two cursors and rebuild the values, undoing the
 * delta transform when asked. The caller supplies the buffer and the two
 * region offsets; the allocating entry points are in `Compress`.
 */
module Codec {
  import opened Words
  import opened Width
  import opened Format
  import opened Sizes

  // ---------------------------------------------------------------------
  // Buffer contents
  // ---------------------------------------------------------------------

  /** `s` with the bytes at `at .. at + |x|` replaced by `x`. */
  function Splice(s: seq<u8>, at: nat, x: seq<u8>): (r: seq<u8>)
    requires at + |x| <= |s|
    ensures |r| == |s|
  {
    s[..at] + x + s[at + |x|..]
  }

  lemma {:induction false} SpliceAt(s: seq<u8>, at: nat, x: seq<u8>, i: nat)
    requires at + |x| <= |s| && i < |s|
    ensures Splice(s, at, x)[i] == if at <= i < at + |x| then x[i - at] else s[i]
  {
  }

  lemma {:induction false} SpliceEmpty(s: seq<u8>, at: nat)
    requires at <= |s|
    ensures Splice(s, at, []) == s
  {
    assert s[..at] + [] + s[at..] == s;
  }

  /** Writing `x` and then `y` right after it is writing `x + y`. */
  lemma {:induction false} SpliceGrow(s: seq<u8>, at: nat, x: seq<u8>, p: nat, y: seq<u8>)
    requires p == at + |x| && p + |y| <= |s|
    ensures Splice(Splice(s, at, x), p, y) == Splice(s, at, x + y)
  {
    var l := Splice(Splice(s, at, x), p, y);
    var r := Splice(s, at, x + y);
    forall i | 0 <= i < |s|
      ensures l[i] == r[i]
    {
      SpliceAt(Splice(s, at, x), p, y, i);
      SpliceAt(s, at, x, i);
      SpliceAt(s, at, x + y, i);
    }
  }

  /** A key byte stored at `at`, right after the keys written so far, extends the key region. */
  lemma {:induction false} KeyFlush(s: seq<u8>, keyAt: nat, keys: seq<u8>, at: nat, c: u8, dataAt: nat, data: seq<u8>)
    requires at == keyAt + |keys| && at < |s| && at <= dataAt && dataAt + |data| <= |s|
    requires at < dataAt || data == []
    ensures Splice(Splice(s, keyAt, keys), dataAt, data)[at := c]
         == Splice(Splice(s, keyAt, keys + [c]), dataAt, data)
  {
    var l := Splice(Splice(s, keyAt, keys), dataAt, data)[at := c];
    var r := Splice(Splice(s, keyAt, keys + [c]), dataAt, data);
    forall i | 0 <= i < |s|
      ensures l[i] == r[i]
    {
      SpliceAt(Splice(s, keyAt, keys), dataAt, data, i);
      SpliceAt(Splice(s, keyAt, keys + [c]), dataAt, data, i);
      SpliceAt(s, keyAt, keys, i);
      SpliceAt(s, keyAt, keys + [c], i);
    }
  }

  /** The key bytes the encoders store: the key stream, or one zero byte for an empty input. */
  function StoredKeys(cs: seq<nat>): (ks: seq<u8>)
    requires CodesFit(cs)
    ensures |ks| == if cs == [] then 1 else KeySize(|cs|)
  {
    if cs == [] then [0] else KeyStream(cs)
  }

  // ---------------------------------------------------------------------
  // Key packing
  // ---------------------------------------------------------------------

  /** `x << s`, for values that do not overflow. */
  function ShiftLeft(x: nat, s: nat): nat
  {
    if s == 0 then x else 2 * ShiftLeft(x, s - 1)
  }

  /** How many codes of the current key byte a shift of 0, 4 or 8 has placed. */
  function Slot(shift: nat): nat
  {
    if shift == 0 then 0 else if shift == 4 then 1 else 2
  }

  /** The pending key byte `ckey` holding the first `m` codes of key byte `j`, low nibble first. */
  function Partial(cs: seq<nat>, j: nat, m: nat): (r: nat)
    requires CodesFit(cs) && m <= 2 && 2 * j + m <= |cs|
    ensures r < 0x100
  {
    if m == 0 then 0 else if m == 1 then cs[2 * j] else cs[2 * j] + 16 * cs[2 * j + 1]
  }

  /** `ckey |= code << shift_` places the next code: the nibble at `shift` is still clear. */
  lemma {:induction false} OrIn(cs: seq<nat>, j: nat, m: nat)
    requires CodesFit(cs) && m < 2 && 2 * j + m < |cs|
    ensures Partial(cs, j, m) + ShiftLeft(cs[2 * j + m], 4 * m) == Partial(cs, j, m + 1)
  {
    if m == 1 {
      var c := cs[2 * j + 1];
      assert ShiftLeft(c, 4) == 2 * ShiftLeft(c, 3) == 4 * ShiftLeft(c, 2) == 8 * ShiftLeft(c, 1) == 16 * c;
    }
  }

  /** A full pending byte, and the pending byte after the last code, is key byte `j` of the key stream. */
  lemma {:induction false} FullKey(cs: seq<nat>, j: nat, m: nat)
    requires CodesFit(cs) && 1 <= m <= 2 && 2 * j + m <= |cs|
    requires m == 2 || 2 * j + m == |cs|
    ensures j < KeySize(|cs|) && Partial(cs, j, m) == KeyStream(cs)[j]
    ensures 2 * j + m == |cs| ==> j + 1 == KeySize(|cs|)
  {
  }

  /** The key byte and nibble of code `i = 2j + m`. */
  lemma {:induction false} Halves(i: nat, j: nat, m: nat, n: nat)
    requires m < 2 && i == 2 * j + m && i < n
    ensures i / 2 == j && 4 * (i % 2) == 4 * m && j < KeySize(n)
  {
  }

  /** Bytes `a .. b` of the region at `at` are bytes `x .. y` of the buffer. */
  lemma {:induction false} SliceOfDrop(s: seq<u8>, at: nat, a: nat, b: nat, x: nat, y: nat)
    requires at <= |s| && a <= b <= |s| - at && x == at + a && y == at + b
    ensures s[at..][a..b] == s[x..y]
  {
  }

  lemma {:induction false} TakeStep(s: seq<u8>, m: nat)
    requires m < |s|
    ensures s[..m] + [s[m]] == s[..m + 1]
  {
  }

  // ---------------------------------------------------------------------
  // One value
  // ---------------------------------------------------------------------

  /**
   * `vb64_benc`: store the significant bytes of `v` at `dp` (a `memcpy` of the
   * low `code` bytes of the word) and return the code and the advanced cursor.
   */
  method PutValue(buf: array<u8>, dp: nat, v: u64) returns (code: nat, next: nat)
    requires dp + ByteWidth(v) <= buf.Length
    modifies buf
    ensures code == ByteWidth(v) && next == dp + code
    ensures buf[..] == Splice(old(buf[..]), dp, Significant(v))
  {
    code := if v != 0 then 8 - Clz(OrOne(v)) / 8 else 0;
    ClzMatchesWidth(v);
    var bytes := MemBytes(v);
    forall k | 0 <= k < code {
      buf[dp + k] := bytes[k];
    }
    next := dp + code;
    forall i | 0 <= i < buf.Length
      ensures buf[i] == Splice(old(buf[..]), dp, Significant(v))[i]
    {
      SpliceAt(old(buf[..]), dp, Significant(v), i);
    }
  }

  /**
   * `vb64_bdec`: read `code` bytes at `dp` into a zeroed word and advance the
   * cursor. The word is the one whose `code` low-order bytes are those bytes.
   */
  method GetValue(input: seq<u8>, dp: nat, code: nat) returns (val: u64, next: nat)
    requires code <= 8 && dp + code <= |input|
    ensures next == dp + code
    ensures val < Pow256(code) && LeBytes(val, code) == input[dp..next]
    ensures val == Value(input[dp..next])
  {
    var mem := input[dp..dp + code] + Zeros(8 - code);
    FromBytesZeroExtend(input[dp..dp + code], 8 - code);
    LeFromBytes(input[dp..dp + code]);
    val := Value(mem);
    next := dp + code;
  }

  // ---------------------------------------------------------------------
  // Encoders
  // ---------------------------------------------------------------------

  /**
   * The encoder state after the first `i` values of `ws`: `j` full key bytes
   * stored at `keyAt`, the codes of the rest in the pending byte `ckey` below
   * `shift`, and the significant bytes of all `i` values stored at `dataAt`;
   * the rest of the buffer is as it was (`b0`).
   */
  ghost predicate Packed(b0: seq<u8>, keyAt: nat, dataAt: nat, ws: seq<u64>, i: nat, j: nat,
                         kp: nat, dp: nat, shift: nat, ckey: nat, buf: seq<u8>)
  {
    keyAt + KeySize(|ws|) <= dataAt && dataAt + DataSize(ws) <= |b0| && i <= |ws|
    && (shift == 0 || shift == 4 || shift == 8) && i == 2 * j + Slot(shift)
    && ckey == Partial(Codes(ws), j, Slot(shift))
    && kp == keyAt + j && dp == dataAt + DataSize(ws[..i]) && DataSize(ws[..i]) <= DataSize(ws)
    && buf == Splice(Splice(b0, keyAt, KeyStream(Codes(ws))[..j]), dataAt, DataStream(ws[..i]))
  }

  /** Before the first value nothing is stored. */
  lemma {:induction false} PackedStart(b0: seq<u8>, keyAt: nat, dataAt: nat, ws: seq<u64>)
    requires keyAt + KeySize(|ws|) <= dataAt && dataAt + DataSize(ws) <= |b0|
    ensures Packed(b0, keyAt, dataAt, ws, 0, 0, keyAt, dataAt, 0, 0, b0)
  {
    assert ws[..0] == [] && DataStream(ws[..0]) == [];
    assert KeyStream(Codes(ws))[..0] == [];
    SpliceEmpty(b0, keyAt);
    SpliceEmpty(b0, dataAt);
  }

  /** Storing a full pending byte before the next value appends it to the key region. */
  lemma {:induction false} FlushFull(b0: seq<u8>, keyAt: nat, dataAt: nat, ws: seq<u64>, i: nat, j: nat,
                  kp: nat, dp: nat, ckey: nat, buf: seq<u8>)
    requires Packed(b0, keyAt, dataAt, ws, i, j, kp, dp, 8, ckey, buf) && i < |ws|
    ensures kp < |buf| && ckey < 0x100
    ensures Packed(b0, keyAt, dataAt, ws, i, j + 1, kp + 1, dp, 0, 0, buf[kp := ckey])
  {
    var cs := Codes(ws);
    var keys, data := KeyStream(cs)[..j], DataStream(ws[..i]);
    FullKey(cs, j, 2);
    calc {
      buf[kp := ckey];
      Splice(Splice(b0, keyAt, keys), dataAt, data)[kp := ckey];
      { KeyFlush(b0, keyAt, keys, kp, ckey, dataAt, data); }
      Splice(Splice(b0, keyAt, keys + [ckey as u8]), dataAt, data);
      { TakeStep(KeyStream(cs), j); }
      Splice(Splice(b0, keyAt, KeyStream(cs)[..j + 1]), dataAt, data);
    }
  }

  /** Storing the bytes of `ws[i]` and or-ing its code into the pending byte advances the state to `i + 1`. */
  lemma {:induction false} PlaceCode(b0: seq<u8>, keyAt: nat, dataAt: nat, ws: seq<u64>, i: nat, j: nat,
                  kp: nat, dp: nat, shift: nat, ckey: nat, buf: seq<u8>)
    requires Packed(b0, keyAt, dataAt, ws, i, j, kp, dp, shift, ckey, buf) && i < |ws| && shift < 8
    ensures dp + ByteWidth(ws[i]) <= |buf|
    ensures Packed(b0, keyAt, dataAt, ws, i + 1, j, kp, dp + ByteWidth(ws[i]), shift + 4,
                   ckey + ShiftLeft(ByteWidth(ws[i]), shift), Splice(buf, dp, Significant(ws[i])))
  {
    var cs := Codes(ws);
    var keys, data := KeyStream(cs)[..j], DataStream(ws[..i]);
    assert cs[2 * j + Slot(shift)] == ByteWidth(ws[i]) && shift == 4 * Slot(shift);
    OrIn(cs, j, Slot(shift));
    assert Slot(shift + 4) == Slot(shift) + 1;
    DataStreamStep(ws, i);
    DataSizePrefix(ws, i + 1);
    SpliceGrow(Splice(b0, keyAt, keys), dataAt, data, dp, Significant(ws[i]));
  }

  /**
   * One round of the encoding loop on the value `x == ws[i]`: store the
   * pending key byte if it is full, store the significant bytes of `x`, and
   * or its code into the pending byte.
   */
  method PackValue(buf: array<u8>, ghost b0: seq<u8>, keyAt: nat, dataAt: nat, ghost ws: seq<u64>,
                   ghost i: nat, ghost j: nat, kp: nat, dp: nat, shift: nat, ckey: u8, x: u64)
    returns (ghost j2: nat, kp2: nat, dp2: nat, shift2: nat, ckey2: u8)
    requires Packed(b0, keyAt, dataAt, ws, i, j, kp, dp, shift, ckey, buf[..]) && i < |ws| && x == ws[i]
    modifies buf
    ensures Packed(b0, keyAt, dataAt, ws, i + 1, j2, kp2, dp2, shift2, ckey2, buf[..]) && shift2 > 0
  {
    j2, kp2, shift2, ckey2 := j, kp, shift, ckey;
    if shift2 == 8 {
      FlushFull(b0, keyAt, dataAt, ws, i, j, kp, dp, ckey, buf[..]);
      buf[kp2] := ckey2;
      kp2 := kp2 + 1;
      shift2 := 0;
      ckey2 := 0;
      j2 := j + 1;
    }
    PlaceCode(b0, keyAt, dataAt, ws, i, j2, kp2, dp, shift2, ckey2, buf[..]);
    var code;
    code, dp2 := PutValue(buf, dp, x);
    ckey2 := ckey2 + ShiftLeft(code, shift2);
    shift2 := shift2 + 4;
  }

  /** After the last value the data region holds the whole data stream. */
  lemma {:induction false} PackedAll(b0: seq<u8>, keyAt: nat, dataAt: nat, ws: seq<u64>, j: nat,
                  kp: nat, dp: nat, shift: nat, ckey: nat, buf: seq<u8>)
    requires Packed(b0, keyAt, dataAt, ws, |ws|, j, kp, dp, shift, ckey, buf)
    ensures dp == dataAt + DataSize(ws)
    ensures buf == Splice(Splice(b0, keyAt, KeyStream(Codes(ws))[..j]), dataAt, DataStream(ws))
  {
    assert ws[..|ws|] == ws;
  }

  /** After the last code the pending byte is the last key byte (a zero byte for no codes). */
  lemma {:induction false} LastKey(cs: seq<nat>, j: nat, shift: nat)
    requires CodesFit(cs) && (shift == 0 || shift == 4 || shift == 8)
    requires |cs| == 2 * j + Slot(shift) && (|cs| > 0 ==> shift > 0)
    ensures KeyStream(cs)[..j] + [Partial(cs, j, Slot(shift)) as u8] == StoredKeys(cs)
  {
    if |cs| > 0 {
      FullKey(cs, j, Slot(shift));
      TakeStep(KeyStream(cs), j);
      assert KeyStream(cs)[..j + 1] == KeyStream(cs);
    }
  }

  /** After the last value, storing the pending byte completes the key region. */
  lemma {:induction false} PackedDone(b0: seq<u8>, keyAt: nat, dataAt: nat, ws: seq<u64>, j: nat,
                   kp: nat, dp: nat, shift: nat, ckey: nat, buf: seq<u8>)
    requires Packed(b0, keyAt, dataAt, ws, |ws|, j, kp, dp, shift, ckey, buf) && keyAt < |b0|
    requires |ws| > 0 ==> shift > 0
    ensures kp < |buf| && ckey < 0x100 && dp == dataAt + DataSize(ws)
    ensures buf[kp := ckey] == Splice(Splice(b0, keyAt, StoredKeys(Codes(ws))), dataAt, DataStream(ws))
  {
    var cs := Codes(ws);
    var keys, data := KeyStream(cs)[..j], DataStream(ws);
    PackedAll(b0, keyAt, dataAt, ws, j, kp, dp, shift, ckey, buf);
    calc {
      buf[kp := ckey];
      Splice(Splice(b0, keyAt, keys), dataAt, data)[kp := ckey];
      { KeyFlush(b0, keyAt, keys, kp, ckey, dataAt, data); }
      Splice(Splice(b0, keyAt, keys + [ckey as u8]), dataAt, data);
      { LastKey(cs, j, shift); }
      Splice(Splice(b0, keyAt, StoredKeys(cs)), dataAt, data);
    }
  }

  /**
   * `vb64_encode`: pack the codes of `v` into the key region at `keyAt` and
   * their bytes into the data region at `dataAt`; return the end of the data.
   * Nothing else in the buffer changes. The pending key byte is stored at the
   * end even for an empty input.
   */
  method Encode(buf: array<u8>, keyAt: nat, dataAt: nat, v: seq<u64>) returns (dataEnd: nat)
    requires keyAt + KeySize(|v|) <= dataAt && keyAt < buf.Length
    requires dataAt + DataSize(v) <= buf.Length
    modifies buf
    ensures dataEnd == dataAt + DataSize(v)
    ensures buf[..] == Splice(Splice(old(buf[..]), keyAt, StoredKeys(Codes(v))), dataAt, DataStream(v))
  {
    ghost var b0 := buf[..];
    ghost var j: nat := 0;
    var kp, dp := keyAt, dataAt;
    var shift: nat, ckey: u8 := 0, 0;
    PackedStart(b0, keyAt, dataAt, v);
    for i := 0 to |v|
      invariant Packed(b0, keyAt, dataAt, v, i, j, kp, dp, shift, ckey, buf[..])
      invariant i > 0 ==> shift > 0
    {
      j, kp, dp, shift, ckey := PackValue(buf, b0, keyAt, dataAt, v, i, j, kp, dp, shift, ckey, v[i]);
    }
    PackedDone(b0, keyAt, dataAt, v, j, kp, dp, shift, ckey, buf[..]);
    buf[kp] := ckey;
    dataEnd := dp;
  }

  /**
   * `vb64_encode_delta`: as `Encode`, on the first value followed by the
   * wrapped differences of neighbours. It reads `v[0]` unconditionally.
   */
  method EncodeDelta(buf: array<u8>, keyAt: nat, dataAt: nat, v: seq<u64>) returns (dataEnd: nat)
    requires |v| >= 1
    requires keyAt + KeySize(|v|) <= dataAt
    requires dataAt + DataSize(Delta(v)) <= buf.Length
    modifies buf
    ensures dataEnd == dataAt + DataSize(Delta(v))
    ensures buf[..] == Splice(Splice(old(buf[..]), keyAt, KeyStream(Codes(Delta(v)))), dataAt, DataStream(Delta(v)))
  {
    ghost var ws, b0 := Delta(v), buf[..];
    ghost var j: nat := 0;
    var kp, dp := keyAt, dataAt;
    var shift: nat, ckey: u8 := 0, 0;
    var ov := v[0];
    PackedStart(b0, keyAt, dataAt, ws);
    DeltaAt(v, 0);
    PlaceCode(b0, keyAt, dataAt, ws, 0, 0, kp, dp, shift, ckey, buf[..]);
    var code;
    code, dp := PutValue(buf, dp, v[0]);
    ckey := ckey + ShiftLeft(code, shift);
    shift := shift + 4;
    for i := 1 to |v|
      invariant Packed(b0, keyAt, dataAt, ws, i, j, kp, dp, shift, ckey, buf[..])
      invariant shift > 0 && ov == v[i - 1]
    {
      var cv := v[i];
      DeltaAt(v, i);
      j, kp, dp, shift, ckey := PackValue(buf, b0, keyAt, dataAt, ws, i, j, kp, dp, shift, ckey, WrapSub(cv, ov));
      ov := cv;
    }
    PackedDone(b0, keyAt, dataAt, ws, j, kp, dp, shift, ckey, buf[..]);
    buf[kp] := ckey;
    dataEnd := dp;
  }

  // ---------------------------------------------------------------------
  // Decoders
  // ---------------------------------------------------------------------

  /**
   * The decoder state after the first `i` of `n` values: key byte `j` of the
   * key region at `keyAt` is loaded in `key` (the key cursor is past it), the
   * code of value `i` sits at `shift` in it unless the byte is used up, and the
   * data cursor is past the bytes of the first `i` values.
   */
  ghost predicate Reading(input: seq<u8>, keyAt: nat, dataAt: nat, n: nat, i: nat, j: nat,
                          kp: nat, dp: nat, shift: nat, key: u8)
  {
    keyAt <= |input| && dataAt <= |input| && Decodable(input[keyAt..], input[dataAt..], n)
    && i <= n && (shift == 0 || shift == 4 || shift == 8) && i == 2 * j + Slot(shift)
    && j < KeySize(n) && kp == keyAt + j + 1 && key == input[keyAt + j]
    && dp == dataAt + Sum(KeyCodes(input[keyAt..], n)[..i]) <= |input|
  }

  /** The first `i` of the `n` values the key and data regions at `keyAt` and `dataAt` describe. */
  ghost function DecodedPrefix(input: seq<u8>, keyAt: nat, dataAt: nat, n: nat, i: nat): (vs: seq<u64>)
    requires keyAt <= |input| && dataAt <= |input| && Decodable(input[keyAt..], input[dataAt..], n)
    requires i <= n
    ensures |vs| == i
  {
    SumPrefix(KeyCodes(input[keyAt..], n), i);
    Unpack(KeyCodes(input[keyAt..], n)[..i], input[dataAt..])
  }

  /** Loading the first key byte starts the decoding of a nonempty input. */
  lemma {:induction false} ReadingStart(input: seq<u8>, keyAt: nat, dataAt: nat, n: nat)
    requires keyAt <= |input| && dataAt <= |input| && Decodable(input[keyAt..], input[dataAt..], n) && n > 0
    ensures keyAt < |input|
    ensures Reading(input, keyAt, dataAt, n, 0, 0, keyAt + 1, dataAt, 0, input[keyAt])
    ensures DecodedPrefix(input, keyAt, dataAt, n, 0) == []
  {
    assert KeyCodes(input[keyAt..], n)[..0] == [];
  }

  /** A used-up key byte is followed by the next one, which holds the code of value `i`. */
  lemma {:induction false} ReadFlush(input: seq<u8>, keyAt: nat, dataAt: nat, n: nat, i: nat, j: nat,
                  kp: nat, dp: nat, key: u8)
    requires Reading(input, keyAt, dataAt, n, i, j, kp, dp, 8, key) && i < n
    ensures kp < |input|
    ensures Reading(input, keyAt, dataAt, n, i, j + 1, kp + 1, dp, 0, input[kp])
  {
  }

  /** `(key >> shift) & 0xF` is the code of value `i`. */
  lemma {:induction false} CodeOf(input: seq<u8>, keyAt: nat, dataAt: nat, n: nat, i: nat, j: nat,
               kp: nat, dp: nat, shift: nat, key: u8)
    requires Reading(input, keyAt, dataAt, n, i, j, kp, dp, shift, key) && i < n && shift < 8
    ensures Nibble(key, shift) == KeyCodes(input[keyAt..], n)[i] <= 8
  {
    var keys := input[keyAt..];
    Halves(i, j, Slot(shift), n);
    NibbleHalves(key);
    assert key == keys[i / 2] && shift == 4 * (i % 2);
  }

  /** The bytes of value `i` follow the data cursor; reading them advances the state to `i + 1`. */
  lemma {:induction false} ReadCode(input: seq<u8>, keyAt: nat, dataAt: nat, n: nat, i: nat, j: nat,
                 kp: nat, dp: nat, shift: nat, key: u8)
    requires Reading(input, keyAt, dataAt, n, i, j, kp, dp, shift, key) && i < n && shift < 8
    requires Nibble(key, shift) == KeyCodes(input[keyAt..], n)[i] <= 8
    ensures dp + Nibble(key, shift) <= |input|
    ensures Reading(input, keyAt, dataAt, n, i + 1, j, kp, dp + Nibble(key, shift), shift + 4, key)
  {
    var cs := KeyCodes(input[keyAt..], n);
    SumStep(cs, i);
    SumPrefix(cs, i + 1);
    assert Slot(shift + 4) == Slot(shift) + 1;
  }

  /** Unpacking one more code reads the value at `dp`, where the data of the first `i` codes ends. */
  lemma {:induction false} UnpackAt(cs: seq<nat>, input: seq<u8>, dataAt: nat, i: nat, dp: nat)
    requires CodesFit(cs) && dataAt <= |input| && Sum(cs) <= |input| - dataAt
    requires i < |cs| && dp == dataAt + Sum(cs[..i])
    ensures cs[i] <= 8 && dp + cs[i] <= |input| && Sum(cs[..i + 1]) <= |input| - dataAt
    ensures Unpack(cs[..i + 1], input[dataAt..])
         == Unpack(cs[..i], input[dataAt..]) + [Value(input[dp..dp + cs[i]])]
  {
    var data := input[dataAt..];
    var at := Sum(cs[..i]);
    UnpackStep(cs, data, i);
    ValueOfDrop(input, dataAt, at, cs[i], dp);
  }

  /** The value read at offset `at` of the data region is the value read at `dp == dataAt + at`. */
  lemma {:induction false} ValueOfDrop(input: seq<u8>, dataAt: nat, at: nat, c: nat, dp: nat)
    requires dataAt <= |input| && c <= 8 && at + c <= |input| - dataAt && dp == dataAt + at
    ensures Value(input[dataAt..][at..at + c]) == Value(input[dp..dp + c])
  {
    SliceOfDrop(input, dataAt, at, at + c, dp, dp + c);
  }

  lemma {:induction false} ReadValue(input: seq<u8>, keyAt: nat, dataAt: nat, n: nat, i: nat, dp: nat)
    requires keyAt <= |input| && dataAt <= |input| && Decodable(input[keyAt..], input[dataAt..], n)
    requires i < n && dp == dataAt + Sum(KeyCodes(input[keyAt..], n)[..i])
    ensures var c := KeyCodes(input[keyAt..], n)[i];
      c <= 8 && dp + c <= |input| &&
      DecodedPrefix(input, keyAt, dataAt, n, i + 1)
        == DecodedPrefix(input, keyAt, dataAt, n, i) + [Value(input[dp..dp + c])]
  {
    UnpackAt(KeyCodes(input[keyAt..], n), input, dataAt, i, dp);
  }

  /**
   * One round of the decoding loop: load the next key byte if the current one
   * is used up, then read the value whose code sits at `shift`.
   */
  method UnpackValue(input: seq<u8>, ghost keyAt: nat, ghost dataAt: nat, ghost n: nat,
                     ghost i: nat, ghost j: nat, kp: nat, dp: nat, shift: nat, key: u8)
    returns (ghost j2: nat, kp2: nat, dp2: nat, shift2: nat, key2: u8, val: u64)
    requires Reading(input, keyAt, dataAt, n, i, j, kp, dp, shift, key) && i < n
    ensures Reading(input, keyAt, dataAt, n, i + 1, j2, kp2, dp2, shift2, key2) && shift2 > 0
    ensures DecodedPrefix(input, keyAt, dataAt, n, i + 1) == DecodedPrefix(input, keyAt, dataAt, n, i) + [val]
  {
    j2, kp2, shift2, key2 := j, kp, shift, key;
    if shift2 == 8 {
      ReadFlush(input, keyAt, dataAt, n, i, j, kp, dp, key);
      shift2 := 0;
      key2 := input[kp2];
      kp2 := kp2 + 1;
      j2 := j + 1;
    }
    CodeOf(input, keyAt, dataAt, n, i, j2, kp2, dp, shift2, key2);
    ReadCode(input, keyAt, dataAt, n, i, j2, kp2, dp, shift2, key2);
    ReadValue(input, keyAt, dataAt, n, i, dp);
    val, dp2 := GetValue(input, dp, Nibble(key2, shift2));
    shift2 := shift2 + 4;
  }

  /** After the last value the prefix is the whole decoded sequence. */
  lemma {:induction false} ReadingDone(input: seq<u8>, keyAt: nat, dataAt: nat, n: nat, j: nat,
                    kp: nat, dp: nat, shift: nat, key: u8)
    requires Reading(input, keyAt, dataAt, n, n, j, kp, dp, shift, key)
    ensures DecodedPrefix(input, keyAt, dataAt, n, n) == Decoded(input[keyAt..], input[dataAt..], n)
    ensures dp == dataAt + Sum(KeyCodes(input[keyAt..], n))
  {
    assert KeyCodes(input[keyAt..], n)[..n] == KeyCodes(input[keyAt..], n);
  }

  /**
   * `vb64_decode`: read `n` values through the key region at `keyAt` and the
   * data region at `dataAt` into `out`; return the end of the data. The rest
   * of `out` is untouched.
   */
  method Decode(input: seq<u8>, keyAt: nat, dataAt: nat, out: array<u64>, n: nat) returns (dataEnd: nat)
    requires keyAt <= |input| && dataAt <= |input| && Decodable(input[keyAt..], input[dataAt..], n)
    requires n <= out.Length
    modifies out
    ensures out[..n] == Decoded(input[keyAt..], input[dataAt..], n)
    ensures out[n..] == old(out[n..])
    ensures dataEnd == dataAt + Sum(KeyCodes(input[keyAt..], n))
  {
    if n == 0 {
      return dataAt;
    }
    ReadingStart(input, keyAt, dataAt, n);
    var kp: nat, dp: nat := keyAt, dataAt;
    var shift: nat, key := 0, input[kp];
    kp := kp + 1;
    ghost var j: nat := 0;
    for i := 0 to n
      invariant Reading(input, keyAt, dataAt, n, i, j, kp, dp, shift, key)
      invariant out[..i] == DecodedPrefix(input, keyAt, dataAt, n, i)
      invariant out[n..] == old(out[n..])
    {
      var val;
      j, kp, dp, shift, key, val := UnpackValue(input, keyAt, dataAt, n, i, j, kp, dp, shift, key);
      out[i] := val;
      assert out[..i + 1] == out[..i] + [val];
    }
    ReadingDone(input, keyAt, dataAt, n, j, kp, dp, shift, key);
    dataEnd := dp;
  }

  /**
   * The first read of `vb64_decode_delta`: load the first key byte, read the
   * value whose code is its low nibble (`key & 0xF`) and store it as read.
   */
  method DecodeFirst(input: seq<u8>, keyAt: nat, dataAt: nat, out: array<u64>, n: nat)
    returns (kp: nat, dp: nat, key: u8, prev: u64)
    requires keyAt <= |input| && dataAt <= |input| && Decodable(input[keyAt..], input[dataAt..], n)
    requires 0 < n <= out.Length
    modifies out
    ensures Reading(input, keyAt, dataAt, n, 1, 0, kp, dp, 4, key)
    ensures out[..1] == Undelta(DecodedPrefix(input, keyAt, dataAt, n, 1)) && prev == out[0]
    ensures out[n..] == old(out[n..])
  {
    ReadingStart(input, keyAt, dataAt, n);
    kp, dp := keyAt, dataAt;
    key := input[kp];
    kp := kp + 1;
    CodeOf(input, keyAt, dataAt, n, 0, 0, kp, dp, 0, key);
    ReadCode(input, keyAt, dataAt, n, 0, 0, kp, dp, 0, key);
    ReadValue(input, keyAt, dataAt, n, 0, dp);
    NibbleHalves(key);
    prev, dp := GetValue(input, dp, key % 16);
    out[0] := prev;
    assert out[..1] == [prev];
  }

  /**
   * One round of the delta decoding loop: read the next difference as
   * `UnpackValue` does and add it to the previous output word `prev`.
   */
  method UnpackDeltaValue(input: seq<u8>, ghost keyAt: nat, ghost dataAt: nat, ghost n: nat,
                          ghost i: nat, ghost j: nat, kp: nat, dp: nat, shift: nat, key: u8,
                          prev: u64, ghost o: seq<u64>)
    returns (ghost j2: nat, kp2: nat, dp2: nat, shift2: nat, key2: u8, val: u64)
    requires Reading(input, keyAt, dataAt, n, i, j, kp, dp, shift, key) && 0 < i < n
    requires o == Undelta(DecodedPrefix(input, keyAt, dataAt, n, i)) && prev == o[i - 1]
    ensures Reading(input, keyAt, dataAt, n, i + 1, j2, kp2, dp2, shift2, key2)
    ensures o + [val] == Undelta(DecodedPrefix(input, keyAt, dataAt, n, i + 1))
  {
    var d;
    j2, kp2, dp2, shift2, key2, d := UnpackValue(input, keyAt, dataAt, n, i, j, kp, dp, shift, key);
    UndeltaExtend(o, DecodedPrefix(input, keyAt, dataAt, n, i), d, prev);
    val := WrapAdd(prev, d);
  }

  /**
   * `vb64_decode_delta`: as `Decode`, adding each decoded difference to the
   * previous output word (mod 2^64). The first value is stored as read.
   */
  method DecodeDelta(input: seq<u8>, keyAt: nat, dataAt: nat, out: array<u64>, n: nat) returns (dataEnd: nat)
    requires keyAt <= |input| && dataAt <= |input| && Decodable(input[keyAt..], input[dataAt..], n)
    requires n <= out.Length
    modifies out
    ensures out[..n] == Undelta(Decoded(input[keyAt..], input[dataAt..], n))
    ensures out[n..] == old(out[n..])
    ensures dataEnd == dataAt + Sum(KeyCodes(input[keyAt..], n))
  {
    if n == 0 {
      return dataAt;
    }
    var kp, dp, key, prev := DecodeFirst(input, keyAt, dataAt, out, n);
    ghost var j: nat := 0;
    var shift: nat := 4;
    for i := 1 to n
      invariant Reading(input, keyAt, dataAt, n, i, j, kp, dp, shift, key)
      invariant out[..i] == Undelta(DecodedPrefix(input, keyAt, dataAt, n, i))
      invariant prev == out[i - 1]
      invariant out[n..] == old(out[n..])
    {
      ghost var o := out[..i];
      j, kp, dp, shift, key, prev := UnpackDeltaValue(input, keyAt, dataAt, n, i, j, kp, dp, shift, key, prev, o);
      out[i] := prev;
      assert out[..i + 1] == o + [prev];
    }
    ReadingDone(input, keyAt, dataAt, n, j, kp, dp, shift, key);
    dataEnd := dp;
  }
}
