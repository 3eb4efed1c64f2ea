/**
 * The streaming file codec (`vb64f_*`): delta mode with the count in
 * front, written to and read back from one file through two streams on it,
 * one for the count and the key bytes from offset 0 and one for the data
 * bytes from offset `8 + (n + 1) / 2`. A failed write or read abandons the
 * operation (the source unwinds with `longjmp`): compressing returns 0 and
 * decompressing returns null.
 */
module FileCodec {
  import opened Words
  import opened Width
  import opened Format
  import opened Codec
  import opened Compress
  import opened Files

  /** Where the data region of a file holding `n` values starts: after the count and the key bytes. */
  function DataOffset(n: nat): nat
  {
    HEADER_SIZE + KeySize(n)
  }

  // ---------------------------------------------------------------------
  // Writing
  // ---------------------------------------------------------------------

  /**
   * The file after `head` (the count and the first key bytes) is written
   * from offset 0 and `data` from `keyEnd`: until the key bytes reach
   * `keyEnd`, zero bytes fill the gap before the data.
   */
  ghost function Written(head: seq<u8>, keyEnd: nat, data: seq<u8>): seq<u8>
    requires |head| <= keyEnd
  {
    if data == [] then head else head + Zeros(keyEnd - |head|) + data
  }

  /** Writing a key byte right after `head` appends it to `head`. */
  lemma {:induction false} KeyWritten(head: seq<u8>, keyEnd: nat, data: seq<u8>, c: u8)
    requires |head| < keyEnd
    ensures Overwrite(Written(head, keyEnd, data), |head|, [c]) == Written(head + [c], keyEnd, data)
  {
    if data == [] {
      assert head[..|head|] == head;
    } else {
      var z := Zeros(keyEnd - |head| - 1);
      var s := head + ([0] + z) + data;
      assert Zeros(keyEnd - |head|) == [0] + z;
      assert s[..|head|] == head;
      assert s[|head| + 1..] == z + data;
      assert head + [c] + z + data == head + [c] + (z + data);
    }
  }

  /** Writing nonempty data right after `data` appends it to `data`. */
  lemma {:induction false} DataWritten(head: seq<u8>, keyEnd: nat, data: seq<u8>, x: seq<u8>,
                                       bytes: seq<u8>, at: nat, data2: seq<u8>)
    requires |head| <= keyEnd && x != []
    requires bytes == Written(head, keyEnd, data) && at == keyEnd + |data| && data2 == data + x
    ensures Overwrite(bytes, at, x) == Written(head, keyEnd, data2)
  {
    var z := Zeros(keyEnd - |head|);
    if data == [] {
      assert head + z == (if keyEnd <= |head| then head else head + Zeros(keyEnd - |head|));
      assert (head + z)[..keyEnd] == head + z;
    } else {
      var s := head + z + data;
      assert s[..keyEnd + |data|] == s;
      assert s + x == head + z + (data + x);
    }
  }

  /** Once the key bytes reach the data region, the file is the key side followed by the data. */
  lemma {:induction false} WrittenFull(head: seq<u8>, data: seq<u8>)
    ensures Written(head, |head|, data) == head + data
  {
    assert Zeros(0) == [];
  }

  /** The count and the first `j` key bytes of the values `ws`. */
  ghost function KeySide(ws: seq<u64>, j: nat): (h: seq<u8>)
    requires j <= KeySize(|ws|)
    ensures |h| == HEADER_SIZE + j
  {
    Header(|ws|) + KeyStream(Codes(ws))[..j]
  }

  /** The file once `j` key bytes and the data bytes of the first `i` values of `ws` are written. */
  ghost function Layout(ws: seq<u64>, i: nat, j: nat): seq<u8>
    requires i <= |ws| && j <= KeySize(|ws|)
  {
    Written(KeySide(ws, j), DataOffset(|ws|), DataStream(ws[..i]))
  }

  /** One more key byte on the key side. */
  lemma {:induction false} KeySideStep(ws: seq<u64>, j: nat)
    requires j < KeySize(|ws|)
    ensures KeySide(ws, j + 1) == KeySide(ws, j) + [KeyStream(Codes(ws))[j]]
  {
    TakeStep(KeyStream(Codes(ws)), j);
  }

  /** Writing key byte `j` at its place, offset `at`, into the file `bytes` extends the key side. */
  lemma {:induction false} LayoutKeyStep(ws: seq<u64>, i: nat, j: nat, bytes: seq<u8>, at: nat, c: u8)
    requires i <= |ws| && j < KeySize(|ws|)
    requires bytes == Layout(ws, i, j) && at == HEADER_SIZE + j && c == KeyStream(Codes(ws))[j]
    ensures Overwrite(bytes, at, [c]) == Layout(ws, i, j + 1)
  {
    KeySideStep(ws, j);
    KeyWritten(KeySide(ws, j), DataOffset(|ws|), DataStream(ws[..i]), c);
  }

  /** Writing the significant bytes of `ws[i]` at the end of the data, offset `at`, extends the data side. */
  lemma {:induction false} LayoutDataStep(ws: seq<u64>, i: nat, j: nat, bytes: seq<u8>, at: nat)
    requires i < |ws| && j <= KeySize(|ws|) && ByteWidth(ws[i]) > 0
    requires bytes == Layout(ws, i, j) && at == DataOffset(|ws|) + DataSize(ws[..i])
    ensures Overwrite(bytes, at, Significant(ws[i])) == Layout(ws, i + 1, j)
  {
    DataStreamStep(ws, i);
    DataWritten(KeySide(ws, j), DataOffset(|ws|), DataStream(ws[..i]), Significant(ws[i]),
                bytes, at, DataStream(ws[..i + 1]));
  }

  /** A value of width 0 leaves the data side as it is. */
  lemma {:induction false} LayoutEmptyStep(ws: seq<u64>, i: nat, j: nat, bytes: seq<u8>)
    requires i < |ws| && j <= KeySize(|ws|) && ByteWidth(ws[i]) == 0 && bytes == Layout(ws, i, j)
    ensures bytes == Layout(ws, i + 1, j)
  {
    DataStreamStep(ws, i);
    assert DataStream(ws[..i + 1]) == DataStream(ws[..i]);
  }

  /** With every key byte and every value written, the file is the framed image. */
  lemma {:induction false} LayoutFull(ws: seq<u64>, bytes: seq<u8>)
    requires bytes == Layout(ws, |ws|, KeySize(|ws|))
    ensures bytes == FramedImage(|ws|, ws)
  {
    assert ws[..|ws|] == ws;
    assert KeyStream(Codes(ws))[..KeySize(|ws|)] == KeyStream(Codes(ws));
    WrittenFull(KeySide(ws, KeySize(|ws|)), DataStream(ws));
  }

  /**
   * The writer state after the first `i` of the values `ws` (the deltas):
   * the count and `j` key bytes written from offset 0, the codes of the
   * rest in the pending byte `ckey` below `shift`, the significant bytes of
   * all `i` values written from the data offset, `nbytes` counting the key
   * and data bytes written, and the file still within the device's room.
   */
  ghost predicate Streaming(bytes: seq<u8>, room: nat, ws: seq<u64>, i: nat, j: nat,
                            keyPos: nat, dataPos: nat, shift: nat, ckey: nat, nbytes: nat)
  {
    Progress(ws, i, j, keyPos, dataPos, shift, ckey, nbytes) && bytes == Layout(ws, i, j) && |bytes| <= room
  }

  /** The positions, the pending key byte and the byte count of the writer after `i` values. */
  ghost predicate Progress(ws: seq<u64>, i: nat, j: nat, keyPos: nat, dataPos: nat, shift: nat, ckey: nat, nbytes: nat)
  {
    i <= |ws| && (shift == 0 || shift == 4 || shift == 8) && i == 2 * j + Slot(shift)
    && j < KeySize(|ws|) && ckey == Partial(Codes(ws), j, Slot(shift))
    && keyPos == HEADER_SIZE + j
    && dataPos == DataOffset(|ws|) + DataSize(ws[..i]) && DataSize(ws[..i]) <= DataSize(ws)
    && nbytes == j + DataSize(ws[..i])
  }

  /** Placing the code of `ws[i]` in the pending byte and its bytes in the data advances the writer. */
  lemma {:induction false} ProgressPlace(ws: seq<u64>, i: nat, j: nat, keyPos: nat, dataPos: nat,
                                         shift: nat, ckey: nat, nbytes: nat)
    requires Progress(ws, i, j, keyPos, dataPos, shift, ckey, nbytes) && i < |ws| && shift < 8
    ensures var w := ByteWidth(ws[i]);
      Progress(ws, i + 1, j, keyPos, dataPos + w, shift + 4, ckey + ShiftLeft(w, shift), nbytes + w)
      && dataPos + w <= DataOffset(|ws|) + DataSize(ws)
  {
    var cs := Codes(ws);
    var w, m := ByteWidth(ws[i]), Slot(shift);
    assert 2 * j + m == i && cs[i] == w && shift == 4 * m && Slot(shift + 4) == m + 1;
    OrIn(cs, j, m);
    DataStreamStep(ws, i);
    DataSizePrefix(ws, i + 1);
  }

  /** Before the first value the file holds the count alone. */
  lemma {:induction false} StreamingStart(bytes: seq<u8>, room: nat, ws: seq<u64>)
    requires |ws| >= 1 && bytes == Header(|ws|) && |bytes| <= room
    ensures Streaming(bytes, room, ws, 0, 0, HEADER_SIZE, DataOffset(|ws|), 0, 0, 0)
  {
    assert ws[..0] == [];
    assert KeySide(ws, 0) == Header(|ws|);
  }

  /** Writing a full pending byte before the next value appends it to the key bytes. */
  lemma {:induction false} StreamFlush(bytes: seq<u8>, room: nat, ws: seq<u64>, i: nat, j: nat,
                                       keyPos: nat, dataPos: nat, ckey: nat, nbytes: nat)
    requires Streaming(bytes, room, ws, i, j, keyPos, dataPos, 8, ckey, nbytes) && i < |ws|
    ensures ckey < 0x100 && keyPos + 1 < DataOffset(|ws|)
    ensures keyPos + 1 <= room ==>
      Streaming(Overwrite(bytes, keyPos, [ckey as u8]), room, ws, i, j + 1, keyPos + 1, dataPos, 0, 0, nbytes + 1)
  {
    FullKey(Codes(ws), j, 2);
    LayoutKeyStep(ws, i, j, bytes, keyPos, ckey as u8);
  }

  /** A value of width 0 writes no data bytes; its code 0 joins the pending byte. */
  lemma {:induction false} StreamSkip(bytes: seq<u8>, room: nat, ws: seq<u64>, i: nat, j: nat,
                                      keyPos: nat, dataPos: nat, shift: nat, ckey: nat, nbytes: nat)
    requires Streaming(bytes, room, ws, i, j, keyPos, dataPos, shift, ckey, nbytes) && i < |ws| && shift < 8
    requires ByteWidth(ws[i]) == 0
    ensures Streaming(bytes, room, ws, i + 1, j, keyPos, dataPos, shift + 4, ckey + ShiftLeft(0, shift), nbytes)
  {
    ProgressPlace(ws, i, j, keyPos, dataPos, shift, ckey, nbytes);
    LayoutEmptyStep(ws, i, j, bytes);
  }

  /**
   * Writing the significant bytes of `ws[i]` at the data stream and or-ing
   * its code into the pending byte advances the writer; the bytes end
   * within the image.
   */
  lemma {:induction false} StreamPlace(bytes: seq<u8>, room: nat, ws: seq<u64>, i: nat, j: nat,
                                       keyPos: nat, dataPos: nat, shift: nat, ckey: nat, nbytes: nat)
    requires Streaming(bytes, room, ws, i, j, keyPos, dataPos, shift, ckey, nbytes) && i < |ws| && shift < 8
    ensures dataPos + ByteWidth(ws[i]) <= DataOffset(|ws|) + DataSize(ws)
    ensures var w := ByteWidth(ws[i]);
      w > 0 && dataPos + w <= room ==>
      Streaming(Overwrite(bytes, dataPos, Significant(ws[i])), room, ws, i + 1, j, keyPos, dataPos + w,
                shift + 4, ckey + ShiftLeft(w, shift), nbytes + w)
  {
    ProgressPlace(ws, i, j, keyPos, dataPos, shift, ckey, nbytes);
    if ByteWidth(ws[i]) > 0 {
      LayoutDataStep(ws, i, j, bytes, dataPos);
    }
  }

  /** After the last value, writing the pending byte completes the file: count, key bytes, data bytes. */
  lemma {:induction false} StreamDone(bytes: seq<u8>, room: nat, ws: seq<u64>, j: nat,
                                      keyPos: nat, dataPos: nat, shift: nat, ckey: nat, nbytes: nat)
    requires Streaming(bytes, room, ws, |ws|, j, keyPos, dataPos, shift, ckey, nbytes) && shift > 0
    ensures ckey < 0x100 && keyPos + 1 == DataOffset(|ws|)
    ensures dataPos == DataOffset(|ws|) + DataSize(ws) && nbytes + 1 == KeySize(|ws|) + DataSize(ws)
    ensures Overwrite(bytes, keyPos, [ckey as u8]) == FramedImage(|ws|, ws)
  {
    FullKey(Codes(ws), j, Slot(shift));
    assert ws[..|ws|] == ws;
    LayoutKeyStep(ws, |ws|, j, bytes, keyPos, ckey as u8);
    LayoutFull(ws, Overwrite(bytes, keyPos, [ckey as u8]));
  }

  /**
   * `vb64f_benc`: nothing for 0; otherwise the `8 - clz(x | 1) / 8` low
   * bytes of `x`, written as one item through the data stream.
   */
  method PutFileValue(data: Stream, x: u64) returns (ok: bool, code: nat)
    modifies data, data.file
    ensures code == ByteWidth(x)
    ensures ok <==> code == 0 || old(data.pos) + code <= data.file.capacity
    ensures data.file.bytes
         == if ok && code > 0 then Overwrite(old(data.file.bytes), old(data.pos), Significant(x)) else old(data.file.bytes)
    ensures data.pos == if ok then old(data.pos) + code else old(data.pos)
  {
    if x == 0 {
      return true, 0;
    }
    ClzMatchesWidth(x);
    code := 8 - Clz(OrOne(x)) / 8;
    ok := data.Write(MemBytes(x)[..code]);
  }

  /** Writes the full pending key byte before the next value, through `keys`. */
  method FlushKey(keys: Stream, data: Stream, ghost ws: seq<u64>, ghost i: nat, ghost j: nat, ckey: u8, nbytes: nat)
    returns (ok: bool)
    requires keys != data && keys.file == data.file
    requires Streaming(keys.file.bytes, keys.file.capacity, ws, i, j, keys.pos, data.pos, 8, ckey, nbytes) && i < |ws|
    modifies keys, keys.file
    ensures ok ==> Streaming(keys.file.bytes, keys.file.capacity, ws, i, j + 1, keys.pos, data.pos, 0, 0, nbytes + 1)
    ensures !ok ==> keys.file.capacity < |FramedImage(|ws|, ws)|
  {
    StreamFlush(keys.file.bytes, keys.file.capacity, ws, i, j, keys.pos, data.pos, ckey, nbytes);
    ok := keys.Write([ckey]);
  }

  /** Writes the significant bytes of `x == ws[i]` through `data` and ors its code into the pending byte. */
  method PlaceValue(keys: Stream, data: Stream, ghost ws: seq<u64>, ghost i: nat, ghost j: nat,
                    shift: nat, ckey: u8, nbytes: nat, x: u64) returns (ok: bool, ckey2: u8, nbytes2: nat)
    requires keys != data && keys.file == data.file
    requires Streaming(keys.file.bytes, keys.file.capacity, ws, i, j, keys.pos, data.pos, shift, ckey, nbytes)
    requires i < |ws| && x == ws[i] && shift < 8
    modifies data, data.file
    ensures ok ==>
      Streaming(keys.file.bytes, keys.file.capacity, ws, i + 1, j, keys.pos, data.pos, shift + 4, ckey2, nbytes2)
    ensures !ok ==> keys.file.capacity < |FramedImage(|ws|, ws)|
  {
    if x == 0 {
      StreamSkip(keys.file.bytes, keys.file.capacity, ws, i, j, keys.pos, data.pos, shift, ckey, nbytes);
    } else {
      StreamPlace(keys.file.bytes, keys.file.capacity, ws, i, j, keys.pos, data.pos, shift, ckey, nbytes);
    }
    var code;
    ok, code := PutFileValue(data, x);
    ckey2, nbytes2 := 0, 0;
    if ok {
      ckey2 := ckey + ShiftLeft(code, shift) as u8;
      nbytes2 := nbytes + code;
    }
  }

  /**
   * One round of the writing loop on the value `x == ws[i]`: write the
   * pending key byte if it is full, write the significant bytes of `x`,
   * and or its code into the pending byte. A failed write means the file
   * does not fit the device.
   */
  method StreamValue(keys: Stream, data: Stream, ghost ws: seq<u64>, ghost i: nat, ghost j: nat,
                     shift: nat, ckey: u8, nbytes: nat, x: u64)
    returns (ok: bool, ghost j2: nat, shift2: nat, ckey2: u8, nbytes2: nat)
    requires keys != data && keys.file == data.file
    requires Streaming(keys.file.bytes, keys.file.capacity, ws, i, j, keys.pos, data.pos, shift, ckey, nbytes)
    requires i < |ws| && x == ws[i]
    modifies keys, data, keys.file
    ensures ok ==> (shift2 > 0
      && Streaming(keys.file.bytes, keys.file.capacity, ws, i + 1, j2, keys.pos, data.pos, shift2, ckey2, nbytes2))
    ensures !ok ==> keys.file.capacity < |FramedImage(|ws|, ws)|
  {
    j2, shift2, ckey2, nbytes2 := j, shift, ckey, nbytes;
    if shift == 8 {
      ok := FlushKey(keys, data, ws, i, j, ckey, nbytes);
      if !ok {
        return;
      }
      j2, shift2, ckey2, nbytes2 := j + 1, 0, 0, nbytes + 1;
    }
    ok, ckey2, nbytes2 := PlaceValue(keys, data, ws, i, j2, shift2, ckey2, nbytes2, x);
    shift2 := shift2 + 4;
  }

  /** Writes the last, possibly half-full, key byte: the file is complete. */
  method LastKeyByte(keys: Stream, data: Stream, ghost ws: seq<u64>, ghost j: nat, shift: nat, ckey: u8, nbytes: nat)
    returns (ok: bool, total: nat)
    requires keys != data && keys.file == data.file
    requires Streaming(keys.file.bytes, keys.file.capacity, ws, |ws|, j, keys.pos, data.pos, shift, ckey, nbytes)
    requires shift > 0
    modifies keys, keys.file
    ensures ok <==> |FramedImage(|ws|, ws)| <= keys.file.capacity
    ensures ok ==> total == KeySize(|ws|) + DataSize(ws) && keys.file.bytes == FramedImage(|ws|, ws)
    ensures ok ==> keys.pos == DataOffset(|ws|) && data.pos == DataOffset(|ws|) + DataSize(ws)
  {
    StreamDone(keys.file.bytes, keys.file.capacity, ws, j, keys.pos, data.pos, shift, ckey, nbytes);
    ok := keys.Write([ckey]);
    total := nbytes + 1;
  }

  /**
   * `vb64f_encode_delta`: the first value in full, then the wrapped
   * difference of each value and its predecessor, the key bytes through
   * `keys` as they fill and the data bytes through `data`. On success the
   * file is the framed image of the deltas and the result counts its key
   * and data bytes; it fails exactly when that image does not fit the
   * device.
   */
  method EncodeDeltaToFile(keys: Stream, data: Stream, v: seq<u64>) returns (ok: bool, nbytes: nat)
    requires |v| >= 1 && keys != data && keys.file == data.file
    requires keys.file.bytes == Header(|v|) && HEADER_SIZE <= keys.file.capacity
    requires keys.pos == HEADER_SIZE && data.pos == DataOffset(|v|)
    modifies keys, data, keys.file
    ensures ok <==> |FramedImage(|v|, Delta(v))| <= keys.file.capacity
    ensures ok ==> nbytes == KeySize(|v|) + DataSize(Delta(v)) && keys.file.bytes == FramedImage(|v|, Delta(v))
    ensures ok ==> keys.pos == DataOffset(|v|) && data.pos == DataOffset(|v|) + DataSize(Delta(v))
  {
    ghost var ws := Delta(v);
    ghost var f := keys.file;
    StreamingStart(f.bytes, f.capacity, ws);
    DeltaAt(v, 0);
    ghost var j;
    var shift, ckey;
    ok, j, shift, ckey, nbytes := StreamValue(keys, data, ws, 0, 0, 0, 0, 0, v[0]);
    if !ok {
      return;
    }
    var ov := v[0];
    var i := 1;
    while i < |v|
      invariant 1 <= i <= |v| && ov == v[i - 1] && shift > 0
      invariant Streaming(f.bytes, f.capacity, ws, i, j, keys.pos, data.pos, shift, ckey, nbytes)
    {
      var cv := v[i];
      DeltaAt(v, i);
      ok, j, shift, ckey, nbytes := StreamValue(keys, data, ws, i, j, shift, ckey, nbytes, WrapSub(cv, ov));
      if !ok {
        return;
      }
      ov := cv;
      i := i + 1;
    }
    ok, nbytes := LastKeyByte(keys, data, ws, j, shift, ckey, nbytes);
  }

  /**
   * `vb64f_compress_delta`: open the file for writing (emptying it) and
   * again for update, write the count through the first stream, move the
   * second to the data offset and encode. Returns the size of the file, or
   * 0 when the file cannot be opened or the image does not fit the device.
   */
  method CompressDeltaToFile(v: seq<u64>, f: File) returns (nbytes: nat)
    requires 1 <= |v| < WORD_LIMIT
    modifies f
    ensures nbytes != 0 <==> f.accessible && |FramedImage(|v|, Delta(v))| <= f.capacity
    ensures nbytes != 0 ==> nbytes == |FramedImage(|v|, Delta(v))| && f.bytes == FramedImage(|v|, Delta(v))
    ensures !f.accessible ==> f.bytes == old(f.bytes)
  {
    var keys := Create(f);
    var data := Open(f);
    if keys == null || data == null {
      return 0;
    }
    var ok := keys.Write(MemBytes(|v|));
    if !ok {
      return 0;
    }
    assert f.bytes == Header(|v|);
    data.Seek(HEADER_SIZE + (|v| + 1) / 2);
    var written;
    ok, written := EncodeDeltaToFile(keys, data, v);
    if !ok {
      return 0;
    }
    nbytes := written + HEADER_SIZE;
  }

  // ---------------------------------------------------------------------
  // Reading
  // ---------------------------------------------------------------------

  /** The bytes a stream positioned at `at` can read: none when `at` is past the end. */
  function DataFrom(bytes: seq<u8>, at: nat): (d: seq<u8>)
    ensures |d| == if at <= |bytes| then |bytes| - at else 0
  {
    if at <= |bytes| then bytes[at..] else []
  }

  /**
   * Every width code the decoder can reach among the first `m` is at most
   * 8: a larger one would copy more than eight bytes into a 64-bit word.
   */
  predicate KeysFit(keys: seq<u8>, m: nat)
  {
    forall i :: 0 <= i < m && i / 2 < |keys| ==> CodeAt(keys, i) <= 8
  }

  /** One more code: the codes so far, then the code of value `i`. */
  lemma {:induction false} KeyCodesSnoc(keys: seq<u8>, i: nat)
    requires KeySize(i + 1) <= |keys|
    ensures KeyCodes(keys, i + 1) == KeyCodes(keys, i) + [CodeAt(keys, i)]
    ensures KeyCodes(keys, i + 1)[..i] == KeyCodes(keys, i)
  {
    assert KeyCodes(keys, i + 1) == KeyCodes(keys, i) + [CodeAt(keys, i)];
  }

  /** The first `i` codes of the first `b` codes are the first `i` codes. */
  lemma {:induction false} KeyCodesPrefix(keys: seq<u8>, i: nat, b: nat)
    requires i <= b && KeySize(b) <= |keys|
    ensures KeyCodes(keys, b)[..i] == KeyCodes(keys, i)
  {
    assert KeyCodes(keys, b)[..i] == KeyCodes(keys, i);
  }

  /**
   * The decoder's progress through the key bytes `keys` and the data bytes
   * `data` after the first `i` of `m` values: key byte `j` loaded in `key`
   * with the codes below `shift` used, and the `used` data bytes of the
   * first `i` values all present.
   */
  ghost predicate Cursor(keys: seq<u8>, data: seq<u8>, m: nat, i: nat, j: nat, shift: nat, key: u8, used: nat)
  {
    KeysFit(keys, m) && i <= m && (shift == 0 || shift == 4 || shift == 8) && i == 2 * j + Slot(shift)
    && j < |keys| && key == keys[j]
    && Decodable(keys, data, i) && used == Sum(KeyCodes(keys, i))
  }

  /** The first key byte starts the decoding; without it there is no room for `m >= 1` values. */
  lemma {:induction false} CursorStart(keys: seq<u8>, data: seq<u8>, m: nat)
    requires KeysFit(keys, m) && m >= 1
    ensures |keys| > 0 ==> Cursor(keys, data, m, 0, 0, 0, keys[0], 0) && Decoded(keys, data, 0) == []
    ensures |keys| == 0 ==> !Decodable(keys, data, m)
  {
    assert KeyCodes(keys, 0) == [];
  }

  /** A used-up key byte is followed by the next; without it there is no room for `m` values. */
  lemma {:induction false} CursorFlush(keys: seq<u8>, data: seq<u8>, m: nat, i: nat, j: nat, key: u8, used: nat)
    requires Cursor(keys, data, m, i, j, 8, key, used) && i < m
    ensures j + 1 < |keys| ==> Cursor(keys, data, m, i, j + 1, 0, keys[j + 1], used)
    ensures j + 1 >= |keys| ==> !Decodable(keys, data, m)
  {
  }

  /** The code of value `i` is the nibble of the loaded key byte at `shift`, at most 8. */
  lemma {:induction false} CursorCode(keys: seq<u8>, data: seq<u8>, m: nat, i: nat, j: nat, shift: nat, key: u8, used: nat)
    requires Cursor(keys, data, m, i, j, shift, key, used) && i < m && shift < 8
    ensures i / 2 == j && Nibble(key, shift) == CodeAt(keys, i) <= 8
    ensures KeySize(i + 1) <= |keys|
  {
    NibbleHalves(key);
  }

  /** Taking the next `c` data bytes as value `i` advances the cursor and appends their value. */
  lemma {:induction false} CursorRead(keys: seq<u8>, data: seq<u8>, m: nat, i: nat, j: nat, shift: nat, key: u8, used: nat)
    requires Cursor(keys, data, m, i, j, shift, key, used) && i < m && shift < 8
    requires used + Nibble(key, shift) <= |data|
    ensures var c := Nibble(key, shift);
      c <= 8 && Cursor(keys, data, m, i + 1, j, shift + 4, key, used + c)
      && Decoded(keys, data, i + 1) == Decoded(keys, data, i) + [Value(data[used..used + c])]
  {
    var c := Nibble(key, shift);
    CursorCode(keys, data, m, i, j, shift, key, used);
    var cs := KeyCodes(keys, i + 1);
    KeyCodesSnoc(keys, i);
    assert cs[..i + 1] == cs;
    SumStep(cs, i);
    assert Sum(cs) == used + c;
    UnpackStep(cs, data, i);
  }

  /** Data bytes of value `i` missing: there is no room for `m` values. */
  lemma {:induction false} CursorShort(keys: seq<u8>, data: seq<u8>, m: nat, i: nat, j: nat, shift: nat, key: u8, used: nat)
    requires Cursor(keys, data, m, i, j, shift, key, used) && i < m && shift < 8
    requires used + Nibble(key, shift) > |data|
    ensures !Decodable(keys, data, m)
  {
    CursorCode(keys, data, m, i, j, shift, key, used);
    var cs := KeyCodes(keys, i + 1);
    KeyCodesSnoc(keys, i);
    assert cs[..i + 1] == cs;
    SumStep(cs, i);
    if KeySize(m) <= |keys| {
      KeyCodesPrefix(keys, i + 1, m);
      SumPrefix(KeyCodes(keys, m), i + 1);
    }
  }

  /**
   * The reader state on the file `bytes`, whose data region the data
   * stream entered at `dataAt`: the key stream `kp` just past key byte
   * `j`, the data stream `dp` just past the data bytes of the first `i`
   * values.
   */
  ghost predicate Scanned(bytes: seq<u8>, dataAt: nat, m: nat, i: nat, j: nat,
                          kp: nat, dp: nat, shift: nat, key: u8)
  {
    HEADER_SIZE <= |bytes| && kp == HEADER_SIZE + j + 1 && dataAt <= dp
    && Cursor(bytes[HEADER_SIZE..], DataFrom(bytes, dataAt), m, i, j, shift, key, dp - dataAt)
  }

  /** The values read from the first `i` codes of the file. */
  ghost function ScannedValues(bytes: seq<u8>, dataAt: nat, i: nat): (vs: seq<u64>)
    requires HEADER_SIZE <= |bytes| && Decodable(bytes[HEADER_SIZE..], DataFrom(bytes, dataAt), i)
    ensures |vs| == i
  {
    Decoded(bytes[HEADER_SIZE..], DataFrom(bytes, dataAt), i)
  }

  /** Loading the first key byte starts the reading; without it, the file is too short for `m >= 1` values. */
  lemma {:induction false} ScanStart(bytes: seq<u8>, dataAt: nat, m: nat)
    requires HEADER_SIZE <= |bytes| && KeysFit(bytes[HEADER_SIZE..], m) && m >= 1
    ensures HEADER_SIZE < |bytes| ==>
      Scanned(bytes, dataAt, m, 0, 0, HEADER_SIZE + 1, dataAt, 0, bytes[HEADER_SIZE])
      && ScannedValues(bytes, dataAt, 0) == []
    ensures HEADER_SIZE == |bytes| ==> !Decodable(bytes[HEADER_SIZE..], DataFrom(bytes, dataAt), m)
  {
    CursorStart(bytes[HEADER_SIZE..], DataFrom(bytes, dataAt), m);
  }

  /** The data stream at `dataAt + used` reads what the data bytes hold from `used`. */
  lemma {:induction false} DataFromSlice(bytes: seq<u8>, dataAt: nat, used: nat, c: nat)
    requires dataAt + used + c <= |bytes|
    ensures DataFrom(bytes, dataAt)[used..used + c] == bytes[dataAt + used..dataAt + used + c]
  {
  }

  /** A used-up key byte is followed by the next one; without it, the file is too short. */
  lemma {:induction false} ScanFlush(bytes: seq<u8>, dataAt: nat, m: nat, i: nat, j: nat,
                                     kp: nat, dp: nat, key: u8)
    requires Scanned(bytes, dataAt, m, i, j, kp, dp, 8, key) && i < m
    ensures kp < |bytes| ==> Scanned(bytes, dataAt, m, i, j + 1, kp + 1, dp, 0, bytes[kp])
    ensures kp >= |bytes| ==> !Decodable(bytes[HEADER_SIZE..], DataFrom(bytes, dataAt), m)
  {
    CursorFlush(bytes[HEADER_SIZE..], DataFrom(bytes, dataAt), m, i, j, key, dp - dataAt);
  }

  /** The code of value `i` is at most 8. */
  lemma {:induction false} ScanCode(bytes: seq<u8>, dataAt: nat, m: nat, i: nat, j: nat,
                                    kp: nat, dp: nat, shift: nat, key: u8)
    requires Scanned(bytes, dataAt, m, i, j, kp, dp, shift, key) && i < m && shift < 8
    ensures Nibble(key, shift) <= 8
  {
    CursorCode(bytes[HEADER_SIZE..], DataFrom(bytes, dataAt), m, i, j, shift, key, dp - dataAt);
  }

  /** Reading the `c` data bytes of value `i` advances the reader and appends their value. */
  lemma {:induction false} ScanRead(bytes: seq<u8>, dataAt: nat, m: nat, i: nat, j: nat,
                                    kp: nat, dp: nat, shift: nat, key: u8, val: u64)
    requires Scanned(bytes, dataAt, m, i, j, kp, dp, shift, key) && i < m && shift < 8
    requires var c := Nibble(key, shift);
      c <= 8 && (c == 0 ==> val == 0) && (c > 0 ==> dp + c <= |bytes| && val == Value(bytes[dp..dp + c]))
    ensures Scanned(bytes, dataAt, m, i + 1, j, kp, dp + Nibble(key, shift), shift + 4, key)
    ensures ScannedValues(bytes, dataAt, i + 1) == ScannedValues(bytes, dataAt, i) + [val]
  {
    var kb, db, used := bytes[HEADER_SIZE..], DataFrom(bytes, dataAt), dp - dataAt;
    var c := Nibble(key, shift);
    CursorCode(kb, db, m, i, j, shift, key, used);
    if c > 0 {
      DataFromSlice(bytes, dataAt, used, c);
    } else {
      assert db[used..used] == [];
    }
    CursorRead(kb, db, m, i, j, shift, key, used);
  }

  /** The data bytes of value `i` run past the end of the file: it is too short for `m` values. */
  lemma {:induction false} ScanShort(bytes: seq<u8>, dataAt: nat, m: nat, i: nat, j: nat,
                                     kp: nat, dp: nat, shift: nat, key: u8)
    requires Scanned(bytes, dataAt, m, i, j, kp, dp, shift, key) && i < m && shift < 8
    requires Nibble(key, shift) > 0 && dp + Nibble(key, shift) > |bytes|
    ensures !Decodable(bytes[HEADER_SIZE..], DataFrom(bytes, dataAt), m)
  {
    CursorShort(bytes[HEADER_SIZE..], DataFrom(bytes, dataAt), m, i, j, shift, key, dp - dataAt);
  }

  /**
   * `vb64f_bdec`: 0 for code 0 without reading; otherwise the next `code`
   * bytes of the data stream, zero-extended, or failure when the file
   * ends before them.
   */
  method GetFileValue(data: Stream, code: nat) returns (ok: bool, val: u64)
    requires code <= 8
    modifies data
    ensures ok <==> code == 0 || old(data.pos) + code <= |data.file.bytes|
    ensures ok && code == 0 ==> val == 0
    ensures ok && code > 0 ==> val == Value(data.file.bytes[old(data.pos)..old(data.pos) + code])
    ensures ok ==> data.pos == old(data.pos) + code
  {
    if code == 0 {
      return true, 0;
    }
    var bytes;
    ok, bytes := data.Read(code);
    val := 0;
    if ok {
      val := Value(bytes);
    }
  }

  /** Loads the next key byte once the current one is used up. */
  method LoadKey(keys: Stream, data: Stream, ghost bytes: seq<u8>, ghost dataAt: nat, ghost m: nat,
                 ghost i: nat, ghost j: nat, key: u8) returns (ok: bool, key2: u8)
    requires keys != data && keys.file == data.file && keys.file.bytes == bytes
    requires Scanned(bytes, dataAt, m, i, j, keys.pos, data.pos, 8, key) && i < m
    modifies keys
    ensures ok ==> Scanned(bytes, dataAt, m, i, j + 1, keys.pos, data.pos, 0, key2)
    ensures !ok ==> !Decodable(bytes[HEADER_SIZE..], DataFrom(bytes, dataAt), m)
  {
    ScanFlush(bytes, dataAt, m, i, j, keys.pos, data.pos, key);
    var next;
    ok, next := keys.Read(1);
    key2 := 0;
    if ok {
      key2 := next[0];
    }
  }

  /** Reads value `i`: as many data bytes as the code at `shift` of the loaded key byte says. */
  method ReadValue(keys: Stream, data: Stream, ghost bytes: seq<u8>, ghost dataAt: nat, ghost m: nat,
                   ghost i: nat, ghost j: nat, shift: nat, key: u8) returns (ok: bool, val: u64)
    requires keys != data && keys.file == data.file && keys.file.bytes == bytes
    requires Scanned(bytes, dataAt, m, i, j, keys.pos, data.pos, shift, key) && i < m && shift < 8
    modifies data
    ensures ok ==> Scanned(bytes, dataAt, m, i + 1, j, keys.pos, data.pos, shift + 4, key)
    ensures ok ==> ScannedValues(bytes, dataAt, i + 1) == ScannedValues(bytes, dataAt, i) + [val]
    ensures !ok ==> !Decodable(bytes[HEADER_SIZE..], DataFrom(bytes, dataAt), m)
  {
    ghost var dp := data.pos;
    ScanCode(bytes, dataAt, m, i, j, keys.pos, dp, shift, key);
    ok, val := GetFileValue(data, Nibble(key, shift));
    if !ok {
      ScanShort(bytes, dataAt, m, i, j, keys.pos, dp, shift, key);
      return;
    }
    ScanRead(bytes, dataAt, m, i, j, keys.pos, dp, shift, key, val);
  }

  /**
   * One round of the reading loop for value `i`: load the next key byte if
   * the current one is used up, take the code at `shift`, and read that
   * many bytes. A failed read means the file is too short for `m` values.
   */
  method ScanValue(keys: Stream, data: Stream, ghost bytes: seq<u8>, ghost dataAt: nat, ghost m: nat,
                   ghost i: nat, ghost j: nat, shift: nat, key: u8)
    returns (ok: bool, ghost j2: nat, shift2: nat, key2: u8, val: u64)
    requires keys != data && keys.file == data.file && keys.file.bytes == bytes
    requires Scanned(bytes, dataAt, m, i, j, keys.pos, data.pos, shift, key) && i < m
    modifies keys, data
    ensures ok ==> Scanned(bytes, dataAt, m, i + 1, j2, keys.pos, data.pos, shift2, key2)
    ensures ok ==> ScannedValues(bytes, dataAt, i + 1) == ScannedValues(bytes, dataAt, i) + [val]
    ensures !ok ==> !Decodable(bytes[HEADER_SIZE..], DataFrom(bytes, dataAt), m)
  {
    j2, shift2, key2, val := j, shift, key, 0;
    if shift == 8 {
      ok, key2 := LoadKey(keys, data, bytes, dataAt, m, i, j, key);
      if !ok {
        return;
      }
      j2, shift2 := j + 1, 0;
    }
    ok, val := ReadValue(keys, data, bytes, dataAt, m, i, j2, shift2, key2);
    shift2 := shift2 + 4;
  }

  /** Loads the first key byte and reads the first value. */
  method ScanFirst(keys: Stream, data: Stream, ghost bytes: seq<u8>, ghost dataAt: nat, ghost m: nat)
    returns (ok: bool, ghost j: nat, shift: nat, key: u8, val: u64)
    requires keys != data && keys.file == data.file && keys.file.bytes == bytes
    requires HEADER_SIZE <= |bytes| && keys.pos == HEADER_SIZE && data.pos == dataAt
    requires KeysFit(bytes[HEADER_SIZE..], m) && m >= 1
    modifies keys, data
    ensures ok ==> Scanned(bytes, dataAt, m, 1, j, keys.pos, data.pos, shift, key)
    ensures ok ==> ScannedValues(bytes, dataAt, 1) == [val]
    ensures !ok ==> !Decodable(bytes[HEADER_SIZE..], DataFrom(bytes, dataAt), m)
  {
    ScanStart(bytes, dataAt, m);
    var first;
    ok, first := keys.Read(1);
    j, shift, key, val := 0, 0, 0, 0;
    if !ok {
      return;
    }
    ok, j, shift, key, val := ScanValue(keys, data, bytes, dataAt, m, 0, 0, 0, first[0]);
  }

  /**
   * The number of words `vb64f_decode_delta` stores for a count of `n`:
   * the first value before the loop, whatever `n` is, then one per round
   * for `i` in `1 .. n - 1`.
   */
  function WordsStored(n: nat): (k: nat)
    ensures k >= 1 && k >= n
  {
    1 + (if n > 1 then n - 1 else 0)
  }

  /** The file holds `WordsStored(n)` values after the count, key bytes for `n` values, and their data. */
  ghost predicate FileDecodable(bytes: seq<u8>, n: nat)
  {
    HEADER_SIZE <= |bytes| && Decodable(bytes[HEADER_SIZE..], DataFrom(bytes, DataOffset(n)), WordsStored(n))
  }

  /** Those values. */
  ghost function FileDecoded(bytes: seq<u8>, n: nat): (vs: seq<u64>)
    requires FileDecodable(bytes, n)
    ensures |vs| == WordsStored(n)
  {
    Decoded(bytes[HEADER_SIZE..], DataFrom(bytes, DataOffset(n)), WordsStored(n))
  }

  /**
   * `o` holds the running sums mod 2^64 of the deltas `d`, word by word:
   * the form in which the decoding loop tracks the words it has stored.
   */
  ghost predicate RunningSums(d: seq<u64>, o: seq<u64>)
  {
    |o| == |d| && (|d| > 0 ==> o[0] == d[0])
    && forall k :: 0 < k < |d| ==> o[k] == WrapAdd(o[k - 1], d[k])
  }

  /** Storing one more running sum extends them by one delta. */
  lemma {:induction false} RunningSumsSnoc(d: seq<u64>, o: seq<u64>, d2: seq<u64>, o2: seq<u64>, x: u64)
    requires RunningSums(d, o) && d != [] && d2 == d + [x] && o2 == o + [WrapAdd(o[|o| - 1], x)]
    ensures RunningSums(d2, o2)
  {
    forall k | 0 < k < |d2|
      ensures o2[k] == WrapAdd(o2[k - 1], d2[k])
    {
      if k < |d| {
        assert o2[k] == o[k] && o2[k - 1] == o[k - 1] && d2[k] == d[k];
      }
    }
  }

  /** The running sums are the inverse of the delta transform. */
  lemma {:induction false} RunningSumsUndelta(d: seq<u64>, o: seq<u64>)
    requires RunningSums(d, o)
    ensures o == Undelta(d)
  {
    if |d| > 1 {
      var k := |d| - 1;
      assert RunningSums(d[..k], o[..k]);
      RunningSumsUndelta(d[..k], o[..k]);
      assert o == o[..k] + [WrapAdd(o[k - 1], d[k])];
    }
  }

  /**
   * `vb64f_decode_delta`, as written: it reads the first key byte and
   * stores the first value before it looks at `n`, so it decodes
   * `WordsStored(n)` values, the running sums of the deltas it reads, into
   * `out`. It succeeds exactly when the file holds that many; on failure
   * the words stored so far are abandoned.
   */
  method DecodeDeltaFromFile(keys: Stream, data: Stream, out: array<u64>, n: nat) returns (ok: bool, stored: nat)
    requires keys != data && keys.file == data.file
    requires HEADER_SIZE <= |keys.file.bytes| && keys.pos == HEADER_SIZE && data.pos == DataOffset(n)
    requires KeysFit(keys.file.bytes[HEADER_SIZE..], WordsStored(n)) && WordsStored(n) <= out.Length
    modifies keys, data, out
    ensures ok <==> FileDecodable(keys.file.bytes, n)
    ensures ok ==> stored == WordsStored(n) && out[..stored] == Undelta(FileDecoded(keys.file.bytes, n))
  {
    ghost var bytes := keys.file.bytes;
    ghost var dataAt := DataOffset(n);
    ghost var m := WordsStored(n);
    ghost var j;
    var shift, key, prev;
    ok, j, shift, key, prev := ScanFirst(keys, data, bytes, dataAt, m);
    if !ok {
      FileShort(bytes, n);
      return false, 0;
    }
    ghost var kp, dp := keys.pos, data.pos;
    out[0] := prev;
    assert keys.pos == kp && data.pos == dp;
    ghost var o := [prev];
    assert out[..1] == o;
    ghost var kp2, dp2;
    stored := 0;
    ok, j, kp2, dp2, shift, key, o := DecodeRest(keys, data, out, bytes, dataAt, n, m, j, shift, key, prev, o);
    if !ok {
      FileShort(bytes, n);
      return;
    }
    FileRead(bytes, n, j, kp2, dp2, shift, key);
    RunningSumsUndelta(ScannedValues(bytes, dataAt, m), o);
    stored := WordsStored(n);
  }

  /**
   * The loop of `vb64f_decode_delta`: every value after the first, each
   * added to the one before; `o` follows the words stored in `out`.
   */
  method DecodeRest(keys: Stream, data: Stream, out: array<u64>, ghost bytes: seq<u8>, ghost dataAt: nat, n: nat,
                    ghost m: nat, ghost j: nat, shift: nat, key: u8, prev: u64, ghost o: seq<u64>)
    returns (ok: bool, ghost j2: nat, ghost kp: nat, ghost dp: nat, shift2: nat, key2: u8, ghost o2: seq<u64>)
    requires keys != data && keys.file == data.file && keys.file.bytes == bytes
    requires m == (if n > 1 then n else 1) && m <= out.Length
    requires Scanned(bytes, dataAt, m, 1, j, keys.pos, data.pos, shift, key)
    requires out[..1] == o && RunningSums(ScannedValues(bytes, dataAt, 1), o) && prev == o[0]
    modifies keys, data, out
    ensures ok ==> Scanned(bytes, dataAt, m, m, j2, kp, dp, shift2, key2)
    ensures ok ==> out[..m] == o2 && RunningSums(ScannedValues(bytes, dataAt, m), o2)
    ensures !ok ==> !Decodable(bytes[HEADER_SIZE..], DataFrom(bytes, dataAt), m)
  {
    ok, j2, shift2, key2, o2 := true, j, shift, key, o;
    kp, dp := keys.pos, data.pos;
    var i := 1;
    var last := prev;
    while i < n
      invariant 1 <= i <= m
      invariant Scanned(bytes, dataAt, m, i, j2, keys.pos, data.pos, shift2, key2)
      invariant |o2| == i && out[..i] == o2 && last == o2[i - 1]
      invariant RunningSums(ScannedValues(bytes, dataAt, i), o2)
    {
      ok, j2, shift2, key2, last, o2 := NextValue(keys, data, out, bytes, dataAt, m, i, j2, shift2, key2, last, o2);
      if !ok {
        return;
      }
      i := i + 1;
    }
    assert i == m;
    kp, dp := keys.pos, data.pos;
  }

  /** The reader ran out of bytes: the file does not hold the values. */
  lemma {:induction false} FileShort(bytes: seq<u8>, n: nat)
    requires HEADER_SIZE <= |bytes| && !Decodable(bytes[HEADER_SIZE..], DataFrom(bytes, DataOffset(n)), WordsStored(n))
    ensures !FileDecodable(bytes, n)
  {
  }

  /** The reader read every value: the file holds them, and they are the values read. */
  lemma {:induction false} FileRead(bytes: seq<u8>, n: nat, j: nat, kp: nat, dp: nat, shift: nat, key: u8)
    requires Scanned(bytes, DataOffset(n), WordsStored(n), WordsStored(n), j, kp, dp, shift, key)
    ensures FileDecodable(bytes, n) && ScannedValues(bytes, DataOffset(n), WordsStored(n)) == FileDecoded(bytes, n)
  {
  }

  /** One round of the decoding loop: read delta `i` and store the running sum in `out[i]`. */
  method NextValue(keys: Stream, data: Stream, out: array<u64>, ghost bytes: seq<u8>, ghost dataAt: nat,
                   ghost m: nat, i: nat, ghost j: nat, shift: nat, key: u8, prev: u64, ghost o: seq<u64>)
    returns (ok: bool, ghost j2: nat, shift2: nat, key2: u8, val: u64, ghost o2: seq<u64>)
    requires keys != data && keys.file == data.file && keys.file.bytes == bytes
    requires Scanned(bytes, dataAt, m, i, j, keys.pos, data.pos, shift, key) && 0 < i < m && m <= out.Length
    requires |o| == i && out[..i] == o && prev == o[i - 1] && RunningSums(ScannedValues(bytes, dataAt, i), o)
    modifies keys, data, out
    ensures ok ==> Scanned(bytes, dataAt, m, i + 1, j2, keys.pos, data.pos, shift2, key2)
    ensures ok ==> |o2| == i + 1 && out[..i + 1] == o2 && val == o2[i] && RunningSums(ScannedValues(bytes, dataAt, i + 1), o2)
    ensures !ok ==> !Decodable(bytes[HEADER_SIZE..], DataFrom(bytes, dataAt), m)
  {
    var delta;
    ok, j2, shift2, key2, delta := ScanValue(keys, data, bytes, dataAt, m, i, j, shift, key);
    val, o2 := 0, o;
    if !ok {
      return;
    }
    ghost var kp, dp := keys.pos, data.pos;
    val := StoreSum(out, i, prev, delta, o);
    assert keys.pos == kp && data.pos == dp;
    o2 := o + [val];
    RunningSumsSnoc(ScannedValues(bytes, dataAt, i), o, ScannedValues(bytes, dataAt, i + 1), o2, delta);
  }

  /** Stores the running sum of `prev` and `delta` at `out[i]`, after the words `o` already stored. */
  method StoreSum(out: array<u64>, i: nat, prev: u64, delta: u64, ghost o: seq<u64>) returns (val: u64)
    requires i < out.Length && out[..i] == o
    modifies out
    ensures val == WrapAdd(prev, delta) && out[..i + 1] == o + [val]
  {
    val := WrapAdd(prev, delta);
    out[i] := val;
    assert out[..i + 1] == out[..i] + [val];
  }

  /** For a count `n > 0` read from the file, the decoder reads the framed layout in the file's bytes. */
  lemma {:induction false} FileIsFramed(bytes: seq<u8>, n: nat)
    requires HEADER_SIZE <= |bytes| && n == FramedCount(bytes) && n > 0
    ensures FramedDecodable(bytes) <==> FileDecodable(bytes, n)
    ensures FramedDecodable(bytes) ==> FramedDecoded(bytes) == FileDecoded(bytes, n)
  {
    var keys := bytes[HEADER_SIZE..];
    assert WordsStored(n) == n;
    if DataOffset(n) <= |bytes| {
      assert DataFrom(bytes, DataOffset(n)) == bytes[HEADER_SIZE + KeySize(n)..];
    } else {
      assert !Decodable(keys, DataFrom(bytes, DataOffset(n)), n);
    }
  }

  /** A file whose count is 0 holds the empty sequence. */
  lemma {:induction false} FileIsEmpty(bytes: seq<u8>)
    requires HEADER_SIZE <= |bytes| && FramedCount(bytes) == 0
    ensures FramedDecodable(bytes) && FramedDecoded(bytes) == []
  {
    assert KeyCodes(bytes[HEADER_SIZE..], 0) == [];
  }

  /**
   * `vb64f_decompress_delta`, with the guard for `n == 0` that the
   * in-memory decoder has: open the file twice, read the count through the
   * first stream, move the second to the data offset, allocate `n` words
   * and decode them. Returns null when the file cannot be opened or is too
   * short; otherwise the values of the framed layout in the file.
   */
  method DecompressDeltaFromFile(f: File) returns (out: array?<u64>, n: nat)
    requires HEADER_SIZE <= |f.bytes| ==> KeysFit(f.bytes[HEADER_SIZE..], FramedCount(f.bytes))
    ensures out != null <==> f.accessible && FramedDecodable(f.bytes)
    ensures out != null ==> fresh(out) && out.Length == n && out[..] == Undelta(FramedDecoded(f.bytes))
    ensures n == if f.accessible && HEADER_SIZE <= |f.bytes| then FramedCount(f.bytes) else 0
  {
    var keys := Open(f);
    var data := Open(f);
    if keys == null || data == null {
      return null, 0;
    }
    var ok, header := keys.Read(HEADER_SIZE);
    if !ok {
      return null, 0;
    }
    assert header == f.bytes[..HEADER_SIZE];
    n := FromBytes(header);
    data.Seek(HEADER_SIZE + (n + 1) / 2);
    out := new u64[n];
    if n == 0 {
      FileIsEmpty(f.bytes);
      return;
    }
    FileIsFramed(f.bytes, n);
    var stored;
    ok, stored := DecodeDeltaFromFile(keys, data, out, n);
    if !ok {
      return null, n;
    }
    assert out[..] == out[..stored];
  }

  // ---------------------------------------------------------------------
  // The count-0 file
  // ---------------------------------------------------------------------

  /**
   * A file whose count is 0 followed by one zero byte: the decoder as
   * written reads that byte as a key byte and stores one word, where
   * `vb64f_decompress_delta` allocates `0 * sizeof(uint64_t)` bytes.
   */
  method ZeroCountStores() returns (ok: bool, stored: nat, words: nat)
    ensures ok && words == 0 && stored == 1
  {
    var f := new File(Header(0) + [0], 9, true);
    var keys := Open(f);
    var data := Open(f);
    var read, header := keys.Read(HEADER_SIZE);
    assert header == Header(0);
    HeaderRoundTrip(0);
    var n := FromBytes(header);
    data.Seek(HEADER_SIZE + (n + 1) / 2);
    words := n;
    var out := new u64[1];
    ghost var bytes := f.bytes;
    assert bytes[HEADER_SIZE..] == [0] && DataFrom(bytes, DataOffset(0)) == [0];
    assert CodeAt([0], 0) == 0;
    assert KeyCodes([0], 1) == [0];
    assert Sum([0]) == Sum([]) + 0;
    assert FileDecodable(bytes, 0);
    ok, stored := DecodeDeltaFromFile(keys, data, out, n);
  }

  // ---------------------------------------------------------------------
  // Round trips
  // ---------------------------------------------------------------------

  /** The key bytes of a framed image hold codes that fit a word. */
  lemma {:induction false} ImageKeysFit(ws: seq<u64>, bytes: seq<u8>)
    requires |ws| < WORD_LIMIT
    requires |FramedImage(|ws|, ws)| <= |bytes| && bytes[..|FramedImage(|ws|, ws)|] == FramedImage(|ws|, ws)
    ensures FramedCount(bytes) == |ws| && KeysFit(bytes[HEADER_SIZE..], |ws|)
  {
    FramedRoundTrip(ws, bytes);
    var keys := bytes[HEADER_SIZE..];
    var cs := KeyCodes(keys, |ws|);
    assert CodesFit(cs);
    forall i | 0 <= i < |ws| && i / 2 < |keys|
      ensures CodeAt(keys, i) <= 8
    {
      assert cs[i] == CodeAt(keys, i);
    }
  }

  /**
   * The file the streaming compressor writes is the buffer the in-memory
   * compressor with the count in front returns, up to `clen`; the two
   * report the same length.
   */
  method FileMatchesBuffer(v: seq<u64>, f: File) returns (nbytes: nat, cdata: array<u8>, clen: nat)
    requires 1 <= |v| < WORD_LIMIT
    modifies f
    ensures nbytes != 0 <==> f.accessible && clen <= f.capacity
    ensures clen <= cdata.Length && (nbytes != 0 ==> nbytes == clen && f.bytes == cdata[..clen])
  {
    cdata, clen := CompressDeltaWl(v);
    nbytes := CompressDeltaToFile(v, f);
  }

  /**
   * Compress to a file and decompress from it: whenever the compressor
   * reports success, every value comes back, decreasing ones included.
   */
  method FileRoundTrip(v: seq<u64>, f: File) returns (nbytes: nat, decompressed: array?<u64>, n: nat)
    requires 1 <= |v| < WORD_LIMIT
    modifies f
    ensures nbytes != 0 ==> decompressed != null && n == |v| && decompressed[..] == v
  {
    nbytes := CompressDeltaToFile(v, f);
    if nbytes == 0 {
      return 0, null, 0;
    }
    ImageKeysFit(Delta(v), f.bytes);
    assert f.bytes[..|f.bytes|] == f.bytes;
    FramedRoundTrip(Delta(v), f.bytes);
    decompressed, n := DecompressDeltaFromFile(f);
    UndeltaDelta(v);
  }

  /**
   * `test_encdec_delta_autofile`: compress in memory with the count in
   * front, write the `clen` bytes to a file, and decompress from the file.
   * On a file that can hold them, every value comes back.
   */
  method AutoFile(v: seq<u64>, f: File) returns (decompressed: array?<u64>, n: nat)
    requires 1 <= |v| < WORD_LIMIT
    requires f.accessible && |FramedImage(|v|, Delta(v))| <= f.capacity
    modifies f
    ensures decompressed != null && n == |v| && decompressed[..] == v
  {
    var compressed, compressedLen := CompressDeltaWl(v);
    var dump := Create(f);
    var _ := dump.Write(compressed[..compressedLen]);
    assert f.bytes == FramedImage(|v|, Delta(v));
    ImageKeysFit(Delta(v), f.bytes);
    assert f.bytes[..|f.bytes|] == f.bytes;
    FramedRoundTrip(Delta(v), f.bytes);
    decompressed, n := DecompressDeltaFromFile(f);
    UndeltaDelta(v);
  }
}
