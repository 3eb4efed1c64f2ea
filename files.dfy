/**
 * The files behind the streaming codec, without the operating system.
 *
 * A file is a sequence of bytes on a device of limited room, and a stream
 * (`FILE *`) is a position in one file; several streams may share a file.
 * `fwrite` of one item overwrites or extends the file at the position and
 * fails when the item is empty or would end past the room left on the
 * device; `fread` fails when fewer bytes remain than asked for; `fseek` to
 * any offset succeeds, even past the end, and a later write fills the gap
 * with zero bytes. Streams are unbuffered here: every write lands at once.
 */
module Files {
  import opened Words

  /**
   * The bytes of a file after writing `x` at offset `at`: the bytes before
   * `at` are kept (zero bytes fill a gap past the end), `x` follows, and
   * the old bytes after it are kept.
   */
  function Overwrite(s: seq<u8>, at: nat, x: seq<u8>): (r: seq<u8>)
    ensures |r| == if at + |x| <= |s| then |s| else at + |x|
    ensures at <= |s| ==> r[..at] == s[..at]
    ensures at > |s| ==> r[..at] == s + Zeros(at - |s|)
    ensures r[at..at + |x|] == x
    ensures at + |x| <= |s| ==> r[at + |x|..] == s[at + |x|..]
  {
    var base := if at <= |s| then s else s + Zeros(at - |s|);
    base[..at] + x + (if at + |x| <= |base| then base[at + |x|..] else [])
  }

  class File {
    /** The contents. */
    var bytes: seq<u8>
    /** The room on the device: a write that would end past it fails. */
    const capacity: nat
    /** Whether `fopen` succeeds on the path of the file. */
    const accessible: bool

    constructor (bytes: seq<u8>, capacity: nat, accessible: bool)
      ensures this.bytes == bytes && this.capacity == capacity && this.accessible == accessible
    {
      this.bytes := bytes;
      this.capacity := capacity;
      this.accessible := accessible;
    }
  }

  class Stream {
    /** The file the stream was opened on. */
    const file: File
    /** The offset of the next read or write. */
    var pos: nat

    constructor (f: File)
      ensures file == f && pos == 0
    {
      file := f;
      pos := 0;
    }

    /**
     * `fwrite(x, |x|, 1, stream) == 1`: one item of `|x|` bytes is written
     * at the position, or nothing is and the call reports failure.
     */
    method Write(x: seq<u8>) returns (ok: bool)
      modifies this, file
      ensures ok <==> 0 < |x| && old(pos) + |x| <= file.capacity
      ensures ok ==> file.bytes == Overwrite(old(file.bytes), old(pos), x) && pos == old(pos) + |x|
      ensures !ok ==> file.bytes == old(file.bytes) && pos == old(pos)
    {
      ok := 0 < |x| && pos + |x| <= file.capacity;
      if ok {
        file.bytes := Overwrite(file.bytes, pos, x);
        pos := pos + |x|;
      }
    }

    /**
     * `fread(buf, k, 1, stream) == 1`, or `fread(buf, 1, k, stream) == k`:
     * the next `k` bytes, or failure when the file ends before them (the
     * bytes that are there are consumed).
     */
    method Read(k: nat) returns (ok: bool, x: seq<u8>)
      modifies this
      ensures ok <==> old(pos) + k <= |file.bytes|
      ensures ok ==> x == file.bytes[old(pos)..old(pos) + k] && pos == old(pos) + k
      ensures !ok ==> x == [] && pos == if old(pos) < |file.bytes| then |file.bytes| else old(pos)
    {
      ok := pos + k <= |file.bytes|;
      if ok {
        x := file.bytes[pos..pos + k];
        pos := pos + k;
      } else {
        x := [];
        if pos < |file.bytes| {
          pos := |file.bytes|;
        }
      }
    }

    /** `fseek(stream, offset, SEEK_SET)`. */
    method Seek(offset: nat)
      modifies this
      ensures pos == offset
    {
      pos := offset;
    }
  }

  /**
   * `fopen(path, "rb")` or `fopen(path, "r+b")`: a new stream at offset 0
   * of the file as it is, or null when the path cannot be opened.
   */
  method Open(f: File) returns (s: Stream?)
    ensures s == null <==> !f.accessible
    ensures s != null ==> fresh(s) && s.file == f && s.pos == 0
  {
    if !f.accessible {
      return null;
    }
    s := new Stream(f);
  }

  /**
   * `fopen(path, "wb")`: the file emptied and a new stream at offset 0, or
   * null (and the file untouched) when the path cannot be opened.
   */
  method Create(f: File) returns (s: Stream?)
    modifies f
    ensures s == null <==> !f.accessible
    ensures s != null ==> fresh(s) && s.file == f && s.pos == 0
    ensures f.bytes == if f.accessible then [] else old(f.bytes)
  {
    if !f.accessible {
      return null;
    }
    f.bytes := [];
    s := new Stream(f);
  }
}
