/** The read-only stream over one object (gcp/gcs/gcsfile.py): the mode check of open and
    a file object over an in-memory copy of the whole object body, read the way
    io.BytesIO reads. */
module GcsFile {
  import opened Wrappers
  import opened GcsErrors

  type byte = bv8

  /** DEFAULT_READ_SIZE: 1 MiB. */
  const DefaultReadSize: int := 1024 * 1024

  /** The failure of open for a mode other than 'r'; None when the mode is accepted. */
  function ModeError(mode: string): (e: Option<Error>)
    ensures e.None? <==> mode == "r"
    ensures e.Some? ==> e.value.IoError? && e.value.errno == EINVAL
  {
    if mode == "r" then None else Some(IoError(EINVAL, "Unavailable mode \"" + mode + "\""))
  }

  /** What BytesIO.read(length) returns at position pos of buf: the next `length` bytes, or
      all the remaining ones for a negative length, and nothing at or past the end. */
  function Chunk(buf: seq<byte>, pos: nat, length: int): (r: seq<byte>)
    ensures pos >= |buf| ==> r == []
    ensures pos < |buf| ==> pos + |r| <= |buf| && r == buf[pos..pos + |r|]
    ensures pos < |buf| && length < 0 ==> |r| == |buf| - pos
    ensures pos < |buf| && length >= 0 ==> |r| == if pos + length <= |buf| then length else |buf| - pos
  {
    if pos >= |buf| then []
    else if length < 0 || pos + length > |buf| then buf[pos..]
    else buf[pos..pos + length]
  }

  /** Two successive reads return what one read of both lengths returns. */
  lemma ChunkConcat(buf: seq<byte>, pos: nat, n: nat, m: nat)
    ensures Chunk(buf, pos, n) + Chunk(buf, pos + |Chunk(buf, pos, n)|, m) == Chunk(buf, pos, n + m)
  {
    var a := Chunk(buf, pos, n);
    if pos < |buf| && pos + |a| < |buf| {
      var b := Chunk(buf, pos + |a|, m);
      assert a + b == buf[pos..pos + |a| + |b|];
    }
  }

  /** A default-sized read from the start of a body of at most 1 MiB returns all of it, and
      read(length) from the start returns the first `length` bytes of a long enough body. */
  lemma ReadFromStart(buf: seq<byte>, length: int)
    ensures |buf| <= DefaultReadSize ==> Chunk(buf, 0, DefaultReadSize) == buf
    ensures 0 <= length <= |buf| ==> Chunk(buf, 0, length) == buf[..length]
  {
  }

  /** Where BytesIO.seek(offset, whence) moves to: from the start (0), the current position
      (1) or the end (2); a position before the start becomes 0, a negative absolute offset
      and any other whence are ValueErrors. */
  function SeekTarget(size: nat, pos: nat, offset: int, whence: int): (r: Outcome<nat>)
    ensures r.Failure? <==> (whence == 0 && offset < 0) || whence < 0 || whence > 2
    ensures r.Failure? ==> r.error == ValueError
    ensures whence == 0 && offset >= 0 ==> r == Success(offset)
    ensures r.Success? && whence == 1 ==> r.value == if pos + offset < 0 then 0 else pos + offset
    ensures r.Success? && whence == 2 ==> r.value == if size + offset < 0 then 0 else size + offset
  {
    if whence < 0 || whence > 2 then Failure(ValueError)
    else if whence == 0 && offset < 0 then Failure(ValueError)
    else
      var p := if whence == 0 then offset else if whence == 1 then pos + offset else size + offset;
      Success(if p < 0 then 0 else p)
  }

  /** The readable stream: the object body and the position of the next read. */
  class ReadableFile {
    var buf: seq<byte>
    var pos: nat

    /** The whole object is downloaded into the buffer, which is rewound. */
    constructor (body: seq<byte>)
      ensures buf == body && pos == 0
    {
      buf := body;
      pos := 0;
    }

    /** read(length): returns the next bytes and moves past them; the buffer never changes. */
    method Read(length: int) returns (r: seq<byte>)
      modifies this
      ensures buf == old(buf)
      ensures r == Chunk(buf, old(pos), length)
      ensures pos == old(pos) + |r|
      ensures old(pos) <= |buf| ==> pos <= |buf|
    {
      r := Chunk(buf, pos, length);
      pos := pos + |r|;
    }

    /** seek(offset, whence), as BytesIO does it; the stream of the source has none. */
    method Seek(offset: int, whence: int) returns (r: Outcome<nat>)
      modifies this
      ensures buf == old(buf)
      ensures r == SeekTarget(|buf|, old(pos), offset, whence)
      ensures r.Success? ==> pos == r.value
      ensures r.Failure? ==> pos == old(pos)
    {
      r := SeekTarget(|buf|, pos, offset, whence);
      if r.Success? {
        pos := r.value;
      }
    }
  }

  /** open(blob, mode): a stream over the body for mode 'r', an EINVAL IOError otherwise. */
  method Open(body: seq<byte>, mode: string) returns (r: Outcome<ReadableFile>)
    ensures ModeError(mode).Some? ==> r == Failure(ModeError(mode).value)
    ensures ModeError(mode).None? ==> r.Success? && fresh(r.value) && r.value.buf == body && r.value.pos == 0
  {
    var e := ModeError(mode);
    if e.Some? {
      r := Failure(e.value);
    } else {
      var f := new ReadableFile(body);
      r := Success(f);
    }
  }

  /** The reads of the seek test: after seek(k, 0) a read of n bytes gives the n bytes at k;
      after seek(-1, 2) a read gives the last byte; seek(2, 1) from 0 lands on 2. */
  lemma SeekThenRead(buf: seq<byte>, k: nat, n: nat)
    requires k + n <= |buf|
    ensures SeekTarget(|buf|, 0, k, 0) == Success(k) && Chunk(buf, k, n) == buf[k..k + n]
    ensures |buf| > 0 ==> SeekTarget(|buf|, k, -1, 2) == Success(|buf| - 1) &&
                          Chunk(buf, |buf| - 1, DefaultReadSize) == buf[|buf| - 1..]
    ensures SeekTarget(|buf|, 0, 2, 1) == Success(2)
  {
  }
}
