/**
 * The descriptor an archive is read through, as the archive walker uses it:
 * a blocking `read` that must deliver exactly the bytes asked for, and a
 * relative `lseek`. The file's contents are an immutable byte sequence.
 */
module Stream {
  import opened Bytes

  /** An open descriptor positioned at `pos` in `data`, or the released descriptor (fd -1). */
  datatype File = Open(data: seq<Byte>, pos: nat) | Closed

  /** The bytes a read delivered and the descriptor after it. */
  datatype Chunk = Chunk(bytes: seq<Byte>, rest: File)

  /**
   * `read(fd, buf, n) == n`: succeeds when `n` bytes remain (a read of 0
   * bytes always succeeds on an open descriptor) and fails on fd -1.
   */
  function Read(f: File, n: nat): (r: Option<Chunk>)
    ensures r.Some? <==> f.Open? && (n == 0 || f.pos + n <= |f.data|)
    ensures r.Some? ==> |r.value.bytes| == n && r.value.rest == Open(f.data, f.pos + n)
    ensures r.Some? && n > 0 ==> r.value.bytes == f.data[f.pos..f.pos + n]
  {
    match f
    case Closed => None
    case Open(data, pos) =>
      if n == 0 then Some(Chunk([], f))
      else if pos + n <= |data| then Some(Chunk(data[pos..pos + n], Open(data, pos + n)))
      else None
  }

  /**
   * `lseek(fd, off, SEEK_CUR) != -1`: fails on fd -1 and when the new
   * offset would be negative; a position past the end is allowed.
   */
  function Seek(f: File, off: int): (r: Option<File>)
    ensures r.Some? <==> f.Open? && f.pos + off >= 0
    ensures r.Some? ==> r.value == Open(f.data, f.pos + off)
  {
    match f
    case Closed => None
    case Open(data, pos) => if pos + off >= 0 then Some(Open(data, pos + off)) else None
  }
}
