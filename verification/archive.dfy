/**
 * The read-only ar archive walker: `ar_open_fd` checks the global magic and
 * sets up a handle; each `ar_next` applies the pending skip, reads one
 * 60-byte member header (absorbing one '\n' alignment byte), services the
 * three long-name conventions and returns the decoded member, or ends the
 * walk and releases the handle.
 */
module Archive {
  import opened Bytes
  import opened Stream
  import opened AsciiNumber

  /** The magic that is compared: "!<arch>" without its '\n' (AR_MAGIC_SIZE is sizeof - 1). */
  const AR_MAGIC: seq<Byte> := "!<arch>"

  /** Member header layout: name, date, uid, gid, mode, size, then the two-byte end magic. */
  const HEADER_SIZE: nat := 60
  const NAME_LEN: nat := 16
  const DATE_OFF: nat := 16
  const DATE_LEN: nat := 12
  const UID_OFF: nat := 28
  const UID_LEN: nat := 6
  const GID_OFF: nat := 34
  const GID_LEN: nat := 6
  const MODE_OFF: nat := 40
  const MODE_LEN: nat := 8
  const SIZE_OFF: nat := 48
  const SIZE_LEN: nat := 10
  const FMAG_OFF: nat := 58

  /**
   * The walker's state. `file` is the descriptor, `skip` the payload bytes
   * still to pass over before the next header, and `extfn` the loaded `//`
   * name table, whose length is the table length the source keeps beside it.
   */
  datatype Handle = Handle(filename: CStr, verbose: bool, file: File, skip: int, extfn: Option<seq<Byte>>)

  /** A decoded member: the display name "archive:member" and the numeric header fields. */
  datatype Member = Member(name: CStr, date: nat, uid: nat, gid: nat, mode: nat, size: nat)

  /** Why a walk stopped; the source reports all of them to its caller alike, as "no member". */
  datatype EndReason =
    | SeekFailed      // the pending skip could not be applied
    | ShortHeader     // fewer than 60 bytes left for a header
    | ShortPad        // the byte after a '\n' pad could not be read
    | BadHeaderMagic  // header bytes 58..59 are not "`\n"
    | DuplicateTable  // a second `//` name table
    | ShortTable      // the `//` table is cut short
    | ShortLongName   // the bytes of a BSD `#1/L` name are cut short
    | MissingTable    // a GNU `/O` name before any `//` table
    | BadOffset       // a GNU `/O` name whose offset is past the table

  datatype Step = Yield(member: Member) | End(reason: EndReason)

  datatype Outcome<T> = Ok(value: T) | Stop(reason: EndReason)

  function Min(a: int, b: int): int { if a <= b then a else b }

  /**
   * `ar_open_fd`: read 7 bytes from the start of `data` and compare them with
   * "!<arch>". A fresh handle has no pending skip and no name table.
   */
  function ArOpen(filename: CStr, data: seq<Byte>, verbose: bool): (r: Option<Handle>)
    ensures r.Some? <==> |data| >= |AR_MAGIC| && data[..|AR_MAGIC|] == AR_MAGIC
    ensures r.Some? ==> r.value.file == Open(data, |AR_MAGIC|)
    ensures r.Some? ==> r.value.skip == 0 && r.value.extfn.None?
    ensures r.Some? ==> r.value.filename == filename && r.value.verbose == verbose
  {
    match Read(Open(data, 0), |AR_MAGIC|)
    case None => None
    case Some(c) => if c.bytes != AR_MAGIC then None else Some(Handle(filename, verbose, c.rest, 0, None))
  }

  /** The `close_and_ret` exit: the table is freed and the descriptor becomes -1. */
  function Close(h: Handle): (r: Handle)
    ensures r.file.Closed? && r.extfn.None?
    ensures r.filename == h.filename && r.verbose == h.verbose && r.skip == h.skip
  {
    h.(file := Closed, extfn := None)
  }

  /**
   * Read the 60 header bytes; when the first is '\n' (the alignment pad after
   * an odd-sized payload) drop it, shift the other 59 down and read one more.
   * Only one pad byte is ever absorbed.
   */
  function ReadHeader(f: File): (r: Outcome<Chunk>)
    ensures f.Closed? ==> r.Stop?
    ensures f.Open? ==>
      var d, p := f.data, f.pos;
      (r.Ok? <==> p + HEADER_SIZE <= |d| && (d[p] != LF || p + HEADER_SIZE + 1 <= |d|))
      && (r.Ok? && d[p] != LF ==> r.value == Chunk(d[p..p + HEADER_SIZE], Open(d, p + HEADER_SIZE)))
      && (r.Ok? && d[p] == LF ==> r.value == Chunk(d[p + 1..p + HEADER_SIZE + 1], Open(d, p + HEADER_SIZE + 1)))
  {
    match Read(f, HEADER_SIZE)
    case None => Stop(ShortHeader)
    case Some(c) =>
      if c.bytes[0] == LF then
        match Read(c.rest, 1)
        case None => Stop(ShortPad)
        case Some(p) => Ok(Chunk(c.bytes[1..] + p.bytes, p.rest))
      else Ok(c)
  }

  /** The `//` table as stored: every '\n' after index 0 becomes a NUL terminator. */
  function NulTerminateNames(raw: seq<Byte>): (t: seq<Byte>)
    ensures |t| == |raw|
  {
    seq(|raw|, i requires 0 <= i < |raw| => if i > 0 && raw[i] == LF then NUL else raw[i])
  }

  /**
   * The table conversion as the source writes it: a walk down from the last
   * index to index 1, rewriting each '\n' in place.
   */
  method LoadNameTable(raw: seq<Byte>) returns (t: seq<Byte>)
    ensures |t| == |raw|
    ensures |raw| > 0 ==> t[0] == raw[0]
    ensures forall i :: 0 < i < |raw| ==> t[i] == (if raw[i] == LF then NUL else raw[i])
    ensures t == NulTerminateNames(raw)
  {
    t := raw;
    var len := |raw| - 1;
    while len > 0
      invariant -1 <= len < |raw| && (len == -1 <==> |raw| == 0)
      invariant |t| == |raw|
      invariant forall i :: 0 <= i <= len ==> t[i] == raw[i]
      invariant forall i :: len < i < |raw| && i > 0 ==> t[i] == (if raw[i] == LF then NUL else raw[i])
    {
      if t[len] == LF {
        t := t[len := NUL];
      }
      len := len - 1;
    }
  }

  /** The first index at or after `start` that holds '/', or `|t|`. */
  function SlashFrom(t: seq<Byte>, start: nat): (k: nat)
    ensures k <= |t|
    ensures k < |t| ==> start <= k && t[k] == SLASH
    ensures forall i :: start <= i < k ==> t[i] != SLASH
    decreases |t| - start
  {
    if start >= |t| then |t| else if t[start] == SLASH then start else SlashFrom(t, start + 1)
  }

  /**
   * `snprintf(ret.name, cap, "%s:%s", filename, name)`, then the result cut at
   * the first '/' found at or after index `strlen(filename)`.
   */
  function DisplayName(filename: CStr, name: CStr, cap: nat): (r: CStr)
    requires cap > 0
    ensures |r| < cap
    ensures r <= filename + [':'] + name
    ensures forall i :: |filename| <= i < |r| ==> r[i] != SLASH
    ensures |r| == Min(cap - 1, |filename| + 1 + |name|)
         || (|filename| <= |r| && (filename + [':'] + name)[|r|] == SLASH)
  {
    var full := filename + [':'] + name;
    var t := full[..Min(cap - 1, |full|)];
    t[..SlashFrom(t, |filename|)]
  }

  /** The member name a header resolves to, the name bytes read inline, and the descriptor after. */
  datatype Resolved = Resolved(name: CStr, inline: nat, rest: File)

  /**
   * The long-name conventions other than the `//` table itself:
   * BSD `#1/L` (the name is the next L bytes of the payload), GNU `/O` (the
   * name is the string at offset O of the table), and otherwise the 16-byte
   * name field itself.
   */
  function ResolveName(extfn: Option<seq<Byte>>, field: seq<Byte>, f: File): (r: Outcome<Resolved>)
    requires |field| == NAME_LEN
    ensures r.Ok? && field[..3] != "#1/" ==> r.value.inline == 0 && r.value.rest == f
    ensures r.Ok? && f.Open? ==> r.value.rest == Open(f.data, f.pos + r.value.inline)
  {
    if field[0] == '#' && field[1] == '1' && field[2] == '/' then
      var len := ReadAsciiNumber(field[3..], 10);
      match Read(f, len)
      case None => Stop(ShortLongName)
      case Some(c) =>
        // A name that fits is read over the name field itself; a longer one into its own buffer.
        var s := if len <= NAME_LEN then c.bytes + field[len..] else c.bytes;
        Ok(Resolved(CString(s), len, c.rest))
    else if field[0] == '/' && '0' <= field[1] <= '9' then
      match extfn
      case None => Stop(MissingTable)
      case Some(table) =>
        var off := ReadAsciiNumber(field[1..], 10);
        if off >= |table| then Stop(BadOffset) else Ok(Resolved(CString(table[off..]), 0, f))
    else Ok(Resolved(CString(field), 0, f))
  }

  /** The numeric fields of a header: date, uid, gid and size decimal, mode octal. */
  function DecodeMember(name: CStr, hdr: seq<Byte>): (m: Member)
    requires |hdr| == HEADER_SIZE
    ensures m.name == name
    // Every number fits the width of its field: no header can announce more.
    ensures m.date < 1_000_000_000_000 && m.uid < 1_000_000 && m.gid < 1_000_000
    ensures m.mode < 0x100_0000 && m.size < 10_000_000_000
  {
    Member(name,
           ReadAsciiNumber(hdr[DATE_OFF..DATE_OFF + DATE_LEN], 10),
           ReadAsciiNumber(hdr[UID_OFF..UID_OFF + UID_LEN], 10),
           ReadAsciiNumber(hdr[GID_OFF..GID_OFF + GID_LEN], 10),
           ReadAsciiNumber(hdr[MODE_OFF..MODE_OFF + MODE_LEN], 8),
           ReadAsciiNumber(hdr[SIZE_OFF..SIZE_OFF + SIZE_LEN], 10))
  }

  predicate IsTableHeader(hdr: seq<Byte>)
    requires |hdr| == HEADER_SIZE
  {
    hdr[0] == '/' && hdr[1] == '/'
  }

  predicate HasEndMagic(hdr: seq<Byte>)
    requires |hdr| == HEADER_SIZE
  {
    hdr[FMAG_OFF] == '`' && hdr[FMAG_OFF + 1] == LF
  }

  /**
   * The `//` header: load `size` bytes as the name table, which must be the
   * first one of the archive, and clear the skip.
   */
  function LoadTable(h: Handle, hdr: seq<Byte>, f: File): (r: Outcome<Handle>)
    requires |hdr| == HEADER_SIZE
    ensures r.Ok? <==> h.extfn.None? && Read(f, ReadAsciiNumber(hdr[SIZE_OFF..SIZE_OFF + SIZE_LEN], 10)).Some?
    ensures r.Ok? ==> r.value.extfn.Some? && r.value.skip == 0 && r.value.file.Open?
    ensures r.Ok? ==> r.value.filename == h.filename && r.value.verbose == h.verbose
    ensures r.Ok? ==> |r.value.extfn.value| == ReadAsciiNumber(hdr[SIZE_OFF..SIZE_OFF + SIZE_LEN], 10)
    ensures h.extfn.Some? ==> r == Stop(DuplicateTable)
    ensures h.extfn.None? && r.Stop? ==> r.reason == ShortTable
    // The descriptor stands just after the table, whose '\n's have become NULs.
    ensures r.Ok? ==>
      var len := ReadAsciiNumber(hdr[SIZE_OFF..SIZE_OFF + SIZE_LEN], 10);
      f.Open? && r.value.file == Open(f.data, f.pos + len)
      && (len > 0 ==> r.value.extfn.value == NulTerminateNames(f.data[f.pos..f.pos + len]))
  {
    if h.extfn.Some? then Stop(DuplicateTable)
    else
      var len := ReadAsciiNumber(hdr[SIZE_OFF..SIZE_OFF + SIZE_LEN], 10);
      match Read(f, len)
      case None => Stop(ShortTable)
      case Some(t) => Ok(h.(file := t.rest, skip := 0, extfn := Some(NulTerminateNames(t.bytes))))
  }

  /**
   * A header that is not a `//` table: resolve its name, decode its fields,
   * and leave the rest of its payload to be skipped.
   */
  function MemberOf(h: Handle, hdr: seq<Byte>, f: File, cap: nat): (r: (Step, Handle))
    requires |hdr| == HEADER_SIZE && cap > 0
    ensures r.1.filename == h.filename && r.1.verbose == h.verbose
    ensures r.0.End? ==> r.1 == Close(h)
    ensures r.0.Yield? ==> r.1.extfn == h.extfn && |r.0.member.name| < cap && r.1.skip <= r.0.member.size
    ensures r.0.Yield? && f.Open? ==> r.1.file.Open? && r.1.file.data == f.data
    // BSD name bytes are counted in `size`: the next header is always `size` bytes on.
    ensures r.0.Yield? && f.Open? ==> r.1.file.pos + r.1.skip == f.pos + r.0.member.size
  {
    match ResolveName(h.extfn, hdr[..NAME_LEN], f)
    case Stop(why) => (End(why), Close(h))
    case Ok(n) =>
      var m := DecodeMember(DisplayName(h.filename, n.name, cap), hdr);
      (Yield(m), h.(file := n.rest, skip := m.size - n.inline))
  }

  /**
   * Where the next header is read from: the pending skip is applied with a
   * relative seek, and only when it is non-zero.
   */
  function SkipTarget(h: Handle): (r: Option<File>)
    ensures r.Some? <==> h.skip == 0 || (h.file.Open? && h.file.pos + h.skip >= 0)
    ensures r.Some? && h.file.Open? ==> r.value == Open(h.file.data, h.file.pos + h.skip)
    ensures r.Some? && h.file.Closed? ==> r.value == Closed
  {
    if h.skip != 0 then Seek(h.file, h.skip) else Some(h.file)
  }

  /**
   * `ar_next`. `cap` is the size of the display-name buffer. A `//` table
   * header is consumed without being returned: the table is loaded and the
   * walk goes on to the following header, once at most, since a second table
   * ends the walk.
   */
  function Next(h: Handle, cap: nat): (r: (Step, Handle))
    requires cap > 0
    ensures r.1.filename == h.filename && r.1.verbose == h.verbose
    ensures r.0.End? ==> r.1.file.Closed? && r.1.extfn.None?
    ensures r.0.Yield? ==> r.1.file.Open? && h.file.Open? && r.1.file.data == h.file.data
    ensures r.0.Yield? ==> |r.0.member.name| < cap && r.1.skip <= r.0.member.size
    ensures r.0.Yield? && h.extfn.Some? ==> r.1.extfn == h.extfn
    decreases if h.extfn.None? then 1 else 0
  {
    var sought := SkipTarget(h);
    if sought.None? then (End(SeekFailed), Close(h))
    else
      match ReadHeader(sought.value)
      case Stop(why) => (End(why), Close(h))
      case Ok(c) =>
        if !HasEndMagic(c.bytes) then (End(BadHeaderMagic), Close(h))
        else if IsTableHeader(c.bytes) then
          match LoadTable(h, c.bytes, c.rest)
          case Stop(why) => (End(why), Close(h))
          case Ok(h') => Next(h', cap)
        else MemberOf(h, c.bytes, c.rest, cap)
  }
}
