/**
 * How an archiver lays out what the walker reads: the 60-byte member header
 * with its left-justified space-padded numbers, the three kinds of name
 * field, and whole archives of short-named members with their '\n'
 * alignment pads. It is the reference the walker is proved against.
 */
module ArWriter {
  import opened Bytes
  import opened AsciiNumber
  import opened Archive

  /** The numeric header fields of one member. */
  datatype Fields = Fields(date: nat, uid: nat, gid: nat, mode: nat, size: nat)

  predicate Writable(f: Fields) {
    && Fits(f.date, DATE_LEN, 10)
    && Fits(f.uid, UID_LEN, 10)
    && Fits(f.gid, GID_LEN, 10)
    && Fits(f.mode, MODE_LEN, 8)
    && Fits(f.size, SIZE_LEN, 10)
  }

  /** The bytes after the name field: five numbers and the end magic "`\n". */
  function HeaderTail(f: Fields): (t: seq<Byte>)
    requires Writable(f)
    ensures |t| == HEADER_SIZE - NAME_LEN
  {
    FormatField(f.date, DATE_LEN, 10) + FormatField(f.uid, UID_LEN, 10) + FormatField(f.gid, GID_LEN, 10)
      + FormatField(f.mode, MODE_LEN, 8) + FormatField(f.size, SIZE_LEN, 10) + ['`', LF]
  }

  function Header(nameField: seq<Byte>, f: Fields): (hdr: seq<Byte>)
    requires |nameField| == NAME_LEN && Writable(f)
    ensures |hdr| == HEADER_SIZE
  {
    nameField + HeaderTail(f)
  }

  /** A short GNU/System V name: the name, its '/' terminator, then spaces. */
  function ShortNameField(name: seq<Byte>): (field: seq<Byte>)
    requires |name| < NAME_LEN
    ensures |field| == NAME_LEN
  {
    name + [SLASH] + Spaces(NAME_LEN - 1 - |name|)
  }

  /** A BSD "#1/L" name field: the name's length, its bytes following the header. */
  function BsdNameField(len: nat): (field: seq<Byte>)
    requires Fits(len, NAME_LEN - 3, 10)
    ensures |field| == NAME_LEN
  {
    "#1/" + FormatField(len, NAME_LEN - 3, 10)
  }

  /** A GNU "/O" name field: the offset of the name in the `//` table. */
  function GnuNameField(off: nat): (field: seq<Byte>)
    requires Fits(off, NAME_LEN - 1, 10)
    ensures |field| == NAME_LEN
  {
    "/" + FormatField(off, NAME_LEN - 1, 10)
  }

  /** The name field of the `//` name table header. */
  function TableNameField(): (field: seq<Byte>)
    ensures |field| == NAME_LEN
  {
    "//" + Spaces(NAME_LEN - 2)
  }

  /** The '\n' that keeps the next header on an even offset after an odd-sized payload. */
  function Pad(size: nat): seq<Byte> {
    if size % 2 == 1 then [LF] else []
  }

  /** A member with a short name, as an archiver stores it. */
  datatype Entry = Entry(name: CStr, date: nat, uid: nat, gid: nat, mode: nat, payload: seq<Byte>)

  function FieldsOf(e: Entry): Fields {
    Fields(e.date, e.uid, e.gid, e.mode, |e.payload|)
  }

  /** An entry an archiver can store with a short name field. */
  predicate Encodable(e: Entry) {
    0 < |e.name| < NAME_LEN && Writable(FieldsOf(e))
  }

  /**
   * A name the walker gives back unchanged from its short form: non-empty and
   * short, holding no '/', not starting with '\n', not the two bytes "#1"
   * (whose field would read as a BSD name), and fitting, with the archive's
   * own name and a ':', in a display-name buffer of `cap` bytes.
   */
  predicate ShortName(name: CStr, filename: CStr, cap: nat) {
    && 0 < |name| < NAME_LEN
    && SLASH !in name
    && name[0] != LF
    && name != "#1"
    && |filename| + |name| + 2 <= cap
  }

  /** An entry the walker can give back unchanged. */
  predicate WellFormed(e: Entry, filename: CStr, cap: nat) {
    ShortName(e.name, filename, cap) && Writable(FieldsOf(e))
  }

  /** Every entry of an archive named `filename` is well-formed; each is then encodable. */
  predicate AllWellFormed(es: seq<Entry>, filename: CStr, cap: nat)
    ensures AllWellFormed(es, filename, cap) ==> forall i :: 0 <= i < |es| ==> Encodable(es[i])
  {
    forall i :: 0 <= i < |es| ==> WellFormed(es[i], filename, cap)
  }

  function EncodeEntry(e: Entry): seq<Byte>
    requires Encodable(e)
  {
    Header(ShortNameField(e.name), FieldsOf(e)) + e.payload + Pad(|e.payload|)
  }

  function EncodeEntries(es: seq<Entry>): seq<Byte>
    requires forall i :: 0 <= i < |es| ==> Encodable(es[i])
  {
    if |es| == 0 then [] else EncodeEntry(es[0]) + EncodeEntries(es[1..])
  }

  /** A whole archive: the 8-byte global magic "!<arch>\n", then the members. */
  function EncodeArchive(es: seq<Entry>): seq<Byte>
    requires forall i :: 0 <= i < |es| ==> Encodable(es[i])
  {
    AR_MAGIC + [LF] + EncodeEntries(es)
  }

  /** The `//` header announcing a name table of `f.size` bytes; the walker reads no other number of it. */
  function TableHeader(f: Fields): (hdr: seq<Byte>)
    requires Writable(f)
    ensures |hdr| == HEADER_SIZE
  {
    Header(TableNameField(), f)
  }

  /** An archive whose members are preceded by a `//` name table holding `raw`. */
  function EncodeArchiveWithTable(tf: Fields, raw: seq<Byte>, es: seq<Entry>): seq<Byte>
    requires Writable(tf) && tf.size == |raw|
    requires forall i :: 0 <= i < |es| ==> Encodable(es[i])
  {
    AR_MAGIC + [LF] + TableHeader(tf) + raw + Pad(|raw|) + EncodeEntries(es)
  }

  /** What the walker should report for an entry of the archive named `filename`. */
  function Expected(filename: CStr, e: Entry): Member
    requires NUL !in e.name
  {
    Member(filename + [':'] + e.name, e.date, e.uid, e.gid, e.mode, |e.payload|)
  }
}
