/**
 * What the walker promises about archives laid out as an archiver writes
 * them: headers decode to the numbers written, a short name yields
 * "archive:name" and a skip of the whole payload, and walking a whole
 * archive gives back every member in order, with the alignment pads
 * (including the '\n' of the global magic) absorbed on the way.
 */
module RoundTrip {
  import opened Bytes
  import opened Stream
  import opened AsciiNumber
  import opened Archive
  import opened ArWriter

  /** A written header keeps its name field and end magic, and its numbers decode back. */
  lemma {:induction false} HeaderDecodes(nameField: seq<Byte>, f: Fields, name: CStr)
    requires |nameField| == NAME_LEN && Writable(f)
    ensures Header(nameField, f)[..NAME_LEN] == nameField
    ensures HasEndMagic(Header(nameField, f))
    ensures DecodeMember(name, Header(nameField, f)) == Member(name, f.date, f.uid, f.gid, f.mode, f.size)
  {
    var hdr := Header(nameField, f);
    var b := FormatField(f.date, DATE_LEN, 10);
    var c := FormatField(f.uid, UID_LEN, 10);
    var d := FormatField(f.gid, GID_LEN, 10);
    var e := FormatField(f.mode, MODE_LEN, 8);
    var g := FormatField(f.size, SIZE_LEN, 10);
    assert hdr == nameField + b + c + d + e + g + ['`', LF];
    assert hdr[..NAME_LEN] == nameField;
    assert hdr[DATE_OFF..DATE_OFF + DATE_LEN] == b;
    assert hdr[UID_OFF..UID_OFF + UID_LEN] == c;
    assert hdr[GID_OFF..GID_OFF + GID_LEN] == d;
    assert hdr[MODE_OFF..MODE_OFF + MODE_LEN] == e;
    assert hdr[SIZE_OFF..SIZE_OFF + SIZE_LEN] == g;
    FormatFieldRoundTrip(f.date, DATE_LEN, 10);
    FormatFieldRoundTrip(f.uid, UID_LEN, 10);
    FormatFieldRoundTrip(f.gid, GID_LEN, 10);
    FormatFieldRoundTrip(f.mode, MODE_LEN, 8);
    FormatFieldRoundTrip(f.size, SIZE_LEN, 10);
  }

  /** Splitting what follows position `q` of `d` into two consecutive parts. */
  lemma {:induction false} SuffixSplit(d: seq<Byte>, q: nat, a: seq<Byte>, b: seq<Byte>)
    requires q <= |d| && d[q..] == a + b
    ensures q + |a| <= |d|
    ensures d[q..q + |a|] == a && d[q + |a|..] == b
  {
    assert d[q..][..|a|] == a && d[q..][|a|..] == b;
  }

  /**
   * The display name of a name that holds no '/' and is followed by nothing
   * or by a '/' is "archive:name" whenever that fits the buffer.
   */
  lemma {:induction false} DisplayNameStopsAtSlash(filename: CStr, name: CStr, tail: CStr, cap: nat)
    requires SLASH !in name
    requires tail == [] || tail[0] == SLASH
    requires |filename| + |name| + 2 <= cap
    ensures DisplayName(filename, name + tail, cap) == filename + [':'] + name
  {
    var full := filename + [':'] + (name + tail);
    var r := DisplayName(filename, name + tail, cap);
    var k := |filename| + 1 + |name|;
    assert forall i :: |filename| < i < k ==> full[i] == name[i - |filename| - 1];
    assert full[|filename|] == ':';
    assert forall i :: |filename| <= i < k ==> full[i] != SLASH;
    assert forall i :: 0 <= i < |r| ==> r[i] == full[i];
    assert k <= Min(cap - 1, |full|);
    assert k < |full| ==> full[k] == SLASH;
    assert |r| == k;
    assert full[..k] == filename + [':'] + name;
  }

  /** A header written after at most one '\n' pad is read back whole, the pad absorbed. */
  lemma {:induction false} ReadHeaderAfterPad(d: seq<Byte>, q: nat, pad: seq<Byte>, hdr: seq<Byte>, more: seq<Byte>)
    requires pad == [] || pad == [LF]
    requires |hdr| == HEADER_SIZE && (pad == [] ==> hdr[0] != LF)
    requires q <= |d| && d[q..] == pad + hdr + more
    ensures ReadHeader(Open(d, q)) == Ok(Chunk(hdr, Open(d, q + |pad| + HEADER_SIZE)))
  {
    SuffixSplit(d, q, pad, hdr + more);
    SuffixSplit(d, q + |pad|, hdr, more);
  }

  /** A short name field names itself: no long-name convention applies and nothing is read. */
  lemma {:induction false} ShortNameResolves(extfn: Option<seq<Byte>>, name: CStr, f: File)
    requires 0 < |name| < NAME_LEN && SLASH !in name && name != "#1"
    ensures ResolveName(extfn, ShortNameField(name), f) == Ok(Resolved(ShortNameField(name), 0, f))
  {
    var field := ShortNameField(name);
    assert forall i :: 0 <= i < |name| ==> field[i] == name[i];
    assert forall i :: |name| < i < NAME_LEN ==> field[i] == ' ';
    assert field[|name|] == SLASH;
    assert field[0] != SLASH;
    assert field[2] == SLASH ==> |name| == 2;
    assert NUL !in field;
    CStringOfNulFree(field);
  }

  /** A header whose name field is a short name yields "archive:name" and its numbers, skipping the whole payload. */
  lemma {:induction false} ShortNameMember(h: Handle, name: CStr, hdr: seq<Byte>, m: Member, f: File, cap: nat)
    requires cap > 0 && ShortName(name, h.filename, cap)
    requires |hdr| == HEADER_SIZE && hdr[..NAME_LEN] == ShortNameField(name)
    requires DecodeMember(h.filename + [':'] + name, hdr) == m
    ensures MemberOf(h, hdr, f, cap) == (Yield(m), h.(file := f, skip := m.size))
  {
    var field := ShortNameField(name);
    var tail := [SLASH] + Spaces(NAME_LEN - 1 - |name|);
    assert field == name + tail;
    ShortNameResolves(h.extfn, name, f);
    DisplayNameStopsAtSlash(h.filename, name, tail, cap);
  }

  /**
   * When the skip target holds a header with its end magic that is not the
   * `//` table, `ar_next` treats that header as a member.
   */
  lemma {:induction false} NextAtMember(h: Handle, cap: nat, hdr: seq<Byte>, f: File)
    requires cap > 0 && h.file.Open? && h.skip >= 0
    requires |hdr| == HEADER_SIZE && HasEndMagic(hdr) && !IsTableHeader(hdr)
    requires ReadHeader(Open(h.file.data, h.file.pos + h.skip)) == Ok(Chunk(hdr, f))
    ensures Next(h, cap) == MemberOf(h, hdr, f, cap)
  {
  }

  /**
   * A short-named member header at the skip target, after at most one pad
   * byte, is returned, and the handle is left just past the header with the
   * whole payload to skip.
   */
  lemma {:induction false} NextReadsMember(h: Handle, cap: nat, name: CStr, hdr: seq<Byte>, m: Member, pad: seq<Byte>, after: seq<Byte>)
      returns (h': Handle)
    requires cap > 0 && ShortName(name, h.filename, cap)
    requires |hdr| == HEADER_SIZE && hdr[..NAME_LEN] == ShortNameField(name) && HasEndMagic(hdr)
    requires DecodeMember(h.filename + [':'] + name, hdr) == m
    requires h.file.Open? && h.skip >= 0
    requires pad == [] || pad == [LF]
    requires h.file.pos + h.skip <= |h.file.data|
    requires h.file.data[h.file.pos + h.skip..] == pad + hdr + after
    ensures h' == h.(file := Open(h.file.data, h.file.pos + h.skip + |pad| + HEADER_SIZE), skip := m.size)
    ensures Next(h, cap) == (Yield(m), h')
  {
    var d, q := h.file.data, h.file.pos + h.skip;
    var f := Open(d, q + |pad| + HEADER_SIZE);
    assert hdr[0] == hdr[..NAME_LEN][0] == name[0];
    ReadHeaderAfterPad(d, q, pad, hdr, after);
    NextAtMember(h, cap, hdr, f);
    ShortNameMember(h, name, hdr, m, f, cap);
    h' := h.(file := f, skip := m.size);
  }

  /** Fewer than 60 bytes at the skip target end the walk and release the descriptor. */
  lemma {:induction false} NextAtShortTail(h: Handle, cap: nat)
    requires cap > 0 && h.file.Open? && h.skip >= 0
    requires h.file.pos + h.skip + HEADER_SIZE > |h.file.data|
    ensures Next(h, cap) == (End(ShortHeader), Close(h))
  {
  }

  /** The bytes at position `q` of `d`, regrouped around the end of an entry's payload. */
  lemma {:induction false} SplitAt(d: seq<Byte>, q: nat, pad: seq<Byte>, hdr: seq<Byte>, payload: seq<Byte>, p: seq<Byte>, rest: seq<Byte>)
    requires q <= |d| && d[q..] == pad + (hdr + payload + p) + rest
    ensures d[q..] == pad + hdr + (payload + p + rest)
    ensures q + |pad| + |hdr| + |payload| <= |d|
    ensures d[q + |pad| + |hdr| + |payload|..] == p + rest
  {
    assert pad + (hdr + payload + p) + rest == (pad + hdr + payload) + (p + rest);
    SuffixSplit(d, q, pad + hdr + payload, p + rest);
  }

  lemma {:induction false} AllWellFormedTail(es: seq<Entry>, filename: CStr, cap: nat)
    requires |es| > 0 && AllWellFormed(es, filename, cap)
    ensures WellFormed(es[0], filename, cap) && AllWellFormed(es[1..], filename, cap)
    ensures EncodeEntries(es) == EncodeEntry(es[0]) + EncodeEntries(es[1..])
  {
    assert forall i :: 0 <= i < |es[1..]| ==> es[1..][i] == es[i + 1];
  }

  /** A written entry is its header, which holds its name and numbers, then its payload and pad. */
  lemma {:induction false} EntryParts(e: Entry, filename: CStr, cap: nat) returns (hdr: seq<Byte>)
    requires WellFormed(e, filename, cap)
    ensures |hdr| == HEADER_SIZE && hdr[..NAME_LEN] == ShortNameField(e.name) && HasEndMagic(hdr)
    ensures DecodeMember(filename + [':'] + e.name, hdr) == Expected(filename, e)
    ensures EncodeEntry(e) == hdr + e.payload + Pad(|e.payload|)
  {
    hdr := Header(ShortNameField(e.name), FieldsOf(e));
    HeaderDecodes(ShortNameField(e.name), FieldsOf(e), filename + [':'] + e.name);
  }

  /**
   * The first written entry at position `q` of `d`: its header, which holds
   * the entry's name and numbers, and where its pad and the next entries begin.
   */
  lemma {:induction false} EntryLayout(d: seq<Byte>, q: nat, es: seq<Entry>, filename: CStr, cap: nat, pad: seq<Byte>)
      returns (hdr: seq<Byte>, after: seq<Byte>)
    requires |es| > 0 && AllWellFormed(es, filename, cap)
    requires q <= |d| && d[q..] == pad + EncodeEntries(es)
    ensures ShortName(es[0].name, filename, cap) && AllWellFormed(es[1..], filename, cap)
    ensures |hdr| == HEADER_SIZE && hdr[..NAME_LEN] == ShortNameField(es[0].name) && HasEndMagic(hdr)
    ensures DecodeMember(filename + [':'] + es[0].name, hdr) == Expected(filename, es[0])
    ensures d[q..] == pad + hdr + after
    ensures q + |pad| + HEADER_SIZE + |es[0].payload| <= |d|
    ensures d[q + |pad| + HEADER_SIZE + |es[0].payload|..] == Pad(|es[0].payload|) + EncodeEntries(es[1..])
  {
    AllWellFormedTail(es, filename, cap);
    var e := es[0];
    var rest := EncodeEntries(es[1..]);
    hdr := EntryParts(e, filename, cap);
    after := e.payload + Pad(|e.payload|) + rest;
    SplitAt(d, q, pad, hdr, e.payload, Pad(|e.payload|), rest);
  }

  /**
   * Reading the first of the written entries at the skip target: it is
   * returned, and the handle after it has the entry's pad and the remaining
   * entries at its own skip target.
   */
  lemma {:induction false} EntryAdvance(h: Handle, cap: nat, es: seq<Entry>, pad: seq<Byte>) returns (h': Handle)
    requires cap > 0 && |es| > 0
    requires AllWellFormed(es, h.filename, cap)
    requires h.file.Open? && h.skip >= 0
    requires pad == [] || pad == [LF]
    requires h.file.pos + h.skip <= |h.file.data|
    requires h.file.data[h.file.pos + h.skip..] == pad + EncodeEntries(es)
    ensures Next(h, cap) == (Yield(Expected(h.filename, es[0])), h')
    ensures h'.filename == h.filename && AllWellFormed(es[1..], h.filename, cap)
    ensures h'.file.Open? && h'.skip >= 0 && h'.file.pos + h'.skip <= |h'.file.data|
    ensures h'.file.data[h'.file.pos + h'.skip..] == Pad(|es[0].payload|) + EncodeEntries(es[1..])
  {
    var d, q := h.file.data, h.file.pos + h.skip;
    var hdr, after := EntryLayout(d, q, es, h.filename, cap, pad);
    var m := Expected(h.filename, es[0]);
    h' := NextReadsMember(h, cap, es[0].name, hdr, m, pad, after);
    assert h'.file.pos + h'.skip == q + |pad| + HEADER_SIZE + |es[0].payload|;
  }

  /**
   * From a handle whose skip target holds at most one pad byte and then
   * written entries, successive calls of `ar_next` return exactly those
   * entries, in order, and the call after the last one ends the walk: `hs`
   * are the handles the calls are made with.
   */
  lemma {:induction false} WalkFrom(h: Handle, cap: nat, es: seq<Entry>, pad: seq<Byte>) returns (hs: seq<Handle>)
    requires cap > 0
    requires AllWellFormed(es, h.filename, cap)
    requires h.file.Open? && h.skip >= 0
    requires pad == [] || pad == [LF]
    requires h.file.pos + h.skip <= |h.file.data|
    requires h.file.data[h.file.pos + h.skip..] == pad + EncodeEntries(es)
    ensures |hs| == |es| + 1 && hs[0] == h
    ensures forall i :: 0 <= i < |es| ==> Next(hs[i], cap) == (Yield(Expected(h.filename, es[i])), hs[i + 1])
    ensures Next(hs[|es|], cap) == (End(ShortHeader), Close(hs[|es|]))
    decreases |es|
  {
    if |es| == 0 {
      NextAtShortTail(h, cap);
      hs := [h];
    } else {
      var h' := EntryAdvance(h, cap, es, pad);
      var tail := WalkFrom(h', cap, es[1..], Pad(|es[0].payload|));
      hs := [h] + tail;
      forall i | 0 <= i < |es|
        ensures Next(hs[i], cap) == (Yield(Expected(h.filename, es[i])), hs[i + 1])
      {
        if i > 0 {
          assert hs[i] == tail[i - 1] && hs[i + 1] == tail[i] && es[i] == es[1..][i - 1];
        }
      }
    }
  }

  /**
   * Walking a written archive gives back every member, in order, with the
   * name, date, uid, gid, mode and size it was written with, and then ends
   * at the archive's end. The opening check covers only "!<arch>"; the '\n'
   * that completes the global magic is absorbed as the pad byte before the
   * first header.
   */
  lemma {:induction false} WalkRoundTrip(filename: CStr, verbose: bool, es: seq<Entry>, cap: nat) returns (hs: seq<Handle>)
    requires cap > 0
    requires AllWellFormed(es, filename, cap)
    ensures ArOpen(filename, EncodeArchive(es), verbose).Some?
    ensures |hs| == |es| + 1 && hs[0] == ArOpen(filename, EncodeArchive(es), verbose).value
    ensures forall i :: 0 <= i < |es| ==> Next(hs[i], cap) == (Yield(Expected(filename, es[i])), hs[i + 1])
    ensures Next(hs[|es|], cap).0 == End(ShortHeader)
  {
    var data := EncodeArchive(es);
    assert data[..|AR_MAGIC|] == AR_MAGIC;
    var h := ArOpen(filename, data, verbose).value;
    assert data[|AR_MAGIC|..] == [LF] + EncodeEntries(es);
    hs := WalkFrom(h, cap, es, [LF]);
  }
}
