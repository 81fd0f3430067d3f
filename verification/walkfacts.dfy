/**
 * What one `ar_next` call does on each kind of header and each damaged
 * archive: the ways a walk ends, the `//` name table, and the BSD `#1/L`
 * and GNU `/O` long names, stated over the archive bytes.
 */
module WalkFacts {
  import opened Bytes
  import opened Stream
  import opened AsciiNumber
  import opened Archive
  import opened ArWriter
  import opened RoundTrip

  // ---------------------------------------------------------------------
  // Ends of a walk
  // ---------------------------------------------------------------------

  /** A pending skip that cannot be applied ends the walk and releases the handle. */
  lemma {:induction false} SeekFailureEnds(h: Handle, cap: nat)
    requires cap > 0 && h.skip != 0
    requires h.file.Closed? || h.file.pos + h.skip < 0
    ensures Next(h, cap) == (End(SeekFailed), Close(h))
  {
    assert SkipTarget(h).None?;
  }

  /** A released handle stays released: every later call ends the walk again. */
  lemma {:induction false} ReleasedStaysEnded(h: Handle, cap: nat)
    requires cap > 0 && h.file.Closed?
    ensures Next(h, cap) == (End(if h.skip != 0 then SeekFailed else ShortHeader), Close(h))
  {
    if h.skip == 0 {
      assert SkipTarget(h) == Some(Closed);
    }
  }

  /**
   * At the sought offset `q`: fewer than 60 bytes end the walk, and so does a
   * '\n' pad with nothing after the 60 bytes to refill from.
   */
  lemma {:induction false} ShortHeaderEnds(h: Handle, cap: nat)
    requires cap > 0 && h.file.Open? && h.file.pos + h.skip >= 0
    ensures var d, q := h.file.data, h.file.pos + h.skip;
      q + HEADER_SIZE > |d| ==> Next(h, cap) == (End(ShortHeader), Close(h))
    ensures var d, q := h.file.data, h.file.pos + h.skip;
      q + HEADER_SIZE == |d| && d[q] == LF ==> Next(h, cap) == (End(ShortPad), Close(h))
  {
    var d, q := h.file.data, h.file.pos + h.skip;
    assert SkipTarget(h) == Some(Open(d, q));
    if q + HEADER_SIZE > |d| {
      assert ReadHeader(Open(d, q)) == Stop(ShortHeader);
    } else if q + HEADER_SIZE == |d| && d[q] == LF {
      assert ReadHeader(Open(d, q)) == Stop(ShortPad);
    }
  }

  /**
   * A header whose bytes 58..59 are not "`\n" ends the walk; the header
   * starts one byte on when a '\n' pad comes first.
   */
  lemma {:induction false} BadMagicEnds(h: Handle, cap: nat)
    requires cap > 0 && h.file.Open? && h.file.pos + h.skip >= 0
    requires var d, q := h.file.data, h.file.pos + h.skip;
      q < |d| && (if d[q] == LF then q + 1 else q) + HEADER_SIZE <= |d|
    ensures var d, q := h.file.data, h.file.pos + h.skip;
      var a := if d[q] == LF then q + 1 else q;
      !(d[a + FMAG_OFF] == '`' && d[a + FMAG_OFF + 1] == LF) ==> Next(h, cap) == (End(BadHeaderMagic), Close(h))
  {
    var d, q := h.file.data, h.file.pos + h.skip;
    var a := if d[q] == LF then q + 1 else q;
    assert SkipTarget(h) == Some(Open(d, q));
    var hdr := d[a..a + HEADER_SIZE];
    assert ReadHeader(Open(d, q)) == Ok(Chunk(hdr, Open(d, a + HEADER_SIZE)));
    assert hdr[FMAG_OFF] == d[a + FMAG_OFF] && hdr[FMAG_OFF + 1] == d[a + FMAG_OFF + 1];
  }

  /** Reading as many bytes as `a` holds, where `a` comes next, gives `a`. */
  lemma {:induction false} ReadNext(f: File, a: seq<Byte>, more: seq<Byte>)
    requires f.Open? && f.pos <= |f.data| && f.data[f.pos..] == a + more
    ensures Read(f, |a|) == Some(Chunk(a, Open(f.data, f.pos + |a|)))
  {
    SuffixSplit(f.data, f.pos, a, more);
  }

  // ---------------------------------------------------------------------
  // The `//` name table
  // ---------------------------------------------------------------------

  /** The header `h` reads next is `hdr`, and the descriptor stands at `f` after it. */
  predicate ReadsHeader(h: Handle, hdr: seq<Byte>, f: File) {
    SkipTarget(h).Some? && ReadHeader(SkipTarget(h).value) == Ok(Chunk(hdr, f))
  }

  function TableSize(hdr: seq<Byte>): nat
    requires |hdr| == HEADER_SIZE
  {
    ReadAsciiNumber(hdr[SIZE_OFF..SIZE_OFF + SIZE_LEN], 10)
  }

  /** Loading a table of `raw` bytes: the handle holds it converted and stands after it. */
  lemma {:induction false} LoadTableOf(h: Handle, hdr: seq<Byte>, f: File, raw: seq<Byte>, more: seq<Byte>) returns (h': Handle)
    requires h.extfn.None? && |hdr| == HEADER_SIZE && TableSize(hdr) == |raw|
    requires f.Open? && f.pos <= |f.data| && f.data[f.pos..] == raw + more
    ensures h' == h.(file := Open(f.data, f.pos + |raw|), skip := 0, extfn := Some(NulTerminateNames(raw)))
    ensures LoadTable(h, hdr, f) == Ok(h')
  {
    ReadNext(f, raw, more);
    h' := h.(file := Open(f.data, f.pos + |raw|), skip := 0, extfn := Some(NulTerminateNames(raw)));
  }

  /** A `//` header whose table loads gives what the next call on the loaded handle gives. */
  lemma {:induction false} NextAtTable(h: Handle, cap: nat, hdr: seq<Byte>, f: File, h': Handle)
    requires cap > 0
    requires |hdr| == HEADER_SIZE && ReadsHeader(h, hdr, f)
    requires HasEndMagic(hdr) && IsTableHeader(hdr) && LoadTable(h, hdr, f) == Ok(h')
    ensures Next(h, cap) == Next(h', cap)
  {
  }

  /**
   * The first `//` table is consumed without being returned: the call gives
   * what the next call would give on the handle that holds the table, with
   * its '\n's turned into NULs, and stands just after the table bytes.
   */
  lemma {:induction false} TableIsTransparent(h: Handle, cap: nat, hdr: seq<Byte>, f: File, raw: seq<Byte>, more: seq<Byte>)
    requires cap > 0 && h.extfn.None?
    requires |hdr| == HEADER_SIZE && ReadsHeader(h, hdr, f)
    requires HasEndMagic(hdr) && IsTableHeader(hdr) && TableSize(hdr) == |raw|
    requires f.Open? && f.pos <= |f.data| && f.data[f.pos..] == raw + more
    ensures Next(h, cap) == Next(h.(file := Open(f.data, f.pos + |raw|), skip := 0, extfn := Some(NulTerminateNames(raw))), cap)
  {
    var h' := LoadTableOf(h, hdr, f, raw, more);
    NextAtTable(h, cap, hdr, f, h');
  }

  /** A second `//` table ends the walk, and so does a table cut short. */
  lemma {:induction false} TableEnds(h: Handle, cap: nat, hdr: seq<Byte>, f: File)
    requires cap > 0
    requires |hdr| == HEADER_SIZE && ReadsHeader(h, hdr, f)
    requires HasEndMagic(hdr) && IsTableHeader(hdr)
    ensures h.extfn.Some? ==> Next(h, cap) == (End(DuplicateTable), Close(h))
    ensures h.extfn.None? && f.Open? && TableSize(hdr) > 0 && f.pos + TableSize(hdr) > |f.data|
      ==> Next(h, cap) == (End(ShortTable), Close(h))
  {
    if h.extfn.None? && f.Open? && TableSize(hdr) > 0 && f.pos + TableSize(hdr) > |f.data| {
      assert LoadTable(h, hdr, f) == Stop(ShortTable);
    }
  }

  /** The GNU table of the two names "alpha.o" and "beta.o", as loaded: each name ends in a NUL. */
  lemma {:induction false} TableExampleLoads()
    ensures NulTerminateNames("alpha.o\nbeta.o\n") == "alpha.o\0beta.o\0"
  {
    var raw: seq<Byte> := "alpha.o\nbeta.o\n";
    var t: seq<Byte> := "alpha.o\0beta.o\0";
    assert forall i :: 0 <= i < |t| ==> NulTerminateNames(raw)[i] == t[i];
  }

  /** In the loaded table, "alpha.o" is the string at offset 0 and "beta.o" the one at offset 8. */
  lemma {:induction false} TableExample(t: seq<Byte>)
    requires t == NulTerminateNames("alpha.o\nbeta.o\n")
    ensures CString(t[0..]) == "alpha.o"
    ensures CString(t[8..]) == "beta.o"
  {
    TableExampleLoads();
    var a: CStr, b: CStr := "alpha.o", "beta.o";
    assert t[0..] == a + [NUL] + (b + [NUL]);
    CStringOfTerminated(a, b + [NUL]);
    assert t[8..] == b + [NUL] + [];
    CStringOfTerminated(b, []);
  }

  /** Looking names up in that table: offset 8 is "beta.o", offset 100 is past its end. */
  lemma {:induction false} TableExampleLookups(t: seq<Byte>, f: File)
    requires t == NulTerminateNames("alpha.o\nbeta.o\n")
    ensures ResolveName(Some(t), GnuNameField(8), f) == Ok(Resolved("beta.o", 0, f))
    ensures Fits(100, NAME_LEN - 1, 10) && ResolveName(Some(t), GnuNameField(100), f) == Stop(BadOffset)
  {
    TableExampleLoads();
    TableExample(t);
    assert NatToDigits(8, 10) == "8";
    GnuNameResolves(Some(t), 8, f);
    HundredFits();
    GnuNameResolves(Some(t), 100, f);
  }

  lemma {:induction false} HundredFits()
    ensures Fits(100, NAME_LEN - 1, 10)
  {
    assert NatToDigits(1, 10) == "1";
    assert NatToDigits(10, 10) == "10";
    assert NatToDigits(100, 10) == "100";
  }

  // ---------------------------------------------------------------------
  // Long names
  // ---------------------------------------------------------------------

  /** The BSD field reads back as "#1/" and the length it was written with. */
  lemma {:induction false} BsdNameFieldDecodes(len: nat)
    requires Fits(len, NAME_LEN - 3, 10)
    ensures var field := BsdNameField(len);
      field[0] == '#' && field[1] == '1' && field[2] == '/' && ReadAsciiNumber(field[3..], 10) == len
  {
    var field := BsdNameField(len);
    assert field[3..] == FormatField(len, NAME_LEN - 3, 10);
    FormatFieldRoundTrip(len, NAME_LEN - 3, 10);
  }

  /**
   * A BSD `#1/L` field takes the L bytes after the header as the name: they
   * are consumed, and a NUL among them ends the name (a name longer than the
   * field always ends with its L bytes).
   */
  lemma {:induction false} BsdNameResolves(extfn: Option<seq<Byte>>, nm: seq<Byte>, f: File, more: seq<Byte>)
    requires Fits(|nm|, NAME_LEN - 3, 10)
    requires f.Open? && f.pos <= |f.data| && f.data[f.pos..] == nm + more
    ensures var r := ResolveName(extfn, BsdNameField(|nm|), f);
      r.Ok? && r.value.inline == |nm| && r.value.rest == Open(f.data, f.pos + |nm|)
    ensures var r := ResolveName(extfn, BsdNameField(|nm|), f);
      (NUL in nm || |nm| > NAME_LEN) ==> r.value.name == CString(nm)
  {
    var field := BsdNameField(|nm|);
    BsdNameFieldDecodes(|nm|);
    ReadNext(f, nm, more);
    var s := if |nm| <= NAME_LEN then nm + field[|nm|..] else nm;
    assert ResolveName(extfn, field, f) == Ok(Resolved(CString(s), |nm|, Open(f.data, f.pos + |nm|)));
    if NUL in nm && |nm| <= NAME_LEN {
      CStringOfPrefix(nm, field[|nm|..]);
    }
  }

  /** A BSD name whose bytes run past the end of the archive ends the walk. */
  lemma {:induction false} BsdNameCutShort(h: Handle, hdr: seq<Byte>, f: File, cap: nat, len: nat)
    requires cap > 0 && Fits(len, NAME_LEN - 3, 10)
    requires |hdr| == HEADER_SIZE && hdr[..NAME_LEN] == BsdNameField(len)
    requires f.Open? && len > 0 && f.pos + len > |f.data|
    ensures MemberOf(h, hdr, f, cap) == (End(ShortLongName), Close(h))
  {
    BsdNameFieldDecodes(len);
    assert ResolveName(h.extfn, hdr[..NAME_LEN], f) == Stop(ShortLongName);
  }

  /**
   * A BSD member whose L name bytes hold `text` and a NUL: the display name
   * is built from `text`, and the L bytes count against the payload, so the
   * skip is `size - L` and the next header is sought `size` bytes after this one.
   */
  lemma {:induction false} BsdMember(h: Handle, hdr: seq<Byte>, f: File, cap: nat, text: CStr, tail: seq<Byte>, more: seq<Byte>)
    requires cap > 0
    requires Fits(|text| + 1 + |tail|, NAME_LEN - 3, 10)
    requires |hdr| == HEADER_SIZE && hdr[..NAME_LEN] == BsdNameField(|text| + 1 + |tail|)
    requires f.Open? && f.pos <= |f.data| && f.data[f.pos..] == text + [NUL] + tail + more
    ensures var r := MemberOf(h, hdr, f, cap);
      && r.0 == Yield(DecodeMember(DisplayName(h.filename, text, cap), hdr))
      && r.1.file == Open(f.data, f.pos + |text| + 1 + |tail|)
      && r.1.skip == r.0.member.size - (|text| + 1 + |tail|)
  {
    var nm := text + [NUL] + tail;
    assert f.data[f.pos..] == nm + more;
    assert nm[|text|] == NUL;
    BsdNameResolves(h.extfn, nm, f, more);
    CStringOfTerminated(text, tail);
  }

  /** The GNU field reads back as '/', a digit, and the offset it was written with. */
  lemma {:induction false} GnuNameFieldDecodes(off: nat)
    requires Fits(off, NAME_LEN - 1, 10)
    ensures var field := GnuNameField(off);
      field[0] == '/' && '0' <= field[1] <= '9' && ReadAsciiNumber(field[1..], 10) == off
  {
    var field := GnuNameField(off);
    var ds := NatToDigits(off, 10);
    assert field[1..] == FormatField(off, NAME_LEN - 1, 10);
    assert field[1] == ds[0] && IsDigit(ds[0], 10);
    FormatFieldRoundTrip(off, NAME_LEN - 1, 10);
  }

  /**
   * A GNU `/O` field names the C string at offset O of the loaded table; it
   * ends the walk when no table was loaded or O is past the table.
   */
  lemma {:induction false} GnuNameResolves(extfn: Option<seq<Byte>>, off: nat, f: File)
    requires Fits(off, NAME_LEN - 1, 10)
    ensures extfn.None? ==> ResolveName(extfn, GnuNameField(off), f) == Stop(MissingTable)
    ensures extfn.Some? && off >= |extfn.value| ==> ResolveName(extfn, GnuNameField(off), f) == Stop(BadOffset)
    ensures extfn.Some? && off < |extfn.value|
      ==> ResolveName(extfn, GnuNameField(off), f) == Ok(Resolved(CString(extfn.value[off..]), 0, f))
  {
    GnuNameFieldDecodes(off);
  }

  /** A GNU member: the display name comes from the table and the whole payload is skipped. */
  lemma {:induction false} GnuMember(h: Handle, hdr: seq<Byte>, f: File, cap: nat, off: nat)
    requires cap > 0 && Fits(off, NAME_LEN - 1, 10)
    requires |hdr| == HEADER_SIZE && hdr[..NAME_LEN] == GnuNameField(off)
    ensures h.extfn.None? ==> MemberOf(h, hdr, f, cap) == (End(MissingTable), Close(h))
    ensures h.extfn.Some? && off >= |h.extfn.value| ==> MemberOf(h, hdr, f, cap) == (End(BadOffset), Close(h))
    ensures h.extfn.Some? && off < |h.extfn.value| ==>
      var r := MemberOf(h, hdr, f, cap);
      && r.0 == Yield(DecodeMember(DisplayName(h.filename, CString(h.extfn.value[off..]), cap), hdr))
      && r.1 == h.(file := f, skip := r.0.member.size)
  {
    GnuNameResolves(h.extfn, off, f);
  }

  // ---------------------------------------------------------------------
  // Display names
  // ---------------------------------------------------------------------

  /** The archive's own name is never cut, even when it holds a '/'. */
  lemma {:induction false} DisplayNameKeepsArchiveName(filename: CStr, name: CStr, cap: nat)
    requires |filename| < cap
    ensures filename <= DisplayName(filename, name, cap)
  {
    var r := DisplayName(filename, name, cap);
    var full := filename + [':'] + name;
    assert |filename| <= |r|;
    assert r[..|filename|] == full[..|filename|] == filename;
  }

  // ---------------------------------------------------------------------
  // A whole archive with a name table
  // ---------------------------------------------------------------------

  /** The written `//` header: a table header with its end magic and the table's length. */
  lemma {:induction false} TableHeaderParts(tf: Fields) returns (hdr: seq<Byte>)
    requires Writable(tf)
    ensures hdr == TableHeader(tf)
    ensures |hdr| == HEADER_SIZE && IsTableHeader(hdr) && HasEndMagic(hdr) && TableSize(hdr) == tf.size
  {
    hdr := TableHeader(tf);
    HeaderDecodes(TableNameField(), tf, []);
    assert hdr[..NAME_LEN] == TableNameField();
    assert hdr[0] == '/' && hdr[1] == '/';
  }

  lemma {:induction false} Regroup(m: seq<Byte>, hdr: seq<Byte>, raw: seq<Byte>, p: seq<Byte>, e: seq<Byte>)
    ensures m + [LF] + hdr + raw + p + e == m + ([LF] + hdr + (raw + (p + e)))
  {
  }

  /** The parts of `magic`, a pad, a header, a table and the rest, found by position. */
  lemma {:induction false} SplitAfterTable(d: seq<Byte>, magic: seq<Byte>, hdr: seq<Byte>, raw: seq<Byte>, tail: seq<Byte>)
    requires d == magic + ([LF] + hdr + (raw + tail))
    ensures |magic| <= |d| && d[..|magic|] == magic && d[|magic|..] == [LF] + hdr + (raw + tail)
    ensures |magic| + 1 + |hdr| + |raw| <= |d| && d[|magic| + 1 + |hdr| + |raw|..] == tail
  {
    assert d == (magic + [LF] + hdr + raw) + tail;
  }

  /**
   * Walking a written archive that starts with a `//` name table: the first
   * call loads the table and behaves as a call on the loaded handle, which
   * then gives back every member in order and ends at the archive's end.
   */
  lemma {:induction false} WalkRoundTripWithTable(filename: CStr, verbose: bool, tf: Fields, raw: seq<Byte>, es: seq<Entry>, cap: nat)
      returns (hs: seq<Handle>)
    requires cap > 0 && Writable(tf) && tf.size == |raw|
    requires AllWellFormed(es, filename, cap)
    ensures ArOpen(filename, EncodeArchiveWithTable(tf, raw, es), verbose).Some?
    ensures |hs| == |es| + 1 && hs[0].extfn == Some(NulTerminateNames(raw))
    ensures Next(ArOpen(filename, EncodeArchiveWithTable(tf, raw, es), verbose).value, cap) == Next(hs[0], cap)
    ensures forall i :: 0 <= i < |es| ==> Next(hs[i], cap) == (Yield(Expected(filename, es[i])), hs[i + 1])
    ensures Next(hs[|es|], cap).0 == End(ShortHeader)
  {
    var d := EncodeArchiveWithTable(tf, raw, es);
    var hdr := TableHeaderParts(tf);
    var more := Pad(|raw|) + EncodeEntries(es);
    Regroup(AR_MAGIC, hdr, raw, Pad(|raw|), EncodeEntries(es));
    SplitAfterTable(d, AR_MAGIC, hdr, raw, more);
    var h := ArOpen(filename, d, verbose).value;
    var n := |AR_MAGIC|;
    ReadHeaderAfterPad(d, n, [LF], hdr, raw + more);
    assert SkipTarget(h) == Some(Open(d, n));
    var f := Open(d, n + 1 + HEADER_SIZE);
    assert f.data[f.pos..] == raw + more by {
      SuffixSplit(d, n, [LF] + hdr, raw + more);
    }
    TableIsTransparent(h, cap, hdr, f, raw, more);
    var h1 := h.(file := Open(d, f.pos + |raw|), skip := 0, extfn := Some(NulTerminateNames(raw)));
    hs := WalkFrom(h1, cap, es, Pad(|raw|));
  }
}
