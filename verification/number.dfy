/**
 * The fixed-width ASCII integer fields of an ar member header: the decoder
 * `ar_read_ascii_number` (a bounded copy, `strtoll` and a terminator check)
 * and, as its partner, the left-justified space-padded encoding an archiver
 * writes.
 */
module AsciiNumber {
  import opened Bytes

  /** The widest header field handed to the decoder (its scratch buffer is 17 bytes). */
  const MAX_FIELD: nat := 16

  predicate IsBase(base: nat) { base == 8 || base == 10 }

  function Pow(base: nat, n: nat): (p: nat)
    ensures p >= 1 || base == 0
  {
    if n == 0 then 1 else base * Pow(base, n - 1)
  }

  lemma {:induction false} PowMonotone(base: nat, m: nat, n: nat)
    requires base >= 1
    requires m <= n
    ensures Pow(base, m) <= Pow(base, n)
    decreases n
  {
    if m < n {
      PowMonotone(base, m, n - 1);
    }
  }

  /** `isspace` in the C locale. */
  predicate IsCSpace(c: Byte) {
    c == ' ' || c == '\t' || c == '\n' || c == '\U{B}' || c == '\U{C}' || c == '\r'
  }

  /** A digit of `base` (8 or 10); `strtoll` accepts no letters below base 11. */
  predicate IsDigit(c: Byte, base: nat) {
    '0' <= c && (c as int) < ('0' as int) + base
  }

  function DigitValue(c: Byte): nat
    requires '0' <= c
  {
    c as int - '0' as int
  }

  function DigitChar(d: nat): (c: Byte)
    requires d < 10
    ensures IsDigit(c, d + 1) && DigitValue(c) == d
  {
    ('0' as int + d) as char
  }

  predicate AllDigits(ds: seq<Byte>, base: nat) {
    forall i :: 0 <= i < |ds| ==> IsDigit(ds[i], base)
  }

  /** The value of a digit string, most significant digit first. */
  function DigitsValue(ds: seq<Byte>, base: nat): (v: nat)
    requires IsBase(base)
    requires AllDigits(ds, base)
    ensures v < Pow(base, |ds|)
  {
    if |ds| == 0 then 0
    else
      var high := DigitsValue(ds[..|ds| - 1], base);
      assert high <= Pow(base, |ds| - 1) - 1;
      assert DigitValue(ds[|ds| - 1]) <= base - 1;
      high * base + DigitValue(ds[|ds| - 1])
  }

  /** The two byte classes `strtoll` skips over: white space and digits of a base. */
  datatype Class = Space | Digit(base: nat)

  predicate In(c: Byte, cls: Class) {
    match cls
    case Space => IsCSpace(c)
    case Digit(base) => IsDigit(c, base)
  }

  /** Length of the run of bytes of `s` from `i` on that belong to `p`. */
  function Span(s: seq<Byte>, i: nat, p: Class): (n: nat)
    requires i <= |s|
    ensures i + n <= |s|
    ensures forall k :: i <= k < i + n ==> In(s[k], p)
    ensures i + n == |s| || !In(s[i + n], p)
    decreases |s| - i
  {
    if i == |s| || !In(s[i], p) then 0 else 1 + Span(s, i + 1, p)
  }

  /**
   * Where `strtoll` finds its digits: after the leading white space and an
   * optional sign, `count` digits start at `start`.
   */
  datatype Lexeme = Lexeme(negative: bool, start: nat, count: nat)

  function Lex(s: seq<Byte>, base: nat): (l: Lexeme)
    requires IsBase(base)
    ensures l.start + l.count <= |s|
    ensures AllDigits(s[l.start..l.start + l.count], base)
    ensures l.start + l.count == |s| || !IsDigit(s[l.start + l.count], base)
  {
    var i := Span(s, 0, Space);
    var sign := i < |s| && (s[i] == '+' || s[i] == '-');
    var j := if sign then i + 1 else i;
    var n := Span(s, j, Digit(base));
    var ds := s[j..j + n];
    assert forall t :: 0 <= t < |ds| ==> ds[t] == s[j + t];
    assert AllDigits(ds, base);
    Lexeme(sign && s[i] == '-', j, n)
  }

  /** What `strtoll` returns and where it leaves `endp` (an index into `s`). */
  datatype Conversion = Conversion(value: int, end: nat)

  /**
   * `strtoll(s, &endp, base)` for base 8 or 10 in the C locale: leading white
   * space, an optional sign, then the longest run of digits. With no digits
   * nothing is consumed: the value is 0 and `endp` is the start of `s`.
   * The ERANGE clamp is not modelled; it needs more digits than a header
   * field holds.
   */
  function StrToLL(s: seq<Byte>, base: nat): (r: Conversion)
    requires IsBase(base)
    ensures r.end <= |s|
    ensures r.end == |s| ==> |s| == 0 || IsDigit(s[|s| - 1], base)
    ensures -(Pow(base, r.end) as int) < r.value < Pow(base, r.end)
  {
    var l := Lex(s, base);
    if l.count == 0 then Conversion(0, 0)
    else
      var v := DigitsValue(s[l.start..l.start + l.count], base);
      PowMonotone(base, l.count, l.start + l.count);
      Conversion(if l.negative then -(v as int) else v, l.start + l.count)
  }

  /**
   * `ar_read_ascii_number`: copy at most 16 bytes, NUL-terminate them,
   * convert, and yield 0 when the byte after the digits is neither NUL nor a
   * space, or when the converted value is negative.
   */
  function ReadAsciiNumber(field: seq<Byte>, base: nat): (r: nat)
    requires |field| <= MAX_FIELD
    requires IsBase(base)
    ensures r < Pow(base, |field|)
  {
    var buf := field + [NUL];
    var c := StrToLL(buf, base);
    var v := if buf[c.end] != NUL && buf[c.end] != ' ' then 0 else c.value;
    PowMonotone(base, c.end, |field|);
    if v < 0 then 0 else v
  }

  /** The first byte after the white space and the sign: a digit, or what follows the digits. */
  lemma {:induction false} FirstAfterSpaces(sign: seq<Byte>, ds: seq<Byte>, post: seq<Byte>, base: nat)
    requires IsBase(base)
    requires sign == [] || sign == ['+'] || sign == ['-']
    requires AllDigits(ds, base)
    requires sign == [] && ds == [] ==> post == [] || !(IsCSpace(post[0]) || post[0] == '+' || post[0] == '-')
    ensures var rest := sign + ds + post; rest == [] || !IsCSpace(rest[0])
    ensures sign == [] ==> var rest := ds + post; rest == [] || !(rest[0] == '+' || rest[0] == '-')
  {
    if sign != [] {
      assert (sign + ds + post)[0] == sign[0];
    } else if ds != [] {
      assert IsDigit(ds[0], base);
      assert (sign + ds + post)[0] == ds[0];
    } else {
      assert sign + ds + post == post;
    }
  }

  /** The decoder once `strtoll` has given its value and end. */
  lemma {:induction false} ReadOfConversion(field: seq<Byte>, base: nat, value: int, end: nat)
    requires |field| <= MAX_FIELD && IsBase(base)
    requires StrToLL(field + [NUL], base) == Conversion(value, end)
    ensures end <= |field|
    ensures ReadAsciiNumber(field, base)
         == if ((field + [NUL])[end] == NUL || (field + [NUL])[end] == ' ') && value >= 0 then value else 0
  {
  }

  /** The lexer on white space, an optional sign, a maximal digit run and what follows. */
  lemma {:induction false} LexOfDigits(ws: seq<Byte>, sign: seq<Byte>, ds: seq<Byte>, post: seq<Byte>, base: nat)
    requires IsBase(base)
    requires forall i :: 0 <= i < |ws| ==> IsCSpace(ws[i])
    requires sign == [] || sign == ['+'] || sign == ['-']
    requires AllDigits(ds, base)
    requires post == [] || !IsDigit(post[0], base)
    requires sign == [] && ds == [] ==> post == [] || !(IsCSpace(post[0]) || post[0] == '+' || post[0] == '-')
    ensures Lex(ws + sign + ds + post, base) == Lexeme(sign == ['-'], |ws| + |sign|, |ds|)
  {
    var s := ws + sign + ds + post;
    var rest := sign + ds + post;
    assert Span(s, 0, Space) == |ws| by {
      FirstAfterSpaces(sign, ds, post, base);
      assert s == [] + ws + rest;
      SpanOfPrefix([], ws, rest, Space);
    }
    assert Span(s, |ws| + |sign|, Digit(base)) == |ds| by {
      assert s == (ws + sign) + ds + post;
      SpanOfPrefix(ws + sign, ds, post, Digit(base));
    }
    assert |ws| < |s| ==> s[|ws|] == rest[0];
    assert sign == [] ==> rest == [] || !(rest[0] == '+' || rest[0] == '-') by {
      FirstAfterSpaces(sign, ds, post, base);
    }
  }

  /** `strtoll` on white space, an optional sign, a maximal digit run and what follows. */
  lemma {:induction false} StrToLLOfDigits(ws: seq<Byte>, sign: seq<Byte>, ds: seq<Byte>, post: seq<Byte>, base: nat)
    requires IsBase(base)
    requires forall i :: 0 <= i < |ws| ==> IsCSpace(ws[i])
    requires sign == [] || sign == ['+'] || sign == ['-']
    requires |ds| > 0 && AllDigits(ds, base)
    requires post == [] || !IsDigit(post[0], base)
    ensures StrToLL(ws + sign + ds + post, base)
         == Conversion(if sign == ['-'] then -(DigitsValue(ds, base) as int) else DigitsValue(ds, base), |ws| + |sign| + |ds|)
  {
    var s := ws + sign + ds + post;
    LexOfDigits(ws, sign, ds, post, base);
    assert s[|ws| + |sign|..|ws| + |sign| + |ds|] == ds by {
      assert s == (ws + sign) + ds + post;
    }
  }

  /**
   * The decoder on every field whose digits are present: `ws` is the
   * leading white space, `sign` the optional sign, `ds` the longest digit
   * run and `rest` what follows it. The value is kept only when `rest` starts
   * with a space or ends the field and the sign is not a minus.
   */
  lemma {:induction false} ReadAsciiNumberOfDigits(ws: seq<Byte>, sign: seq<Byte>, ds: seq<Byte>, rest: seq<Byte>, base: nat)
    requires IsBase(base)
    requires |ws + sign + ds + rest| <= MAX_FIELD
    requires forall i :: 0 <= i < |ws| ==> IsCSpace(ws[i])
    requires sign == [] || sign == ['+'] || sign == ['-']
    requires |ds| > 0 && AllDigits(ds, base)
    requires rest == [] || !IsDigit(rest[0], base)
    ensures ReadAsciiNumber(ws + sign + ds + rest, base)
         == if (rest == [] || rest[0] == NUL || rest[0] == ' ') && sign != ['-'] then DigitsValue(ds, base) else 0
  {
    var field := ws + sign + ds + rest;
    var k := |ws| + |sign| + |ds|;
    var v := DigitsValue(ds, base);
    assert field + [NUL] == ws + sign + ds + (rest + [NUL]);
    StrToLLOfDigits(ws, sign, ds, rest + [NUL], base);
    assert (field + [NUL])[k] == (rest + [NUL])[0];
    ReadOfConversion(field, base, if sign == ['-'] then -(v as int) else v, k);
  }

  /**
   * The decoder on every field without digits after the white space and
   * sign: it yields 0.
   */
  lemma {:induction false} ReadAsciiNumberOfNoDigits(ws: seq<Byte>, sign: seq<Byte>, rest: seq<Byte>, base: nat)
    requires IsBase(base)
    requires |ws + sign + rest| <= MAX_FIELD
    requires forall i :: 0 <= i < |ws| ==> IsCSpace(ws[i])
    requires sign == [] || sign == ['+'] || sign == ['-']
    requires rest == [] || !IsDigit(rest[0], base)
    requires sign == [] ==> rest == [] || !(IsCSpace(rest[0]) || rest[0] == '+' || rest[0] == '-')
    ensures ReadAsciiNumber(ws + sign + rest, base) == 0
  {
    assert ws + sign + rest + [NUL] == ws + sign + [] + (rest + [NUL]);
    LexOfDigits(ws, sign, [], rest + [NUL], base);
  }

  /** The span over `pre + run + post` from `|pre|` is `|run|` when `run` is maximal. */
  lemma {:induction false} SpanOfPrefix(pre: seq<Byte>, run: seq<Byte>, post: seq<Byte>, p: Class)
    requires forall k :: 0 <= k < |run| ==> In(run[k], p)
    requires post == [] || !In(post[0], p)
    ensures Span(pre + run + post, |pre|, p) == |run|
    decreases |run|
  {
    var s := pre + run + post;
    if |run| == 0 {
      assert post == [] || s[|pre|] == post[0];
    } else {
      assert s[|pre|] == run[0] && In(run[0], p);
      assert s == (pre + [run[0]]) + run[1..] + post;
      assert forall k :: 0 <= k < |run[1..]| ==> run[1..][k] == run[k + 1];
      SpanOfPrefix(pre + [run[0]], run[1..], post, p);
    }
  }

  /** The digits of `n` in `base`, most significant first, without leading zeros. */
  function NatToDigits(n: nat, base: nat): (ds: seq<Byte>)
    requires IsBase(base)
    ensures |ds| > 0 && AllDigits(ds, base)
  {
    if n < base then [DigitChar(n)]
    else NatToDigits(n / base, base) + [DigitChar(n % base)]
  }

  lemma {:induction false} NatToDigitsValue(n: nat, base: nat)
    requires IsBase(base)
    ensures DigitsValue(NatToDigits(n, base), base) == n
  {
    if n >= base {
      var high := NatToDigits(n / base, base);
      var ds := high + [DigitChar(n % base)];
      assert ds[..|ds| - 1] == high;
      NatToDigitsValue(n / base, base);
    }
  }

  function Spaces(n: nat): (s: seq<Byte>)
    ensures |s| == n && forall i :: 0 <= i < n ==> s[i] == ' '
  {
    seq(n, i => ' ')
  }

  /** Whether `n` can be written in a field of `width` digits. */
  predicate Fits(n: nat, width: nat, base: nat)
    requires IsBase(base)
  {
    |NatToDigits(n, base)| <= width
  }

  /** How an archiver writes a header number: digits, then space padding. */
  function FormatField(n: nat, width: nat, base: nat): (f: seq<Byte>)
    requires IsBase(base)
    requires Fits(n, width, base)
    ensures |f| == width
  {
    var ds := NatToDigits(n, base);
    ds + Spaces(width - |ds|)
  }

  /** Decoding a written field gives back the number that was written. */
  lemma {:induction false} FormatFieldRoundTrip(n: nat, width: nat, base: nat)
    requires IsBase(base)
    requires width <= MAX_FIELD
    requires Fits(n, width, base)
    ensures ReadAsciiNumber(FormatField(n, width, base), base) == n
  {
    var ds := NatToDigits(n, base);
    var pad := Spaces(width - |ds|);
    assert FormatField(n, width, base) == [] + [] + ds + pad;
    ReadAsciiNumberOfDigits([], [], ds, pad, base);
    NatToDigitsValue(n, base);
  }
}
