/** Octets, C strings and the Option type shared by the ar model. */
module Bytes {

  /** One octet of a C `char` buffer. */
  type Byte = c: char | c <= '\U{FF}'

  const NUL: Byte := '\0'
  const LF: Byte := '\n'
  const SPACE: Byte := ' '
  const SLASH: Byte := '/'

  /** A C string: a byte sequence without an embedded NUL terminator. */
  type CStr = s: seq<Byte> | NUL !in s

  datatype Option<+T> = None | Some(value: T)

  /** Index of the first NUL in `s`, or `|s|` when there is none. */
  function NulIndex(s: seq<Byte>): (k: nat)
    ensures k <= |s|
    ensures forall i :: 0 <= i < k ==> s[i] != NUL
    ensures k < |s| ==> s[k] == NUL
  {
    if |s| == 0 || s[0] == NUL then 0 else 1 + NulIndex(s[1..])
  }

  /** The C string stored at the start of `s`: the longest NUL-free prefix. */
  function CString(s: seq<Byte>): (r: CStr)
    ensures r <= s
    ensures |r| == |s| || s[|r|] == NUL
  {
    s[..NulIndex(s)]
  }

  /** A C string read from a buffer that holds no NUL is the whole buffer. */
  lemma {:induction false} CStringOfNulFree(s: seq<Byte>)
    requires NUL !in s
    ensures CString(s) == s
  {
  }

  /** Once a buffer holds a NUL, the bytes after the buffer do not change its C string. */
  lemma {:induction false} CStringOfPrefix(s: seq<Byte>, more: seq<Byte>)
    requires NUL in s
    ensures NulIndex(s + more) == NulIndex(s)
    ensures CString(s + more) == CString(s)
  {
    if s[0] != NUL {
      assert (s + more)[1..] == s[1..] + more;
      CStringOfPrefix(s[1..], more);
    }
  }

  /** A C string followed by a NUL and anything else reads back as itself. */
  lemma {:induction false} CStringOfTerminated(text: seq<Byte>, tail: seq<Byte>)
    requires NUL !in text
    ensures CString(text + [NUL] + tail) == text
  {
    var s := text + [NUL] + tail;
    assert s[|text|] == NUL;
    assert forall i :: 0 <= i < |text| ==> s[i] == text[i];
  }
}
