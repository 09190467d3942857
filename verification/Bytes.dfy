/**
 * Bytes, C strings, message size limits and error codes shared by every component.
 */
module Bytes {

  type byte = b: int | 0 <= b < 256

  /** Longest key or value in a message, without its terminator (config.h). */
  const MAX_MSG_ELEM_SIZE: nat := 32753

  /** Longest message (config.h). */
  const MAX_MSG_SIZE: nat := MAX_MSG_ELEM_SIZE * 2 + 1

  datatype Option<+T> = None | Some(value: T)

  datatype ErrorCode = ErrNone | ErrBadParameter | ErrNetwork | ErrNotFound

  predicate NulFree(s: seq<byte>) {
    0 !in s
  }

  /** The bytes of a C string, without the terminator. */
  type CStr = s: seq<byte> | NulFree(s) witness []

  /** The C string that starts at the beginning of `buffer`. */
  function CString(buffer: seq<byte>): (s: CStr)
    ensures s <= buffer
    ensures |s| < |buffer| ==> buffer[|s|] == 0
  {
    if buffer == [] || buffer[0] == 0 then []
    else
      var rest := CString(buffer[1..]);
      assert buffer == [buffer[0]] + buffer[1..];
      [buffer[0]] + rest
  }

  /** A NUL-free prefix that ends the buffer or is followed by NUL is the buffer's C string. */
  lemma {:induction false} CStringIs(buffer: seq<byte>, s: CStr)
    requires s <= buffer
    requires |s| < |buffer| ==> buffer[|s|] == 0
    ensures CString(buffer) == s
  {
    if s != [] {
      assert buffer[0] == s[0] && buffer[0] != 0;
      CStringIs(buffer[1..], s[1..]);
      assert s == [s[0]] + s[1..];
    }
  }

  /** The sign of strcmp: lexicographic on unsigned bytes. */
  function StrCmp(a: seq<byte>, b: seq<byte>): (sign: int)
    ensures -1 <= sign <= 1
  {
    if a == [] then (if b == [] then 0 else -1)
    else if b == [] then 1
    else if a[0] < b[0] then -1
    else if a[0] > b[0] then 1
    else StrCmp(a[1..], b[1..])
  }

  lemma {:induction false} StrCmpZero(a: seq<byte>, b: seq<byte>)
    ensures StrCmp(a, b) == 0 <==> a == b
  {
    if a != [] && b != [] && a[0] == b[0] {
      StrCmpZero(a[1..], b[1..]);
      assert a == [a[0]] + a[1..] && b == [b[0]] + b[1..];
    }
  }

  lemma {:induction false} StrCmpAntisymmetric(a: seq<byte>, b: seq<byte>)
    ensures StrCmp(a, b) == -StrCmp(b, a)
  {
    if a != [] && b != [] && a[0] == b[0] {
      StrCmpAntisymmetric(a[1..], b[1..]);
    }
  }

  lemma {:induction false} StrCmpTransitive(a: seq<byte>, b: seq<byte>, c: seq<byte>)
    requires StrCmp(a, b) <= 0 && StrCmp(b, c) <= 0
    ensures StrCmp(a, c) <= 0
    ensures StrCmp(a, c) == 0 ==> StrCmp(a, b) == 0 && StrCmp(b, c) == 0
  {
    if a != [] && b != [] && c != [] && a[0] == b[0] == c[0] {
      StrCmpTransitive(a[1..], b[1..], c[1..]);
    }
  }

  /** `a` is a proper prefix of `b`, or has the smaller byte where they first differ. */
  ghost predicate Precedes(a: seq<byte>, b: seq<byte>) {
    || a < b
    || exists i :: 0 <= i < |a| && i < |b| && a[..i] == b[..i] && a[i] < b[i]
  }

  lemma PrecedesTail(a: seq<byte>, b: seq<byte>)
    requires a != [] && b != [] && a[0] == b[0]
    ensures Precedes(a, b) <==> Precedes(a[1..], b[1..])
  {
    var a', b' := a[1..], b[1..];
    assert a == [a[0]] + a' && b == [b[0]] + b';
    if i :| 0 <= i < |a'| && i < |b'| && a'[..i] == b'[..i] && a'[i] < b'[i] {
      assert a[..i + 1] == [a[0]] + a'[..i] == b[..i + 1];
      assert a[i + 1] < b[i + 1];
    }
    if i :| 0 <= i < |a| && i < |b| && a[..i] == b[..i] && a[i] < b[i] {
      assert a'[..i - 1] == a[..i][1..] == b[..i][1..] == b'[..i - 1];
      assert a'[i - 1] < b'[i - 1];
    }
    assert a < b <==> a' < b';
  }

  /** strcmp is the lexicographic order of unsigned bytes. */
  lemma {:induction false} StrCmpLexicographic(a: seq<byte>, b: seq<byte>)
    ensures StrCmp(a, b) < 0 <==> Precedes(a, b)
    ensures StrCmp(a, b) > 0 <==> Precedes(b, a)
  {
    if a != [] && b != [] {
      if a[0] == b[0] {
        StrCmpLexicographic(a[1..], b[1..]);
        PrecedesTail(a, b);
        PrecedesTail(b, a);
      } else {
        assert a[..0] == b[..0];
      }
    }
  }
}
