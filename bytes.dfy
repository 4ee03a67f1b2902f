/** Bytes, the two line-terminator bytes, and well-formed UTF-8 (section 4 of RFC 3629),
    which is what `String::from_utf8` and `BufRead::read_line` accept. */
module Bytes {

  type byte = x: int | 0 <= x < 256

  const LF: byte := 0x0A
  const CR: byte := 0x0D
  const DOT: byte := 0x2E
  const SLASH: byte := 0x2F

  predicate IsAscii(b: byte) { b < 0x80 }

  /** UTF8-tail = %x80-BF */
  predicate IsTail(b: byte) { 0x80 <= b <= 0xBF }

  predicate InRange(b: byte, lo: byte, hi: byte) { lo <= b <= hi }

  /** The number of bytes of the well-formed character that starts `s`, or 0 when `s`
      does not start with one (a stray tail byte, C0, C1, F5-FF, an overlong form, a
      surrogate, a code point above U+10FFFF, or a truncated sequence). */
  function CharWidth(s: seq<byte>): (n: nat)
    requires s != []
    ensures n <= 4 && n <= |s|
    ensures n == 1 <==> IsAscii(s[0])
  {
    var b := s[0];
    if b < 0x80 then 1
    else if 0xC2 <= b <= 0xDF then
      (if |s| >= 2 && IsTail(s[1]) then 2 else 0)
    else if 0xE0 <= b <= 0xEF then
      var lo := if b == 0xE0 then 0xA0 else 0x80;
      var hi := if b == 0xED then 0x9F else 0xBF;
      (if |s| >= 3 && InRange(s[1], lo, hi) && IsTail(s[2]) then 3 else 0)
    else if 0xF0 <= b <= 0xF4 then
      var lo := if b == 0xF0 then 0x90 else 0x80;
      var hi := if b == 0xF4 then 0x8F else 0xBF;
      (if |s| >= 4 && InRange(s[1], lo, hi) && IsTail(s[2]) && IsTail(s[3]) then 4 else 0)
    else 0
  }

  /** `s` is a concatenation of well-formed UTF-8 characters. */
  predicate ValidUtf8(s: seq<byte>)
    decreases |s|
  {
    s == [] || (CharWidth(s) > 0 && ValidUtf8(s[CharWidth(s)..]))
  }

  predicate AllAscii(s: seq<byte>) { forall i :: 0 <= i < |s| ==> IsAscii(s[i]) }

  lemma {:induction false} AsciiIsValid(s: seq<byte>)
    requires AllAscii(s)
    ensures ValidUtf8(s)
    decreases |s|
  {
    if s != [] {
      assert CharWidth(s) == 1;
      AsciiIsValid(s[1..]);
    }
  }

  /** An ASCII byte is never part of a multi-byte character, so it neither completes nor
      extends the character that starts `s`. */
  lemma CharWidthAppendAscii(s: seq<byte>, b: byte)
    requires s != [] && IsAscii(b)
    ensures CharWidth(s + [b]) == CharWidth(s)
  {
    var t := s + [b];
    assert t[0] == s[0];
    if |s| >= 2 { assert t[1] == s[1]; } else { assert |s| == 1 ==> t[1] == b; }
    if |s| >= 3 { assert t[2] == s[2]; } else if |s| == 2 { assert t[2] == b; }
    if |s| >= 4 { assert t[3] == s[3]; } else if |s| == 3 { assert t[3] == b; }
  }

  /** Appending an ASCII byte (such as LF or CR) keeps validity and does not repair an
      invalid sequence. */
  lemma {:induction false} ValidUtf8AppendAscii(s: seq<byte>, b: byte)
    requires IsAscii(b)
    ensures ValidUtf8(s + [b]) <==> ValidUtf8(s)
    decreases |s|
  {
    if s == [] {
      assert CharWidth([b]) == 1;
      assert ([] + [b])[1..] == [];
    } else {
      CharWidthAppendAscii(s, b);
      var n := CharWidth(s);
      if n > 0 {
        assert (s + [b])[n..] == s[n..] + [b];
        ValidUtf8AppendAscii(s[n..], b);
      }
    }
  }
}
