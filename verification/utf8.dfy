/** UTF-8, the byte representation of Rust's `String`: encoding a sequence of
    scalar values, and the well-formedness test `String::from_utf8` applies
    (Table 3-7 of the Unicode Standard, chapter 3). */
module Utf8 {
  import opened Text

  predicate IsContinuation(b: byte) {
    0x80 <= b <= 0xBF
  }

  /** The UTF-8 encoding of one scalar value. */
  function EncodeChar(c: char): (bs: seq<byte>)
    ensures 1 <= |bs| <= 4
    ensures (|bs| == 1) <==> c as int < 0x80
    ensures |bs| == 1 ==> bs[0] as int == c as int
  {
    var n := c as int;
    if n < 0x80 then
      [n as byte]
    else if n < 0x800 then
      [(0xC0 + n / 0x40) as byte, (0x80 + n % 0x40) as byte]
    else if n < 0x1_0000 then
      [(0xE0 + n / 0x1000) as byte, (0x80 + (n / 0x40) % 0x40) as byte, (0x80 + n % 0x40) as byte]
    else
      [(0xF0 + n / 0x4_0000) as byte, (0x80 + (n / 0x1000) % 0x40) as byte,
       (0x80 + (n / 0x40) % 0x40) as byte, (0x80 + n % 0x40) as byte]
  }

  /** The UTF-8 encoding of a string: the bytes Rust stores for it. */
  function Encode(s: string): seq<byte>
    decreases |s|
  {
    if |s| == 0 then [] else EncodeChar(s[0]) + Encode(s[1..])
  }

  /** Length of the well-formed byte sequence that starts `b`, or 0 when `b`
      does not start with one. */
  function SequenceLength(b: seq<byte>): (n: nat)
    ensures n <= |b|
    ensures n > 0 ==> n <= 4
  {
    if |b| == 0 then 0
    else if b[0] < 0x80 then 1
    else if 0xC2 <= b[0] <= 0xDF then
      if |b| >= 2 && IsContinuation(b[1]) then 2 else 0
    else if 0xE0 <= b[0] <= 0xEF then
      var lo: byte := if b[0] == 0xE0 then 0xA0 else 0x80;
      var hi: byte := if b[0] == 0xED then 0x9F else 0xBF;
      if |b| >= 3 && lo <= b[1] <= hi && IsContinuation(b[2]) then 3 else 0
    else if 0xF0 <= b[0] <= 0xF4 then
      var lo: byte := if b[0] == 0xF0 then 0x90 else 0x80;
      var hi: byte := if b[0] == 0xF4 then 0x8F else 0xBF;
      if |b| >= 4 && lo <= b[1] <= hi && IsContinuation(b[2]) && IsContinuation(b[3]) then 4 else 0
    else 0
  }

  /** `b` is well-formed UTF-8: `String::from_utf8(b)` succeeds. */
  predicate Valid(b: seq<byte>)
    decreases |b|
  {
    |b| == 0 || (SequenceLength(b) > 0 && Valid(b[SequenceLength(b)..]))
  }

  /** Every encoded scalar value is exactly one well-formed sequence. */
  lemma EncodeCharWellFormed(c: char, rest: seq<byte>)
    ensures SequenceLength(EncodeChar(c) + rest) == |EncodeChar(c)|
  {
    var n := c as int;
    var b := EncodeChar(c) + rest;
    if n < 0x80 {
    } else if n < 0x800 {
      assert b[0] == (0xC0 + n / 0x40) as byte;
    } else if n < 0x1_0000 {
      assert 0 <= n < 0xD800 || 0xE000 <= n;
      assert b[0] == (0xE0 + n / 0x1000) as byte;
      assert b[1] == (0x80 + (n / 0x40) % 0x40) as byte;
      if n < 0x1000 {
        assert n / 0x40 >= 0x20;
      }
      if 0xD000 <= n < 0xE000 {
        assert n / 0x40 < 0x360;
        assert (n / 0x40) % 0x40 < 0x20;
      }
    } else {
      assert n <= 0x10_FFFF;
      assert b[0] == (0xF0 + n / 0x4_0000) as byte;
      assert b[1] == (0x80 + (n / 0x1000) % 0x40) as byte;
      if n < 0x4_0000 {
        assert n / 0x1000 >= 0x10;
      }
      if 0x10_0000 <= n {
        assert n / 0x1000 < 0x110;
        assert (n / 0x1000) % 0x40 < 0x10;
      }
    }
  }

  /** Every Rust string is well-formed UTF-8. */
  lemma {:induction false} EncodeValid(s: string)
    ensures Valid(Encode(s))
    decreases |s|
  {
    if |s| > 0 {
      var rest := Encode(s[1..]);
      EncodeCharWellFormed(s[0], rest);
      EncodeValid(s[1..]);
      assert Encode(s)[|EncodeChar(s[0])|..] == rest;
    }
  }

  /** ASCII characters encode as themselves, one byte each. */
  lemma {:induction false} EncodeAscii(s: string)
    requires forall i | 0 <= i < |s| :: s[i] as int < 0x80
    ensures |Encode(s)| == |s|
    ensures forall i | 0 <= i < |s| :: Encode(s)[i] as int == s[i] as int
    decreases |s|
  {
    if |s| > 0 {
      EncodeAscii(s[1..]);
    }
  }

  /** An ASCII byte occurs in an encoding only where its character occurs:
      the bytes of a multi-byte sequence are all 0x80 or above. */
  lemma {:induction false} EncodeAsciiByte(s: string, b: byte)
    requires b < 0x80
    requires b in Encode(s)
    ensures b as char in s
    decreases |s|
  {
    if |s| > 0 {
      var head := EncodeChar(s[0]);
      if b in head {
        var n := s[0] as int;
        assert n < 0x80;
        assert s[0] == b as char;
      } else {
        assert b in Encode(s[1..]);
        EncodeAsciiByte(s[1..], b);
      }
    }
  }

  /** Encoding is character by character. */
  lemma {:induction false} EncodeAppend(s: string, t: string)
    ensures Encode(s + t) == Encode(s) + Encode(t)
    decreases |s|
  {
    if |s| == 0 {
      assert s + t == t;
    } else {
      assert (s + t)[0] == s[0];
      assert (s + t)[1..] == s[1..] + t;
      EncodeAppend(s[1..], t);
    }
  }
}
