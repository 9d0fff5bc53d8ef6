/** Percent-decoding as the `urlencoding` crate's `decode` performs it
    (the `%XX` escapes of section 2.1 of RFC 3986): every `%` followed by two
    hexadecimal digits becomes the byte they denote, every other byte,
    including a `%` that does not start such a triple, is kept. The result
    must be well-formed UTF-8, otherwise decoding fails. */
module Percent {
  import opened Wrappers
  import opened Text
  import Utf8

  const PERCENT: byte := 0x25

  predicate IsHexDigit(b: byte) {
    (0x30 <= b <= 0x39) || (0x41 <= b <= 0x46) || (0x61 <= b <= 0x66)
  }

  function HexValue(b: byte): (v: nat)
    requires IsHexDigit(b)
    ensures v < 16
  {
    if b <= 0x39 then (b - 0x30) as nat
    else if b <= 0x46 then (b - 0x41) as nat + 10
    else (b - 0x61) as nat + 10
  }

  /** The upper-case hexadecimal digit of a value below 16. */
  function HexDigit(v: nat): (b: byte)
    requires v < 16
    ensures IsHexDigit(b) && HexValue(b) == v
  {
    if v < 10 then (0x30 + v) as byte else (0x41 + v - 10) as byte
  }

  /** `b` starts with an escape `%XX`. */
  predicate StartsWithEscape(b: seq<byte>) {
    |b| >= 3 && b[0] == PERCENT && IsHexDigit(b[1]) && IsHexDigit(b[2])
  }

  /** The crate's `decode_binary`: escapes replaced, everything else kept. */
  function DecodeBytes(b: seq<byte>): (r: seq<byte>)
    decreases |b|
  {
    if |b| == 0 then []
    else if StartsWithEscape(b) then
      [(16 * HexValue(b[1]) + HexValue(b[2])) as byte] + DecodeBytes(b[3..])
    else
      [b[0]] + DecodeBytes(b[1..])
  }

  /** The crate's `decode`: input without any `%` is returned as it is;
      otherwise the decoded bytes, if they are well-formed UTF-8. */
  function Decode(b: seq<byte>): Option<seq<byte>> {
    if PERCENT !in b then Some(b)
    else
      var d := DecodeBytes(b);
      if Utf8.Valid(d) then Some(d) else None
  }

  /** Decoding never lengthens the input. */
  lemma {:induction false} DecodeBytesShrinks(b: seq<byte>)
    ensures |DecodeBytes(b)| <= |b|
    decreases |b|
  {
    if |b| > 0 {
      if StartsWithEscape(b) {
        DecodeBytesShrinks(b[3..]);
      } else {
        DecodeBytesShrinks(b[1..]);
      }
    }
  }

  /** Text without `%` decodes to itself. */
  lemma {:induction false} DecodeBytesWithoutPercent(b: seq<byte>)
    requires PERCENT !in b
    ensures DecodeBytes(b) == b
    decreases |b|
  {
    if |b| > 0 {
      assert b[0] != PERCENT;
      assert PERCENT !in b[1..];
      DecodeBytesWithoutPercent(b[1..]);
    }
  }

  /** The escape `%XY` of one byte, upper-case digits. */
  function EscapeByte(x: byte): (e: seq<byte>)
    ensures |e| == 3 && StartsWithEscape(e)
  {
    [PERCENT, HexDigit(x as nat / 16), HexDigit(x as nat % 16)]
  }

  /** Every byte written as an escape. */
  function EscapeAll(b: seq<byte>): seq<byte>
    decreases |b|
  {
    if |b| == 0 then [] else EscapeByte(b[0]) + EscapeAll(b[1..])
  }

  /** Decoding undoes escaping. */
  lemma {:induction false} DecodeEscapeAll(b: seq<byte>)
    ensures DecodeBytes(EscapeAll(b)) == b
    decreases |b|
  {
    if |b| > 0 {
      var e := EscapeAll(b);
      var x := b[0];
      assert e == EscapeByte(x) + EscapeAll(b[1..]);
      assert StartsWithEscape(e);
      assert e[3..] == EscapeAll(b[1..]);
      assert HexValue(e[1]) == x as nat / 16 && HexValue(e[2]) == x as nat % 16;
      assert (16 * HexValue(e[1]) + HexValue(e[2])) as byte == x;
      DecodeEscapeAll(b[1..]);
    }
  }

  /** A stretch without `%` passes through decoding unchanged, whatever
      follows it. */
  lemma {:induction false} DecodeBytesPlainPrefix(x: seq<byte>, y: seq<byte>)
    requires PERCENT !in x
    ensures DecodeBytes(x + y) == x + DecodeBytes(y)
    decreases |x|
  {
    if |x| == 0 {
      assert x + y == y;
    } else {
      assert (x + y)[0] == x[0] && x[0] != PERCENT;
      assert (x + y)[1..] == x[1..] + y;
      DecodeBytesPlainPrefix(x[1..], y);
      assert x == [x[0]] + x[1..];
    }
  }

  /** An escape decodes to its byte, whatever follows it. */
  lemma DecodeBytesEscapePrefix(e: seq<byte>, y: seq<byte>)
    requires |e| == 3 && StartsWithEscape(e)
    ensures DecodeBytes(e + y) == [(16 * HexValue(e[1]) + HexValue(e[2])) as byte] + DecodeBytes(y)
  {
    assert (e + y)[3..] == y;
  }

  /** Decoding fails only when the decoded bytes are not UTF-8; on success
      the result is the decoded text, whether or not the input held a `%`. */
  lemma DecodeOfString(s: string)
    ensures Decode(Utf8.Encode(s)).Some? <==> Utf8.Valid(DecodeBytes(Utf8.Encode(s)))
    ensures Decode(Utf8.Encode(s)).Some? ==> Decode(Utf8.Encode(s)).value == DecodeBytes(Utf8.Encode(s))
  {
    var b := Utf8.Encode(s);
    Utf8.EncodeValid(s);
    if PERCENT !in b {
      DecodeBytesWithoutPercent(b);
    }
  }
}
