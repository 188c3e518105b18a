/**
 * `hashlib`'s `hexdigest()`: a digest as lower-case hexadecimal, two
 * digits per byte, high nibble first.
 */
module Hex {
  import opened Wrappers
  import opened Utf8

  predicate IsLowerHexDigit(c: char) {
    '0' <= c <= '9' || 'a' <= c <= 'f'
  }

  /** The digit for a value below 16: `0`-`9`, then `a`-`f`. */
  function Digit(v: nat): (c: char)
    requires v < 0x10
    ensures IsLowerHexDigit(c)
  {
    if v < 10 then ('0' as int + v) as char else ('a' as int + v - 10) as char
  }

  function Encode(d: seq<Byte>): (h: string)
    ensures |h| == 2 * |d|
    decreases |d|
  {
    if d == [] then []
    else [Digit(d[0] / 0x10), Digit(d[0] % 0x10)] + Encode(d[1..])
  }

  /** The value of one lower-case hexadecimal digit. */
  function DigitValue(c: char): (v: Option<nat>)
    ensures v.Some? ==> v.value < 0x10 && Digit(v.value) == c
    ensures v.None? <==> !IsLowerHexDigit(c)
  {
    if '0' <= c <= '9' then Some(c as int - '0' as int)
    else if 'a' <= c <= 'f' then Some(c as int - 'a' as int + 10)
    else None
  }

  /** Reads lower-case hexadecimal back into bytes. */
  function Decode(h: string): Option<seq<Byte>>
    decreases |h|
  {
    if h == [] then Some([])
    else if |h| == 1 then None
    else match (DigitValue(h[0]), DigitValue(h[1]), Decode(h[2..]))
      case (Some(hi), Some(lo), Some(rest)) => Some([hi * 0x10 + lo] + rest)
      case _ => None
  }

  lemma DigitValueOfDigit(v: nat)
    requires v < 0x10
    ensures DigitValue(Digit(v)) == Some(v)
  {
  }

  /** Every character of a hex digest is a lower-case hexadecimal digit. */
  lemma {:induction false} EncodeDigits(d: seq<Byte>)
    ensures forall k :: 0 <= k < |Encode(d)| ==> IsLowerHexDigit(Encode(d)[k])
    decreases |d|
  {
    if d != [] {
      var h, tail := Encode(d), Encode(d[1..]);
      EncodeDigits(d[1..]);
      forall k | 0 <= k < |h| ensures IsLowerHexDigit(h[k]) {
        if k >= 2 { assert h[k] == tail[k - 2]; }
      }
    }
  }

  /** Decoding one pair of digits followed by more hex. */
  lemma DecodePair(hi: nat, lo: nat, rest: string)
    requires hi < 0x10 && lo < 0x10
    ensures Decode([Digit(hi), Digit(lo)] + rest)
         == match Decode(rest) case None => None case Some(t) => Some([hi * 0x10 + lo] + t)
  {
    var h := [Digit(hi), Digit(lo)] + rest;
    DigitValueOfDigit(hi);
    DigitValueOfDigit(lo);
    assert h[0] == Digit(hi) && h[1] == Digit(lo) && h[2..] == rest;
  }

  /** A hex digest determines the digest it renders. */
  lemma {:induction false} DecodeEncode(d: seq<Byte>)
    ensures Decode(Encode(d)) == Some(d)
    decreases |d|
  {
    if d != [] {
      var hi, lo := d[0] / 0x10, d[0] % 0x10;
      assert Encode(d) == [Digit(hi), Digit(lo)] + Encode(d[1..]);
      DecodePair(hi, lo, Encode(d[1..]));
      DecodeEncode(d[1..]);
      assert hi * 0x10 + lo == d[0];
      assert [d[0]] + d[1..] == d;
    }
  }
}
