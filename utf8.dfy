/**
 * `str.encode("utf-8")`: the UTF-8 encoding form of Unicode (section 3.9
 * of The Unicode Standard, RFC 3629), with a strict decoder that shows
 * the encoding loses nothing.
 */
module Utf8 {
  import opened Wrappers

  type Byte = b: int | 0 <= b < 0x100

  /** The one to four bytes that encode one Unicode scalar value. */
  function EncodeChar(c: char): (b: seq<Byte>)
    ensures 1 <= |b| <= 4
    ensures |b| == SequenceLength(b[0])
    ensures forall k :: 1 <= k < |b| ==> IsContinuation(b[k])
  {
    var n := c as int;
    if n < 0x80 then [n]
    else if n < 0x800 then [0xC0 + n / 0x40, 0x80 + n % 0x40]
    else if n < 0x1_0000 then [0xE0 + n / 0x1000, 0x80 + (n / 0x40) % 0x40, 0x80 + n % 0x40]
    else [0xF0 + n / 0x4_0000, 0x80 + (n / 0x1000) % 0x40, 0x80 + (n / 0x40) % 0x40, 0x80 + n % 0x40]
  }

  /** The UTF-8 encoding of a string: its characters' encodings, in order. */
  function Encode(s: string): (b: seq<Byte>)
    ensures |b| >= |s|
    decreases |s|
  {
    if s == [] then [] else EncodeChar(s[0]) + Encode(s[1..])
  }

  predicate IsContinuation(b: Byte) {
    0x80 <= b < 0xC0
  }

  /** The length of the sequence a lead byte starts, or 0 for a byte that cannot lead. */
  function SequenceLength(lead: Byte): (n: nat)
    ensures n <= 4
  {
    if lead < 0x80 then 1
    else if 0xC2 <= lead < 0xE0 then 2
    else if 0xE0 <= lead < 0xF0 then 3
    else if 0xF0 <= lead < 0xF5 then 4
    else 0
  }

  /**
   * Decodes the bytes of exactly one character, rejecting overlong forms,
   * surrogates and values beyond U+10FFFF.
   */
  function DecodeSequence(b: seq<Byte>): Option<char>
  {
    if |b| == 0 || |b| != SequenceLength(b[0]) then None
    else if exists k | 1 <= k < |b| :: !IsContinuation(b[k]) then None
    else if |b| == 1 then Some(b[0] as char)
    else if |b| == 2 then Some(Payload2(b[0], b[1]) as char)
    else if |b| == 3 then
      var n := Payload3(b[0], b[1], b[2]);
      if n < 0x800 || (0xD800 <= n < 0xE000) then None else Some(n as char)
    else
      var n := Payload4(b[0], b[1], b[2], b[3]);
      if n < 0x1_0000 || n >= 0x11_0000 then None else Some(n as char)
  }

  /** The scalar value carried by a two-byte sequence. */
  function Payload2(b0: Byte, b1: Byte): (n: int)
    requires 0xC2 <= b0 < 0xE0 && IsContinuation(b1)
    ensures 0x80 <= n < 0x800
  {
    (b0 as int - 0xC0) * 0x40 + (b1 as int - 0x80)
  }

  /** The scalar value carried by a three-byte sequence. */
  function Payload3(b0: Byte, b1: Byte, b2: Byte): (n: int)
    requires 0xE0 <= b0 < 0xF0 && IsContinuation(b1) && IsContinuation(b2)
    ensures 0 <= n < 0x1_0000
  {
    (b0 as int - 0xE0) * 0x1000 + (b1 as int - 0x80) * 0x40 + (b2 as int - 0x80)
  }

  /** The scalar value carried by a four-byte sequence. */
  function Payload4(b0: Byte, b1: Byte, b2: Byte, b3: Byte): (n: int)
    requires 0xF0 <= b0 < 0xF5 && IsContinuation(b1) && IsContinuation(b2) && IsContinuation(b3)
    ensures 0 <= n < 0x14_0000
  {
    (b0 as int - 0xF0) * 0x4_0000 + (b1 as int - 0x80) * 0x1000 + (b2 as int - 0x80) * 0x40 + (b3 as int - 0x80)
  }

  /** Decodes a whole byte sequence, or None if it is not well-formed UTF-8. */
  function Decode(b: seq<Byte>): Option<string>
    decreases |b|
  {
    if b == [] then Some([])
    else
      var k := SequenceLength(b[0]);
      if k == 0 || |b| < k then None
      else match DecodeSequence(b[..k])
        case None => None
        case Some(c) =>
          match Decode(b[k..])
          case None => None
          case Some(rest) => Some([c] + rest)
  }

  lemma DecodeEncodeChar(c: char)
    ensures DecodeSequence(EncodeChar(c)) == Some(c)
  {
    var n := c as int;
    if n < 0x80 {
    } else if n < 0x800 {
      DecodeEncode2(c);
    } else if n < 0x1_0000 {
      DecodeEncode3(c);
    } else {
      DecodeEncode4(c);
    }
  }

  lemma DecodeEncode2(c: char)
    requires 0x80 <= c as int < 0x800
    ensures DecodeSequence(EncodeChar(c)) == Some(c)
  {
    var n, b := c as int, EncodeChar(c);
    assert n == (n / 0x40) * 0x40 + n % 0x40;
    assert Payload2(b[0], b[1]) == n;
  }

  lemma DecodeEncode3(c: char)
    requires 0x800 <= c as int < 0x1_0000
    ensures DecodeSequence(EncodeChar(c)) == Some(c)
  {
    var n, b := c as int, EncodeChar(c);
    var m := n / 0x40;
    assert n == m * 0x40 + n % 0x40;
    assert m == (m / 0x40) * 0x40 + m % 0x40;
    assert m / 0x40 == n / 0x1000;
    assert Payload3(b[0], b[1], b[2]) == n;
  }

  lemma DecodeEncode4(c: char)
    requires 0x1_0000 <= c as int
    ensures DecodeSequence(EncodeChar(c)) == Some(c)
  {
    var n, b := c as int, EncodeChar(c);
    var m := n / 0x40;
    var h := m / 0x40;
    assert n == m * 0x40 + n % 0x40;
    assert m == h * 0x40 + m % 0x40;
    assert h == (h / 0x40) * 0x40 + h % 0x40;
    assert h == n / 0x1000;
    assert h / 0x40 == n / 0x4_0000;
    assert Payload4(b[0], b[1], b[2], b[3]) == n;
  }

  /** A well-formed sequence is the encoding of the character it decodes to. */
  lemma EncodeDecodeSequence(b: seq<Byte>, c: char)
    requires DecodeSequence(b) == Some(c)
    ensures EncodeChar(c) == b
  {
    var n := c as int;
    if |b| == 2 {
      var d1 := b[1] as int - 0x80;
      assert n == (b[0] as int - 0xC0) * 0x40 + d1;
      assert n / 0x40 == b[0] as int - 0xC0 && n % 0x40 == d1;
    } else if |b| == 3 {
      var d1, d2 := b[1] as int - 0x80, b[2] as int - 0x80;
      var m := (b[0] as int - 0xE0) * 0x40 + d1;
      assert n == m * 0x40 + d2;
      assert n / 0x40 == m && n % 0x40 == d2;
      assert m / 0x40 == b[0] as int - 0xE0 && m % 0x40 == d1;
      assert n / 0x1000 == m / 0x40;
    } else if |b| == 4 {
      var d1, d2, d3 := b[1] as int - 0x80, b[2] as int - 0x80, b[3] as int - 0x80;
      var h := (b[0] as int - 0xF0) * 0x40 + d1;
      var m := h * 0x40 + d2;
      assert n == m * 0x40 + d3;
      assert n / 0x40 == m && n % 0x40 == d3;
      assert m / 0x40 == h && m % 0x40 == d2;
      assert h / 0x40 == b[0] as int - 0xF0 && h % 0x40 == d1;
      assert n / 0x1000 == h;
      assert n / 0x4_0000 == h / 0x40;
    }
  }

  /** Decoding undoes encoding. */
  lemma {:induction false} DecodeEncode(s: string)
    ensures Decode(Encode(s)) == Some(s)
    decreases |s|
  {
    if s != [] {
      var head, tail := EncodeChar(s[0]), Encode(s[1..]);
      var b := head + tail;
      assert Encode(s) == b;
      assert b[0] == head[0];
      assert b[..|head|] == head;
      assert b[|head|..] == tail;
      DecodeEncodeChar(s[0]);
      DecodeEncode(s[1..]);
      assert [s[0]] + s[1..] == s;
    }
  }

  /** The encoding of a string is a prefix-free concatenation of its parts. */
  lemma {:induction false} EncodeConcat(a: string, b: string)
    ensures Encode(a + b) == Encode(a) + Encode(b)
    decreases |a|
  {
    if a != [] {
      assert (a + b)[0] == a[0];
      assert (a + b)[1..] == a[1..] + b;
      EncodeConcat(a[1..], b);
    } else {
      assert a + b == b;
    }
  }

  /** Decoding a non-empty sequence splits off the bytes of its first character. */
  lemma DecodeStep(b: seq<Byte>, s: string)
    requires b != [] && Decode(b) == Some(s)
    ensures var k := SequenceLength(b[0]);
            && 0 < k <= |b| && s != []
            && DecodeSequence(b[..k]) == Some(s[0])
            && Decode(b[k..]) == Some(s[1..])
  {
  }

  lemma EncodeCons(s: string)
    requires s != []
    ensures Encode(s) == EncodeChar(s[0]) + Encode(s[1..])
  {
  }

  /** Every byte sequence the decoder accepts is the encoding of what it decodes to. */
  lemma {:induction false} EncodeDecode(b: seq<Byte>, s: string)
    requires Decode(b) == Some(s)
    ensures Encode(s) == b
    decreases |b|
  {
    if b != [] {
      var k := SequenceLength(b[0]);
      DecodeStep(b, s);
      EncodeDecodeSequence(b[..k], s[0]);
      EncodeDecode(b[k..], s[1..]);
      EncodeCons(s);
      assert b == b[..k] + b[k..];
    }
  }

  /** Different strings have different encodings. */
  lemma EncodeInjective(a: string, b: string)
    requires Encode(a) == Encode(b)
    ensures a == b
  {
    DecodeEncode(a);
    DecodeEncode(b);
  }
}
