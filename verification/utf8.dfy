/**
 * UTF-8 encoding of strings (RFC 3629), as `Buffer.from(s)` and `Buffer.from(s, 'utf8')`
 * perform it. Strings are sequences of Unicode scalar values, so every string has exactly
 * one encoding and the encoding is injective.
 */
module Utf8 {

  type Byte = b: int | 0 <= b < 0x100
  type Bytes = seq<Byte>

  /** The number of bytes of the sequence a lead byte opens (RFC 3629 section 3). */
  function SequenceLength(lead: Byte): nat
  {
    if lead < 0x80 then 1 else if lead < 0xE0 then 2 else if lead < 0xF0 then 3 else 4
  }

  /** The one to four bytes that encode one scalar value. */
  function EncodeChar(c: char): (r: Bytes)
    ensures 1 <= |r| <= 4
    ensures |r| == SequenceLength(r[0])
    ensures forall i :: 1 <= i < |r| ==> 0x80 <= r[i] < 0xC0
  {
    var n := c as int;
    if n < 0x80 then [n]
    else if n < 0x800 then [0xC0 + n / 0x40, 0x80 + n % 0x40]
    else if n < 0x1_0000 then [0xE0 + n / 0x1000, 0x80 + n / 0x40 % 0x40, 0x80 + n % 0x40]
    else [0xF0 + n / 0x4_0000, 0x80 + n / 0x1000 % 0x40, 0x80 + n / 0x40 % 0x40, 0x80 + n % 0x40]
  }

  /** The scalar value that a sequence of one to four bytes carries in its payload bits. */
  function ScalarValue(bs: Bytes): int
    requires 1 <= |bs| <= 4
  {
    if |bs| == 1 then bs[0] as int
    else if |bs| == 2 then (bs[0] as int - 0xC0) * 0x40 + (bs[1] as int - 0x80)
    else if |bs| == 3 then (bs[0] as int - 0xE0) * 0x1000 + (bs[1] as int - 0x80) * 0x40 + (bs[2] as int - 0x80)
    else (bs[0] as int - 0xF0) * 0x4_0000 + (bs[1] as int - 0x80) * 0x1000 + (bs[2] as int - 0x80) * 0x40 + (bs[3] as int - 0x80)
  }

  /** Decoding the bytes of one character gives that character back. */
  lemma ScalarValueOfEncodeChar(c: char)
    ensures ScalarValue(EncodeChar(c)) == c as int
  {
    var n := c as int;
    var q := n / 0x40;
    assert n == q * 0x40 + n % 0x40;
    if n >= 0x800 {
      assert q == q / 0x40 * 0x40 + q % 0x40;
      assert q / 0x40 == n / 0x1000;
      if n >= 0x1_0000 {
        var q2 := n / 0x1000;
        assert q2 == q2 / 0x40 * 0x40 + q2 % 0x40;
        assert q2 / 0x40 == n / 0x4_0000;
      }
    }
  }

  /** Two characters with the same encoding are the same character. */
  lemma EncodeCharInjective(a: char, b: char)
    requires EncodeChar(a) == EncodeChar(b)
    ensures a == b
  {
    ScalarValueOfEncodeChar(a);
    ScalarValueOfEncodeChar(b);
  }

  /** `Buffer.from(s)`: the UTF-8 bytes of a string, character after character. */
  function Encode(s: string): (r: Bytes)
    ensures |r| >= |s|
    ensures |r| == 0 <==> s == []
    // an ASCII string, such as a base64 digest, encodes to one byte per character, its code
    ensures (forall i :: 0 <= i < |s| ==> s[i] as int < 0x80) ==>
              |r| == |s| && forall i :: 0 <= i < |s| ==> r[i] == s[i] as int
  {
    if s == [] then [] else EncodeChar(s[0]) + Encode(s[1..])
  }

  /** Strings with equal UTF-8 encodings are equal: comparing encodings compares the strings. */
  lemma {:induction false} EncodeInjective(a: string, b: string)
    requires Encode(a) == Encode(b)
    ensures a == b
  {
    if a != [] && b != [] {
      var ea, eb := EncodeChar(a[0]), EncodeChar(b[0]);
      assert Encode(a) == ea + Encode(a[1..]);
      assert Encode(b) == eb + Encode(b[1..]);
      assert ea[0] == Encode(a)[0] == eb[0];
      assert ea == Encode(a)[..|ea|];
      assert eb == Encode(b)[..|eb|];
      EncodeCharInjective(a[0], b[0]);
      assert Encode(a[1..]) == Encode(a)[|ea|..];
      assert Encode(b[1..]) == Encode(b)[|eb|..];
      EncodeInjective(a[1..], b[1..]);
      assert a == [a[0]] + a[1..];
      assert b == [b[0]] + b[1..];
    }
  }

  /** Byte equality of encodings holds exactly when the strings are equal. */
  lemma EncodeEqualIff(a: string, b: string)
    ensures Encode(a) == Encode(b) <==> a == b
  {
    if Encode(a) == Encode(b) {
      EncodeInjective(a, b);
    }
  }
}
