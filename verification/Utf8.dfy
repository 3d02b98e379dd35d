/**
 UTF-8 as in section 3 of RFC 3629: one to four bytes per Unicode scalar value, shortest form
 only, no surrogates. Dafny's `char` is exactly a Unicode scalar value.
 */
module Utf8 {
  import opened Common

  function EncodeChar(c: char): (b: Bytes)
    ensures 1 <= |b| <= 4
    ensures |b| == 1 <==> (c as int) < 0x80
    ensures |b| > 1 ==> forall x | x in b :: x >= 0x80
  {
    var v := c as int;
    if v < 0x80 then [v as Byte]
    else if v < 0x800 then [(0xC0 + v / 64) as Byte, (0x80 + v % 64) as Byte]
    else if v < 0x10000 then
      [(0xE0 + v / 4096) as Byte, (0x80 + v / 64 % 64) as Byte, (0x80 + v % 64) as Byte]
    else
      [(0xF0 + v / 262144) as Byte, (0x80 + v / 4096 % 64) as Byte, (0x80 + v / 64 % 64) as Byte,
       (0x80 + v % 64) as Byte]
  }

  function Encode(s: string): Bytes {
    if s == [] then [] else EncodeChar(s[0]) + Encode(s[1..])
  }

  predicate Continuation(b: Byte) {
    0x80 <= b < 0xC0
  }

  predicate IsScalar(v: int) {
    0 <= v < 0xD800 || 0xE000 <= v < 0x110000
  }

  /** The first character of a byte string and the number of bytes it takes. */
  function DecodeFirst(b: Bytes): (r: Option<(char, nat)>)
    requires b != []
    ensures r.Some? ==> 1 <= r.value.1 <= |b|
  {
    if b[0] < 0x80 then Some((b[0] as char, 1))
    else if b[0] < 0xC0 || b[0] >= 0xF8 then None
    else if b[0] < 0xE0 then
      if |b| < 2 || !Continuation(b[1]) then None
      else
        var v: int := (b[0] as int - 0xC0) * 64 + (b[1] as int - 0x80);
        if v < 0x80 then None else Some((v as char, 2))
    else if b[0] < 0xF0 then
      if |b| < 3 || !Continuation(b[1]) || !Continuation(b[2]) then None
      else
        var v: int := (b[0] as int - 0xE0) * 4096 + (b[1] as int - 0x80) * 64 + (b[2] as int - 0x80);
        if v < 0x800 || !IsScalar(v) then None else Some((v as char, 3))
    else
      if |b| < 4 || !Continuation(b[1]) || !Continuation(b[2]) || !Continuation(b[3]) then None
      else
        var v: int := (b[0] as int - 0xF0) * 262144 + (b[1] as int - 0x80) * 4096
                      + (b[2] as int - 0x80) * 64 + (b[3] as int - 0x80);
        if v < 0x10000 || !IsScalar(v) then None else Some((v as char, 4))
  }

  /** Strict decoding: None for anything that is not well-formed UTF-8. */
  function Decode(b: Bytes): Option<string>
    decreases |b|
  {
    if b == [] then Some("")
    else match DecodeFirst(b)
      case None => None
      case Some((c, n)) =>
        match Decode(b[n..])
        case None => None
        case Some(rest) => Some([c] + rest)
  }

  /** Base-64 digits are unique. */
  lemma Digits(v: nat, a: nat, b: nat, c: nat, d: nat)
    requires b < 64 && c < 64 && d < 64
    ensures v == a * 262144 + b * 4096 + c * 64 + d <==>
              v / 262144 == a && v / 4096 % 64 == b && v / 64 % 64 == c && v % 64 == d
  {
    assert v / 64 / 64 == v / 4096 && v / 4096 / 64 == v / 262144;
    assert v == v / 64 * 64 + v % 64;
    assert v / 64 == v / 64 / 64 * 64 + v / 64 % 64;
    assert v / 4096 == v / 4096 / 64 * 64 + v / 4096 % 64;
    if v == a * 262144 + b * 4096 + c * 64 + d {
      assert v / 64 == a * 4096 + b * 64 + c;
      assert v / 4096 == a * 64 + b;
    }
  }

  lemma DecodeFirstOfEncoded(c: char, rest: Bytes)
    ensures DecodeFirst(EncodeChar(c) + rest) == Some((c, |EncodeChar(c)|))
  {
    var v, b := c as int, EncodeChar(c) + rest;
    assert b[..|EncodeChar(c)|] == EncodeChar(c);
    Digits(v, v / 262144, v / 4096 % 64, v / 64 % 64, v % 64);
  }

  lemma EncodedOfDecodeFirst(b: Bytes)
    requires b != [] && DecodeFirst(b).Some?
    ensures EncodeChar(DecodeFirst(b).value.0) == b[..DecodeFirst(b).value.1]
  {
    var v, n := DecodeFirst(b).value.0 as int, DecodeFirst(b).value.1;
    if n == 2 {
      Digits(v, 0, 0, b[0] as int - 0xC0, b[1] as int - 0x80);
    } else if n == 3 {
      Digits(v, 0, b[0] as int - 0xE0, b[1] as int - 0x80, b[2] as int - 0x80);
    } else if n == 4 {
      Digits(v, b[0] as int - 0xF0, b[1] as int - 0x80, b[2] as int - 0x80, b[3] as int - 0x80);
    }
  }

  lemma {:induction false} DecodeEncode(s: string)
    ensures Decode(Encode(s)) == Some(s)
  {
    if s != [] {
      DecodeFirstOfEncoded(s[0], Encode(s[1..]));
      assert Encode(s)[|EncodeChar(s[0])|..] == Encode(s[1..]);
      DecodeEncode(s[1..]);
      assert [s[0]] + s[1..] == s;
    }
  }

  lemma {:induction false} EncodeDecode(b: Bytes)
    requires Decode(b).Some?
    ensures Encode(Decode(b).value) == b
    decreases |b|
  {
    if b != [] {
      EncodedOfDecodeFirst(b);
      var n := DecodeFirst(b).value.1;
      EncodeDecode(b[n..]);
      assert b == b[..n] + b[n..];
      assert Decode(b).value[1..] == Decode(b[n..]).value;
    }
  }

  lemma {:induction false} EncodeConcat(s: string, t: string)
    ensures Encode(s + t) == Encode(s) + Encode(t)
  {
    if s == [] {
      assert s + t == t;
    } else {
      EncodeConcat(s[1..], t);
      assert (s + t)[1..] == s[1..] + t;
    }
  }

  /** Self-synchronisation: a byte below 0x80 appears only as the encoding of its own character. */
  lemma {:induction false} AsciiOnlyForItself(s: string, x: Byte)
    requires x < 0x80
    ensures x in Encode(s) <==> (x as char) in s
  {
    if s != [] {
      AsciiOnlyForItself(s[1..], x);
      assert s == [s[0]] + s[1..];
      assert x in EncodeChar(s[0]) <==> s[0] == x as char by {
        if |EncodeChar(s[0])| == 1 { assert EncodeChar(s[0]) == [s[0] as Byte]; }
      }
    }
  }
}
