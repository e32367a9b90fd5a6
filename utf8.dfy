/** UTF-8 as Python's str.encode('utf-8') writes it and bytes.decode('utf-8')
    strictly reads it: only the well-formed byte sequences of Table 3-7 of
    the Unicode Standard are accepted (no overlong forms, no surrogates,
    nothing above U+10FFFF). */
module Utf8 {
  import opened Text

  predicate IsContinuation(b: byte) { 0x80 <= b <= 0xBF }

  /** The bytes of one scalar value. */
  function EncodeChar(c: char): (r: seq<byte>)
    ensures 1 <= |r| <= 4
    ensures (c as int < 0x80) == (|r| == 1)
  {
    var n := c as int;
    if n < 0x80 then [n]
    else if n < 0x800 then [0xC0 + n / 64, 0x80 + n % 64]
    else if n < 0x1_0000 then [0xE0 + n / 4096, 0x80 + (n / 64) % 64, 0x80 + n % 64]
    else [0xF0 + n / 0x4_0000, 0x80 + (n / 4096) % 64, 0x80 + (n / 64) % 64, 0x80 + n % 64]
  }

  function Encode(s: string): (r: seq<byte>)
  {
    if s == [] then [] else EncodeChar(s[0]) + Encode(s[1..])
  }

  /** The first scalar value of b and the number of bytes it takes, or None
      when b does not start with a well-formed sequence. */
  function DecodeChar(b: seq<byte>): (r: Option<(char, nat)>)
    requires |b| > 0
    ensures r.Some? ==> 1 <= r.value.1 <= |b|
  {
    var b0: int := b[0];
    if b0 < 0x80 then Some((b0 as char, 1))
    else if 0xC2 <= b0 <= 0xDF then
      if |b| >= 2 && IsContinuation(b[1])
      then Some((Scalar2(b0, b[1]) as char, 2))
      else None
    else if 0xE0 <= b0 <= 0xEF then
      var lo := if b0 == 0xE0 then 0xA0 else 0x80;
      var hi := if b0 == 0xED then 0x9F else 0xBF;
      if |b| >= 3 && lo <= b[1] <= hi && IsContinuation(b[2])
      then Some((Scalar3(b0, b[1], b[2]) as char, 3))
      else None
    else if 0xF0 <= b0 <= 0xF4 then
      var lo := if b0 == 0xF0 then 0x90 else 0x80;
      var hi := if b0 == 0xF4 then 0x8F else 0xBF;
      if |b| >= 4 && lo <= b[1] <= hi && IsContinuation(b[2]) && IsContinuation(b[3])
      then Some((Scalar4(b0, b[1], b[2], b[3]) as char, 4))
      else None
    else None
  }

  // The scalar value carried by a two-, three- or four-byte sequence: the
  // payload bits of the lead byte followed by six bits per continuation byte.
  function Scalar2(b0: int, b1: int): int { (b0 - 0xC0) * 64 + (b1 - 0x80) }
  function Scalar3(b0: int, b1: int, b2: int): int { (b0 - 0xE0) * 4096 + (b1 - 0x80) * 64 + (b2 - 0x80) }
  function Scalar4(b0: int, b1: int, b2: int, b3: int): int
  {
    (b0 - 0xF0) * 0x4_0000 + (b1 - 0x80) * 4096 + (b2 - 0x80) * 64 + (b3 - 0x80)
  }

  function Decode(b: seq<byte>): Option<string>
    decreases |b|
  {
    if b == [] then Some([])
    else match DecodeChar(b)
      case None => None
      case Some((c, n)) =>
        match Decode(b[n..])
        case None => None
        case Some(rest) => Some([c] + rest)
  }

  lemma EncodeCharDecodes(c: char, rest: seq<byte>)
    ensures DecodeChar(EncodeChar(c) + rest) == Some((c, |EncodeChar(c)|))
  {
    var n := c as int;
    var b := EncodeChar(c) + rest;
    if n < 0x80 {
    } else if n < 0x800 {
      Encode2(n);
      assert b[0] == 0xC0 + n / 64 && b[1] == 0x80 + n % 64;
    } else if n < 0x1_0000 {
      Encode3(n);
      assert b[0] == 0xE0 + n / 4096 && b[1] == 0x80 + (n / 64) % 64 && b[2] == 0x80 + n % 64;
    } else {
      Encode4(n);
      assert b[0] == 0xF0 + n / 0x4_0000 && b[1] == 0x80 + (n / 4096) % 64;
      assert b[2] == 0x80 + (n / 64) % 64 && b[3] == 0x80 + n % 64;
    }
  }

  lemma Encode2(n: int)
    requires 0x80 <= n < 0x800
    ensures 0xC2 <= 0xC0 + n / 64 <= 0xDF
    ensures Scalar2(0xC0 + n / 64, 0x80 + n % 64) == n
  {
  }

  lemma Encode3(n: int)
    requires 0x800 <= n < 0x1_0000 && !(0xD800 <= n < 0xE000)
    ensures 0xE0 <= 0xE0 + n / 4096 <= 0xEF
    ensures n / 4096 == 0 ==> 0x80 + (n / 64) % 64 >= 0xA0
    ensures n / 4096 == 0xD ==> 0x80 + (n / 64) % 64 <= 0x9F
    ensures Scalar3(0xE0 + n / 4096, 0x80 + (n / 64) % 64, 0x80 + n % 64) == n
  {
    assert n / 64 == (n / 4096) * 64 + (n / 64) % 64;
  }

  lemma Encode4(n: int)
    requires 0x1_0000 <= n < 0x11_0000
    ensures 0xF0 <= 0xF0 + n / 0x4_0000 <= 0xF4
    ensures n / 0x4_0000 == 0 ==> 0x80 + (n / 4096) % 64 >= 0x90
    ensures n / 0x4_0000 == 4 ==> 0x80 + (n / 4096) % 64 <= 0x8F
    ensures Scalar4(0xF0 + n / 0x4_0000, 0x80 + (n / 4096) % 64, 0x80 + (n / 64) % 64, 0x80 + n % 64) == n
  {
    assert n / 4096 == (n / 0x4_0000) * 64 + (n / 4096) % 64;
    assert n / 64 == (n / 4096) * 64 + (n / 64) % 64;
  }

  lemma DecodeCharEncodes(b: seq<byte>)
    requires |b| > 0 && DecodeChar(b).Some?
    ensures EncodeChar(DecodeChar(b).value.0) == b[..DecodeChar(b).value.1]
  {
    var b0 := b[0];
    if 0xC2 <= b0 <= 0xDF {
      Decode2(b0, b[1]);
    } else if 0xE0 <= b0 <= 0xEF {
      Decode3(b0, b[1], b[2]);
    } else if 0xF0 <= b0 <= 0xF4 {
      Decode4(b0, b[1], b[2], b[3]);
    }
  }

  lemma Decode2(b0: int, b1: int)
    requires 0xC2 <= b0 <= 0xDF && 0x80 <= b1 <= 0xBF
    ensures var n := Scalar2(b0, b1);
      0x80 <= n < 0x800 && 0xC0 + n / 64 == b0 && 0x80 + n % 64 == b1
  {
  }

  lemma Decode3(b0: int, b1: int, b2: int)
    requires 0xE0 <= b0 <= 0xEF && 0x80 <= b1 <= 0xBF && 0x80 <= b2 <= 0xBF
    requires b0 == 0xE0 ==> b1 >= 0xA0
    ensures var n := Scalar3(b0, b1, b2);
      0x800 <= n < 0x1_0000 && 0xE0 + n / 4096 == b0 && 0x80 + (n / 64) % 64 == b1 && 0x80 + n % 64 == b2
  {
    var n := Scalar3(b0, b1, b2);
    assert n / 64 == (b0 - 0xE0) * 64 + (b1 - 0x80);
  }

  lemma Decode4(b0: int, b1: int, b2: int, b3: int)
    requires 0xF0 <= b0 <= 0xF4 && 0x80 <= b1 <= 0xBF && 0x80 <= b2 <= 0xBF && 0x80 <= b3 <= 0xBF
    requires b0 == 0xF0 ==> b1 >= 0x90
    ensures var n := Scalar4(b0, b1, b2, b3);
      0x1_0000 <= n && 0xF0 + n / 0x4_0000 == b0 && 0x80 + (n / 4096) % 64 == b1
      && 0x80 + (n / 64) % 64 == b2 && 0x80 + n % 64 == b3
  {
    var n := Scalar4(b0, b1, b2, b3);
    assert n / 64 == (b0 - 0xF0) * 4096 + (b1 - 0x80) * 64 + (b2 - 0x80);
    assert n / 4096 == (b0 - 0xF0) * 64 + (b1 - 0x80);
  }

  /** Decoding what was encoded gives the text back. */
  lemma {:induction false} EncodeDecode(s: string)
    ensures Decode(Encode(s)) == Some(s)
  {
    if s != [] {
      var head := EncodeChar(s[0]);
      EncodeCharDecodes(s[0], Encode(s[1..]));
      assert (head + Encode(s[1..]))[|head|..] == Encode(s[1..]);
      EncodeDecode(s[1..]);
      assert [s[0]] + s[1..] == s;
    }
  }

  /** Whatever decodes is exactly the encoding of what it decodes to: the
      decoder accepts the image of Encode and nothing else. */
  lemma {:induction false} DecodeEncode(b: seq<byte>, s: string)
    requires Decode(b) == Some(s)
    ensures Encode(s) == b
    decreases |b|
  {
    if b != [] {
      var (c, n) := DecodeChar(b).value;
      var rest := Decode(b[n..]).value;
      assert s[0] == c && s[1..] == rest by { assert s == [c] + rest; }
      DecodeCharEncodes(b);
      DecodeEncode(b[n..], rest);
      assert b == b[..n] + b[n..];
    }
  }

  /** ASCII text encodes one byte per character, each byte its code. */
  lemma {:induction false} AsciiEncode(s: string)
    requires IsAscii(s)
    ensures |Encode(s)| == |s|
    ensures forall i :: 0 <= i < |s| ==> Encode(s)[i] == s[i] as int
  {
    if s != [] {
      AsciiEncode(s[1..]);
    }
  }
}
