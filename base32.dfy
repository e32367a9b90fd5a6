/** Base32 of section 6 of RFC 4648, as Python's base64.b32encode writes it
    and base64.b32decode reads it. Input is taken five bytes (one 40-bit
    quantum) at a time and written as eight 5-bit groups, most significant
    first; a final partial quantum is padded with zero bits and the groups
    that carry no input are written as '='. */
module Base32 {
  import opened Text

  type Quintet = x: int | 0 <= x < 32

  const ALPHABET := "ABCDEFGHIJKLMNOPQRSTUVWXYZ234567"

  function Symbol(d: Quintet): char
  {
    if d < 26 then ('A' as int + d) as char else ('2' as int + d - 26) as char
  }

  predicate IsSymbol(c: char) { 'A' <= c <= 'Z' || '2' <= c <= '7' }

  function SymbolValue(c: char): Quintet
    requires IsSymbol(c)
  {
    if 'A' <= c <= 'Z' then c as int - 'A' as int else c as int - '2' as int + 26
  }

  /** Symbol is the table of section 6 of RFC 4648, and SymbolValue reads it back. */
  lemma SymbolTable(d: Quintet)
    ensures Symbol(d) == ALPHABET[d]
    ensures IsSymbol(Symbol(d)) && SymbolValue(Symbol(d)) == d
  {
  }

  function Symbols(ds: seq<Quintet>): (s: string)
    ensures |s| == |ds|
    ensures forall i :: 0 <= i < |ds| ==> s[i] == Symbol(ds[i])
  {
    seq(|ds|, i requires 0 <= i < |ds| => Symbol(ds[i]))
  }

  function Values(s: string): (ds: seq<Quintet>)
    requires forall i :: 0 <= i < |s| ==> IsSymbol(s[i])
    ensures |ds| == |s|
    ensures forall i :: 0 <= i < |s| ==> ds[i] == SymbolValue(s[i])
  {
    seq(|s|, i requires 0 <= i < |s| => SymbolValue(s[i]))
  }

  /** The eight 5-bit groups of the 40-bit quantum b[0] b[1] … b[4]. */
  function QuantumDigits(b: seq<byte>): (ds: seq<Quintet>)
    requires |b| == 5
    ensures |ds| == 8
  {
    [ b[0] / 8,
      (b[0] % 8) * 4 + b[1] / 64,
      (b[1] / 2) % 32,
      (b[1] % 2) * 16 + b[2] / 16,
      (b[2] % 16) * 2 + b[3] / 128,
      (b[3] / 4) % 32,
      (b[3] % 4) * 8 + b[4] / 32,
      b[4] % 32 ]
  }

  /** The five bytes of the 40-bit quantum written as eight 5-bit groups. */
  function QuantumBytes(ds: seq<Quintet>): (b: seq<byte>)
    requires |ds| == 8
    ensures |b| == 5
  {
    var d: seq<int> := ds;
    [ d[0] * 8 + d[1] / 4,
      (d[1] % 4) * 64 + d[2] * 2 + d[3] / 16,
      (d[3] % 16) * 16 + d[4] / 2,
      (d[4] % 2) * 128 + d[5] * 4 + d[6] / 8,
      (d[6] % 8) * 32 + d[7] ]
  }

  /** How many groups carry input when the last quantum holds n bytes. */
  function KeptDigits(n: nat): nat
    requires 1 <= n <= 4
  {
    if n == 1 then 2 else if n == 2 then 4 else if n == 3 then 5 else 7
  }

  /** The number of '=' that b32encode writes after n bytes. */
  function PadCount(n: nat): nat
  {
    var r := n % 5;
    if r == 0 then 0 else if r == 1 then 6 else if r == 2 then 4 else if r == 3 then 3 else 1
  }

  /** The groups that carry input, without padding. */
  function Digits(b: seq<byte>): (ds: seq<Quintet>)
    decreases |b|
  {
    if |b| == 0 then []
    else if |b| >= 5 then QuantumDigits(b[..5]) + Digits(b[5..])
    else QuantumDigits(b + Repeat(0, 5 - |b|))[..KeptDigits(|b|)]
  }

  /** The encoding is the symbols of the groups followed by the '=' run, so
      stripping the '=' run gives the symbols back. */
  lemma EncodedBody(b: seq<byte>)
    ensures TrimRight(Encode(b), '=') == Symbols(Digits(b))
    ensures |Encode(b)| - |Symbols(Digits(b))| == PadCount(|b|)
  {
    var ds := Digits(b);
    var syms := Symbols(ds);
    assert syms == [] || syms[|syms| - 1] != '=' by {
      if syms != [] { SymbolTable(ds[|ds| - 1]); }
    }
    TrimRightRun(syms, '=', PadCount(|b|));
  }

  /** base64.b32encode(b). */
  function Encode(b: seq<byte>): (s: string)
  {
    Symbols(Digits(b)) + Repeat('=', PadCount(|b|))
  }

  /** How many bytes b32decode keeps of a final quantum after pad '='. */
  function Leftover(pad: nat): nat
    requires 1 <= pad <= 7
    ensures Leftover(pad) <= 5
  {
    (43 - 5 * pad) / 8
  }

  /** The bytes of a run of groups; a final partial quantum is completed with
      zero groups and cut to the bytes that its groups cover. */
  function BytesOf(ds: seq<Quintet>): seq<byte>
    decreases |ds|
  {
    if |ds| == 0 then []
    else if |ds| >= 8 then QuantumBytes(ds[..8]) + BytesOf(ds[8..])
    else
      QuantumBytes(ds + Repeat(0, 8 - |ds|))[..Leftover(8 - |ds|)]
  }

  /** base64.b32decode(s): None where Python raises binascii.Error. The length
      must be a multiple of 8, the trailing '=' run must be 0, 1, 3, 4 or 6
      long, and everything before it must be in the alphabet. */
  function Decode(s: string): (r: Option<seq<byte>>)
  {
    var body := TrimRight(s, '=');
    var pad := |s| - |body|;
    if |s| % 8 != 0 then None
    else if !(forall i :: 0 <= i < |body| ==> IsSymbol(body[i])) then None
    else if !(pad == 0 || pad == 1 || pad == 3 || pad == 4 || pad == 6) then None
    else Some(BytesOf(Values(body)))
  }

  // ---------------------------------------------------------------------
  // Properties
  // ---------------------------------------------------------------------

  lemma {:induction false} DigitsLength(b: seq<byte>)
    ensures |Digits(b)| == 8 * (|b| / 5) + (if |b| % 5 == 0 then 0 else KeptDigits(|b| % 5))
    decreases |b|
  {
    if |b| >= 5 {
      DigitsLength(b[5..]);
    }
  }

  /** The encoding of n bytes is 8 * ceil(n / 5) characters long. */
  lemma EncodedLength(b: seq<byte>)
    ensures |Encode(b)| == 8 * CeilDiv(|b|, 5)
    ensures |Encode(b)| % 8 == 0
  {
    DigitsLength(b);
    var q, r := |b| / 5, |b| % 5;
    assert |b| == 5 * q + r;
    if r == 0 {
      DivUnique(|b| + 4, 5, q, 4);
    } else {
      DivUnique(|b| + 4, 5, q + 1, r - 1);
    }
  }

  /** The encoding uses the alphabet, then a run of '=' and nothing else. */
  lemma EncodedSymbols(b: seq<byte>)
    ensures forall i :: 0 <= i < |Encode(b)| ==> IsSymbol(Encode(b)[i]) || Encode(b)[i] == '='
    ensures forall i :: 0 <= i < |Digits(b)| ==> IsSymbol(Encode(b)[i])
  {
    var ds := Digits(b);
    forall i | 0 <= i < |ds| ensures IsSymbol(Encode(b)[i]) {
      SymbolTable(ds[i]);
    }
  }

  lemma QuantumRoundTrip(b: seq<byte>)
    requires |b| == 5
    ensures QuantumBytes(QuantumDigits(b)) == b
  {
    var ds := QuantumDigits(b);
    var r := QuantumBytes(ds);
    assert r[0] == b[0] by { FirstByte(b[0], b[1]); }
    assert r[1] == b[1] by { SecondByte(b[0], b[1], b[2]); }
    assert r[2] == b[2] by { ThirdByte(b[1], b[2], b[3]); }
    assert r[3] == b[3] by { FourthByte(b[2], b[3], b[4]); }
    assert r[4] == b[4] by { FifthByte(b[3], b[4]); }
  }

  // The bits of each byte, read back from the groups that hold them.

  lemma FirstByte(x: byte, y: byte)
    ensures (x / 8) * 8 + ((x % 8) * 4 + y / 64) / 4 == x
  {
    assert ((x % 8) * 4 + y / 64) / 4 == x % 8;
  }

  lemma SecondByte(x: byte, y: byte, z: byte)
    ensures (((x % 8) * 4 + y / 64) % 4) * 64 + ((y / 2) % 32) * 2 + ((y % 2) * 16 + z / 16) / 16 == y
  {
    assert ((x % 8) * 4 + y / 64) % 4 == y / 64;
    assert ((y % 2) * 16 + z / 16) / 16 == y % 2;
  }

  lemma ThirdByte(y: byte, z: byte, w: byte)
    ensures (((y % 2) * 16 + z / 16) % 16) * 16 + ((z % 16) * 2 + w / 128) / 2 == z
  {
    assert ((y % 2) * 16 + z / 16) % 16 == z / 16;
    assert ((z % 16) * 2 + w / 128) / 2 == z % 16;
  }

  lemma FourthByte(z: byte, w: byte, v: byte)
    ensures (((z % 16) * 2 + w / 128) % 2) * 128 + ((w / 4) % 32) * 4 + ((w % 4) * 8 + v / 32) / 8 == w
  {
    assert ((z % 16) * 2 + w / 128) % 2 == w / 128;
    assert ((w % 4) * 8 + v / 32) / 8 == w % 4;
  }

  lemma FifthByte(w: byte, v: byte)
    ensures (((w % 4) * 8 + v / 32) % 8) * 32 + v % 32 == v
  {
    assert ((w % 4) * 8 + v / 32) % 8 == v / 32;
  }

  /** The groups dropped from a final partial quantum are all zero. */
  lemma PartialQuantum(b: seq<byte>)
    requires 1 <= |b| <= 4
    ensures var padded := b + Repeat(0, 5 - |b|);
      var k := KeptDigits(|b|);
      QuantumDigits(padded)[..k] + Repeat(0, 8 - k) == QuantumDigits(padded)
      && Leftover(8 - k) == |b|
  {
    var padded := b + Repeat(0, 5 - |b|);
    var ds := QuantumDigits(padded);
    var k := KeptDigits(|b|);
    forall i | k <= i < 8 ensures ds[i] == 0 {
      assert forall j :: |b| <= j < 5 ==> padded[j] == 0;
    }
  }

  lemma {:induction false} DigitsRoundTrip(b: seq<byte>)
    ensures BytesOf(Digits(b)) == b
    decreases |b|
  {
    if |b| >= 5 {
      var ds := Digits(b);
      var head := QuantumDigits(b[..5]);
      assert ds[..8] == head && ds[8..] == Digits(b[5..]);
      QuantumRoundTrip(b[..5]);
      DigitsRoundTrip(b[5..]);
      assert b[..5] + b[5..] == b;
    } else if |b| > 0 {
      var padded := b + Repeat(0, 5 - |b|);
      var k := KeptDigits(|b|);
      var ds := Digits(b);
      assert ds == QuantumDigits(padded)[..k];
      PartialQuantum(b);
      QuantumRoundTrip(padded);
      assert padded[..|b|] == b;
    }
  }

  lemma ValuesOfSymbols(ds: seq<Quintet>)
    ensures forall i :: 0 <= i < |ds| ==> IsSymbol(Symbols(ds)[i])
    ensures Values(Symbols(ds)) == ds
  {
    forall i | 0 <= i < |ds| ensures IsSymbol(Symbols(ds)[i]) && SymbolValue(Symbols(ds)[i]) == ds[i] {
      SymbolTable(ds[i]);
    }
  }

  /** A string that meets every condition Decode checks decodes to the bytes
      of the groups before its '=' run. */
  lemma Accepted(s: string)
    requires |s| % 8 == 0
    requires |s| - |TrimRight(s, '=')| in {0, 1, 3, 4, 6}
    requires forall i :: 0 <= i < |TrimRight(s, '=')| ==> IsSymbol(TrimRight(s, '=')[i])
    ensures Decode(s) == Some(BytesOf(Values(TrimRight(s, '='))))
  {
  }

  /** b32decode inverts b32encode. */
  lemma RoundTrip(b: seq<byte>)
    ensures Decode(Encode(b)) == Some(b)
  {
    var ds := Digits(b);
    EncodedBody(b);
    EncodedLength(b);
    ValuesOfSymbols(ds);
    assert PadCount(|b|) in {0, 1, 3, 4, 6};
    Accepted(Encode(b));
    DigitsRoundTrip(b);
  }
}
