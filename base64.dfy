/** Base64 of section 4 of RFC 4648, as Python's base64.b64encode writes it:
    three bytes (one 24-bit quantum) become four 6-bit groups, most
    significant first; a final partial quantum is padded with zero bits and
    the groups that carry no input are written as '='. Decode is the strict
    reading of the same section and serves as the encoder's inverse. */
module Base64 {
  import opened Text

  type Sextet = x: int | 0 <= x < 64

  const UPPER := "ABCDEFGHIJKLMNOPQRSTUVWXYZ"
  const LOWER := "abcdefghijklmnopqrstuvwxyz"
  const DIGITS := "0123456789"
  const ALPHABET := UPPER + LOWER + DIGITS + "+/"

  function Symbol(d: Sextet): char
  {
    if d < 26 then ('A' as int + d) as char
    else if d < 52 then ('a' as int + d - 26) as char
    else if d < 62 then ('0' as int + d - 52) as char
    else if d == 62 then '+'
    else '/'
  }

  predicate IsSymbol(c: char)
  {
    'A' <= c <= 'Z' || 'a' <= c <= 'z' || '0' <= c <= '9' || c == '+' || c == '/'
  }

  function SymbolValue(c: char): Sextet
    requires IsSymbol(c)
  {
    if 'A' <= c <= 'Z' then c as int - 'A' as int
    else if 'a' <= c <= 'z' then c as int - 'a' as int + 26
    else if '0' <= c <= '9' then c as int - '0' as int + 52
    else if c == '+' then 62
    else 63
  }

  /** Symbol is the table of section 4 of RFC 4648, and SymbolValue reads it back. */
  lemma SymbolTable(d: Sextet)
    ensures Symbol(d) == ALPHABET[d]
    ensures IsSymbol(Symbol(d)) && SymbolValue(Symbol(d)) == d
  {
    if d < 26 {
      assert ALPHABET[d] == UPPER[d];
    } else if d < 52 {
      assert ALPHABET[d] == LOWER[d - 26];
    } else if d < 62 {
      assert ALPHABET[d] == DIGITS[d - 52];
    }
  }

  function Symbols(ds: seq<Sextet>): (s: string)
    ensures |s| == |ds|
    ensures forall i :: 0 <= i < |ds| ==> s[i] == Symbol(ds[i])
  {
    seq(|ds|, i requires 0 <= i < |ds| => Symbol(ds[i]))
  }

  function Values(s: string): (ds: seq<Sextet>)
    requires forall i :: 0 <= i < |s| ==> IsSymbol(s[i])
    ensures |ds| == |s|
    ensures forall i :: 0 <= i < |s| ==> ds[i] == SymbolValue(s[i])
  {
    seq(|s|, i requires 0 <= i < |s| => SymbolValue(s[i]))
  }

  /** The four 6-bit groups of the 24-bit quantum b[0] b[1] b[2]. */
  function QuantumDigits(b: seq<byte>): (ds: seq<Sextet>)
    requires |b| == 3
    ensures |ds| == 4
  {
    [ b[0] / 4,
      (b[0] % 4) * 16 + b[1] / 16,
      (b[1] % 16) * 4 + b[2] / 64,
      b[2] % 64 ]
  }

  /** The three bytes of the 24-bit quantum written as four 6-bit groups. */
  function QuantumBytes(ds: seq<Sextet>): (b: seq<byte>)
    requires |ds| == 4
    ensures |b| == 3
  {
    var d: seq<int> := ds;
    [ d[0] * 4 + d[1] / 16,
      (d[1] % 16) * 16 + d[2] / 4,
      (d[2] % 4) * 64 + d[3] ]
  }

  /** The groups that carry input, without padding: a final quantum of n
      bytes keeps n + 1 groups. */
  function Digits(b: seq<byte>): (ds: seq<Sextet>)
    decreases |b|
  {
    if |b| == 0 then []
    else if |b| >= 3 then QuantumDigits(b[..3]) + Digits(b[3..])
    else QuantumDigits(b + Repeat(0, 3 - |b|))[..|b| + 1]
  }

  /** The number of '=' that b64encode writes after n bytes. */
  function PadCount(n: nat): nat
  {
    if n % 3 == 0 then 0 else 3 - n % 3
  }

  /** base64.b64encode(b). */
  function Encode(b: seq<byte>): (s: string)
  {
    Symbols(Digits(b)) + Repeat('=', PadCount(|b|))
  }

  function BytesOf(ds: seq<Sextet>): seq<byte>
    decreases |ds|
  {
    if |ds| == 0 then []
    else if |ds| >= 4 then QuantumBytes(ds[..4]) + BytesOf(ds[4..])
    else QuantumBytes(ds + Repeat(0, 4 - |ds|))[..if |ds| == 1 then 0 else |ds| - 1]
  }

  /** Strict decoding: a multiple of four characters, at most two '=' at the
      end, the alphabet before them, and no quantum of a single group. */
  function Decode(s: string): (r: Option<seq<byte>>)
  {
    var body := TrimRight(s, '=');
    if |s| % 4 != 0 || |s| - |body| > 2 || |body| % 4 == 1 then None
    else if !(forall i :: 0 <= i < |body| ==> IsSymbol(body[i])) then None
    else Some(BytesOf(Values(body)))
  }

  // ---------------------------------------------------------------------
  // Properties
  // ---------------------------------------------------------------------

  lemma {:induction false} DigitsLength(b: seq<byte>)
    ensures |Digits(b)| == 4 * (|b| / 3) + (if |b| % 3 == 0 then 0 else |b| % 3 + 1)
    decreases |b|
  {
    if |b| >= 3 {
      DigitsLength(b[3..]);
    }
  }

  /** The encoding of n bytes is 4 * ceil(n / 3) characters long. */
  lemma EncodedLength(b: seq<byte>)
    ensures |Encode(b)| == 4 * CeilDiv(|b|, 3)
    ensures |Encode(b)| % 4 == 0
  {
    DigitsLength(b);
    var q, r := |b| / 3, |b| % 3;
    assert |b| == 3 * q + r;
    if r == 0 {
      DivUnique(|b| + 2, 3, q, 2);
    } else {
      DivUnique(|b| + 2, 3, q + 1, r - 1);
    }
  }

  /** The encoding uses the alphabet, then a run of '=' and nothing else. */
  lemma EncodedSymbols(b: seq<byte>)
    ensures forall i :: 0 <= i < |Encode(b)| ==> IsSymbol(Encode(b)[i]) || Encode(b)[i] == '='
  {
    var ds := Digits(b);
    forall i | 0 <= i < |ds| ensures IsSymbol(Encode(b)[i]) {
      SymbolTable(ds[i]);
    }
  }

  lemma QuantumRoundTrip(b: seq<byte>)
    requires |b| == 3
    ensures QuantumBytes(QuantumDigits(b)) == b
  {
    var ds := QuantumDigits(b);
    var r := QuantumBytes(ds);
    assert r[0] == b[0] by { assert ds[1] / 16 == b[0] % 4; }
    assert r[1] == b[1] by {
      assert ds[1] % 16 == b[1] / 16;
      assert ds[2] / 4 == b[1] % 16;
    }
    assert r[2] == b[2] by { assert ds[2] % 4 == b[2] / 64; }
  }

  /** The groups dropped from a final partial quantum are all zero. */
  lemma PartialQuantum(b: seq<byte>)
    requires 1 <= |b| <= 2
    ensures var padded := b + Repeat(0, 3 - |b|);
      QuantumDigits(padded)[..|b| + 1] + Repeat(0, 3 - |b|) == QuantumDigits(padded)
  {
    var padded := b + Repeat(0, 3 - |b|);
    assert forall j :: |b| <= j < 3 ==> padded[j] == 0;
  }

  lemma {:induction false} DigitsRoundTrip(b: seq<byte>)
    ensures BytesOf(Digits(b)) == b
    decreases |b|
  {
    if |b| >= 3 {
      var ds := Digits(b);
      assert ds[..4] == QuantumDigits(b[..3]) && ds[4..] == Digits(b[3..]);
      QuantumRoundTrip(b[..3]);
      DigitsRoundTrip(b[3..]);
      assert b[..3] + b[3..] == b;
    } else if |b| > 0 {
      var padded := b + Repeat(0, 3 - |b|);
      PartialQuantum(b);
      QuantumRoundTrip(padded);
      assert padded[..|b|] == b;
    }
  }

  lemma ValuesOfSymbols(ds: seq<Sextet>)
    ensures forall i :: 0 <= i < |ds| ==> IsSymbol(Symbols(ds)[i])
    ensures Values(Symbols(ds)) == ds
  {
    forall i | 0 <= i < |ds| ensures IsSymbol(Symbols(ds)[i]) && SymbolValue(Symbols(ds)[i]) == ds[i] {
      SymbolTable(ds[i]);
    }
  }

  /** The encoding is the symbols of the groups followed by the '=' run, so
      stripping the '=' run gives the symbols back. */
  lemma EncodedBody(b: seq<byte>)
    ensures TrimRight(Encode(b), '=') == Symbols(Digits(b))
    ensures |Encode(b)| - |Symbols(Digits(b))| == PadCount(|b|)
  {
    var ds := Digits(b);
    var syms := Symbols(ds);
    assert syms == [] || syms[|syms| - 1] != '=' by {
      if syms != [] { SymbolTable(ds[|ds| - 1]); }
    }
    TrimRightRun(syms, '=', PadCount(|b|));
  }

  /** A string that meets every condition Decode checks decodes to the bytes
      of the groups before its '=' run. */
  lemma Accepted(s: string)
    requires |s| % 4 == 0 && |s| - |TrimRight(s, '=')| <= 2 && |TrimRight(s, '=')| % 4 != 1
    requires forall i :: 0 <= i < |TrimRight(s, '=')| ==> IsSymbol(TrimRight(s, '=')[i])
    ensures Decode(s) == Some(BytesOf(Values(TrimRight(s, '='))))
  {
  }

  lemma DigitsCount(b: seq<byte>)
    ensures |Digits(b)| % 4 != 1
  {
    DigitsLength(b);
    var q := |b| / 3;
    assert (4 * q) % 4 == 0;
  }

  /** Decoding inverts b64encode. */
  lemma RoundTrip(b: seq<byte>)
    ensures Decode(Encode(b)) == Some(b)
  {
    var ds := Digits(b);
    EncodedBody(b);
    EncodedLength(b);
    DigitsCount(b);
    ValuesOfSymbols(ds);
    assert PadCount(|b|) <= 2;
    Accepted(Encode(b));
    DigitsRoundTrip(b);
  }
}
