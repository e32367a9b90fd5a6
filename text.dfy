/** Strings, byte strings and the few pieces of Python string semantics that
    the client and the server rely on: slicing, numerals, str.replace,
    splitting and the joining of DNS labels. */
module Text {

  type byte = x: int | 0 <= x < 256

  datatype Option<+T> = None | Some(value: T)

  function Min(a: int, b: int): int { if a < b then a else b }

  /** The ceiling of a / b for a positive divisor. */
  function CeilDiv(a: nat, b: nat): nat
    requires b > 0
  {
    (a + b - 1) / b
  }

  predicate EndsWith<T(==)>(s: seq<T>, suffix: seq<T>)
  {
    |suffix| <= |s| && s[|s| - |suffix|..] == suffix
  }

  predicate IsAscii(s: string)
  {
    forall i :: 0 <= i < |s| ==> s[i] as int < 128
  }

  function Repeat<T>(x: T, n: nat): (r: seq<T>)
    ensures |r| == n
    ensures forall i :: 0 <= i < n ==> r[i] == x
  {
    seq(n, _ => x)
  }

  /** Python's s.rstrip(c) for one character c. */
  function TrimRight(s: string, c: char): (r: string)
    ensures |r| <= |s| && r == s[..|r|]
    ensures forall i :: |r| <= i < |s| ==> s[i] == c
    ensures r == [] || r[|r| - 1] != c
  {
    if s != [] && s[|s| - 1] == c then TrimRight(s[..|s| - 1], c) else s
  }

  /** Stripping a run of c from a text that does not itself end in c leaves
      exactly that text. */
  lemma {:induction false} TrimRightRun(a: string, c: char, k: nat)
    requires a == [] || a[|a| - 1] != c
    ensures TrimRight(a + Repeat(c, k), c) == a
  {
    if k > 0 {
      assert (a + Repeat(c, k))[..|a| + k - 1] == a + Repeat(c, k - 1);
      TrimRightRun(a, c, k - 1);
    } else {
      assert a + Repeat(c, 0) == a;
    }
  }

  // ---------------------------------------------------------------------
  // Python slicing
  // ---------------------------------------------------------------------

  /** How Python normalises a slice bound i against a length n: a negative
      bound counts from the end, and both ends are clamped into [0, n]. */
  function SliceBound(i: int, n: nat): (k: nat)
    ensures k <= n
    ensures 0 <= i <= n ==> k == i
    ensures i < 0 && n + i >= 0 ==> k == n + i
  {
    if i < 0 then (if n + i < 0 then 0 else n + i)
    else if i > n then n
    else i
  }

  /** Python's s[i:j]. */
  function Slice<T>(s: seq<T>, i: int, j: int): (r: seq<T>)
    ensures |r| <= |s|
    ensures 0 <= i <= j <= |s| ==> r == s[i..j]
    ensures forall x :: x in r ==> x in s
  {
    var a := SliceBound(i, |s|);
    var b := SliceBound(j, |s|);
    if a <= b then s[a..b] else []
  }

  /** From a non-negative start, a slice is the part of s between the two
      bounds clamped to its length, and never longer than j - i. */
  lemma SliceFrom<T>(s: seq<T>, i: int, j: int)
    requires 0 <= i <= j
    ensures i <= |s| ==> Slice(s, i, j) == s[i..Min(j, |s|)]
    ensures |Slice(s, i, j)| <= j - i
  {
  }

  // ---------------------------------------------------------------------
  // Numerals: format(n, 'x'), format(n, '06x') and str(n)
  // ---------------------------------------------------------------------

  /** The digit for d, lower-case as Python's 'x' format writes it. */
  function DigitChar(d: nat): char
    requires d < 16
  {
    if d < 10 then ('0' as int + d) as char else ('a' as int + d - 10) as char
  }

  /** The value of a digit character, or 16 for anything else. */
  function DigitValue(c: char): nat
  {
    if '0' <= c <= '9' then c as int - '0' as int
    else if 'a' <= c <= 'f' then c as int - 'a' as int + 10
    else 16
  }

  predicate IsNumeral(s: string, base: nat)
  {
    |s| >= 1 && forall i :: 0 <= i < |s| ==> DigitValue(s[i]) < base
  }

  /** The shortest numeral for n in the given base, without prefix: Python's
      format(n, 'x') for base 16 and str(n) for base 10. */
  function Numeral(n: nat, base: nat): (s: string)
    requires 2 <= base <= 16
    decreases n
  {
    if n < base then [DigitChar(n)]
    else Numeral(n / base, base) + [DigitChar(n % base)]
  }

  /** The number a numeral denotes, most significant digit first. */
  function NumeralValue(s: string, base: nat): nat
  {
    if s == [] then 0
    else NumeralValue(s[..|s| - 1], base) * base + Min(DigitValue(s[|s| - 1]), 15)
  }

  function Hex(n: nat): string { Numeral(n, 16) }

  function Decimal(n: nat): string { Numeral(n, 10) }

  /** Left-pads with '0' up to the width; longer text is kept whole. */
  function ZeroPad(s: string, width: nat): (r: string)
  {
    if |s| < width then Repeat('0', width - |s|) + s else s
  }

  /** Python's format(n, '06x'). */
  function Hex6(n: nat): string { ZeroPad(Hex(n), 6) }

  function Pow(b: nat, k: nat): nat
  {
    if k == 0 then 1 else b * Pow(b, k - 1)
  }

  lemma DigitRoundTrip(d: nat)
    requires d < 16
    ensures DigitValue(DigitChar(d)) == d
    ensures DigitChar(d) != '-' && DigitChar(d) != '.'
  {
  }

  /** Reading a numeral back gives the number it was written from. */
  lemma NumeralRoundTrip(n: nat, base: nat)
    requires 2 <= base <= 16
    ensures IsNumeral(Numeral(n, base), base)
    ensures NumeralValue(Numeral(n, base), base) == n
    ensures '-' !in Numeral(n, base) && '.' !in Numeral(n, base)
  {
    NumeralDigits(n, base);
    NumeralValueOf(n, base);
  }

  lemma {:induction false} NumeralValueOf(n: nat, base: nat)
    requires 2 <= base <= 16
    ensures NumeralValue(Numeral(n, base), base) == n
    decreases n
  {
    var s := Numeral(n, base);
    if n < base {
      AppendDigit([], n, base);
      assert [] + [DigitChar(n)] == s;
      assert NumeralValue([], base) == 0;
      assert NumeralValue(s, base) == n;
    } else {
      var q, r := n / base, n % base;
      DivShrinks(n, base);
      NumeralValueOf(q, base);
      assert s == Numeral(q, base) + [DigitChar(r)];
      AppendDigit(Numeral(q, base), r, base);
      assert NumeralValue(s, base) == q * base + r;
      DivMod(n, base);
      assert NumeralValue(s, base) == n;
    }
  }

  /** Appending a digit multiplies the value by the base and adds the digit. */
  lemma AppendDigit(init: string, d: nat, base: nat)
    requires d < base <= 16
    ensures NumeralValue(init + [DigitChar(d)], base) == NumeralValue(init, base) * base + d
  {
    DigitRoundTrip(d);
    assert (init + [DigitChar(d)])[..|init|] == init;
  }

  lemma {:induction false} NumeralDigits(n: nat, base: nat)
    requires 2 <= base <= 16
    ensures IsNumeral(Numeral(n, base), base)
    ensures '-' !in Numeral(n, base) && '.' !in Numeral(n, base)
    decreases n
  {
    var s := Numeral(n, base);
    if n < base {
      DigitRoundTrip(n);
    } else {
      var q, r := n / base, n % base;
      var init := Numeral(q, base);
      DivShrinks(n, base);
      NumeralDigits(q, base);
      DigitRoundTrip(r);
      assert s == init + [DigitChar(r)];
      forall i | 0 <= i < |s| ensures DigitValue(s[i]) < base && s[i] != '-' && s[i] != '.' {
        if i < |init| { assert s[i] == init[i]; }
      }
    }
  }

  lemma {:induction false} NumeralLength(n: nat, base: nat, k: nat)
    requires 2 <= base <= 16 && k >= 1 && n < Pow(base, k)
    ensures |Numeral(n, base)| <= k
    decreases k
  {
    if n >= base {
      assert k > 1;
      assert n / base < Pow(base, k - 1) by {
        assert Pow(base, k) == base * Pow(base, k - 1);
        DivBelow(n, base, Pow(base, k - 1));
      }
      NumeralLength(n / base, base, k - 1);
    }
  }

  lemma DivMod(n: nat, b: nat)
    requires b > 0
    ensures n == (n / b) * b + n % b
  {
  }

  /** The quotient is the only q with a == q * b + r and 0 <= r < b. */
  lemma DivUnique(a: nat, b: nat, q: nat, r: nat)
    requires b > 0 && r < b && a == q * b + r
    ensures a / b == q && a % b == r
  {
    DivMod(a, b);
    MulMono(b, q + 1, a / b);
    MulMono(b, a / b + 1, q);
  }

  lemma DivShrinks(n: nat, b: nat)
    requires b >= 2 && n >= 1
    ensures n / b < n
  {
    MulMono(b, 1, n / b);
  }

  lemma DivBelow(n: nat, b: nat, p: nat)
    requires b > 0 && n < b * p
    ensures n / b < p
  {
    MulMono(b, p, n / b);
  }

  lemma MulMono(b: nat, x: int, y: int)
    ensures x <= y ==> b * x <= b * y
  {
  }

  lemma {:induction false} LeadingZerosValue(z: nat, s: string, base: nat)
    ensures NumeralValue(Repeat('0', z) + s, base) == NumeralValue(s, base)
    decreases |s|
  {
    var p := Repeat('0', z) + s;
    if s == [] {
      assert p == Repeat('0', z);
      ZerosValue(z, base);
    } else {
      assert p[..|p| - 1] == Repeat('0', z) + s[..|s| - 1];
      LeadingZerosValue(z, s[..|s| - 1], base);
    }
  }

  lemma {:induction false} ZerosValue(z: nat, base: nat)
    ensures NumeralValue(Repeat('0', z), base) == 0
  {
    if z > 0 {
      assert Repeat('0', z)[..z - 1] == Repeat('0', z - 1);
      ZerosValue(z - 1, base);
    }
  }

  /** Below 16^6, format(n, '06x') is exactly six lower-case hex digits whose
      value is n. */
  lemma Hex6Fields(n: nat)
    requires n < 0x100_0000
    ensures |Hex6(n)| == 6
    ensures IsNumeral(Hex6(n), 16) && NumeralValue(Hex6(n), 16) == n
    ensures '-' !in Hex6(n) && '.' !in Hex6(n)
  {
    assert Pow(16, 6) == 0x100_0000;
    NumeralLength(n, 16, 6);
    NumeralRoundTrip(n, 16);
    var h := Hex(n);
    if |h| < 6 {
      LeadingZerosValue(6 - |h|, h, 16);
      var p := Hex6(n);
      assert p == Repeat('0', 6 - |h|) + h;
      forall i | 0 <= i < |p| ensures DigitValue(p[i]) < 16 && p[i] != '-' && p[i] != '.' {
        if i >= 6 - |h| { assert p[i] == h[i - (6 - |h|)]; }
      }
    }
  }

  // ---------------------------------------------------------------------
  // str.split(sep) on one separator character
  // ---------------------------------------------------------------------

  function Split(s: string, sep: char): (r: seq<string>)
    ensures |r| >= 1
    decreases |s|
  {
    if s == [] then [[]]
    else
      var rest := Split(s[1..], sep);
      if s[0] == sep then [[]] + rest else [[s[0]] + rest[0]] + rest[1..]
  }

  lemma {:induction false} SplitNone(a: string, sep: char)
    requires sep !in a
    ensures Split(a, sep) == [a]
    decreases |a|
  {
    if a != [] {
      SplitNone(a[1..], sep);
      assert [a[0]] + a[1..] == a;
    }
  }

  lemma {:induction false} SplitFirst(a: string, sep: char, b: string)
    requires sep !in a
    ensures Split(a + [sep] + b, sep) == [a] + Split(b, sep)
    decreases |a|
  {
    var s := a + [sep] + b;
    if a == [] {
      assert s[1..] == b;
    } else {
      assert s[1..] == a[1..] + [sep] + b;
      SplitFirst(a[1..], sep, b);
      assert [a[0]] + a[1..] == a;
    }
  }

  /** The fields joined with the separator between each two: sep.join(fs). */
  function Join(fs: seq<string>, sep: char): string
    requires |fs| >= 1
  {
    if |fs| == 1 then fs[0] else fs[0] + [sep] + Join(fs[1..], sep)
  }

  /** Splitting at a separator that no field holds gives the fields back. */
  lemma {:induction false} SplitJoin(fs: seq<string>, sep: char)
    requires |fs| >= 1
    requires forall k :: 0 <= k < |fs| ==> sep !in fs[k]
    ensures Split(Join(fs, sep), sep) == fs
  {
    if |fs| == 1 {
      SplitNone(fs[0], sep);
    } else {
      SplitJoin(fs[1..], sep);
      SplitFirst(fs[0], sep, Join(fs[1..], sep));
      assert [fs[0]] + fs[1..] == fs;
    }
  }

  lemma JoinCons(x: string, fs: seq<string>, sep: char)
    requires |fs| >= 1
    ensures Join([x] + fs, sep) == x + [sep] + Join(fs, sep)
  {
    assert ([x] + fs)[1..] == fs;
  }

  lemma JoinFour(a: string, b: string, c: string, d: string, sep: char)
    ensures Join([a, b, c, d], sep) == a + [sep] + b + [sep] + c + [sep] + d
  {
    JoinCons(c, [d], sep);
    assert [c] + [d] == [c, d];
    JoinCons(b, [c, d], sep);
    assert [b] + [c, d] == [b, c, d];
    JoinCons(a, [b, c, d], sep);
    assert [a] + [b, c, d] == [a, b, c, d];
  }

  lemma JoinFive(a: string, b: string, c: string, d: string, e: string, sep: char)
    ensures Join([a, b, c, d, e], sep) == a + [sep] + b + [sep] + c + [sep] + d + [sep] + e
  {
    JoinFour(b, c, d, e, sep);
    JoinCons(a, [b, c, d, e], sep);
    assert [a] + [b, c, d, e] == [a, b, c, d, e];
  }

  // ---------------------------------------------------------------------
  // str.replace(old, new)
  // ---------------------------------------------------------------------

  predicate OccursAt(s: string, pat: string, i: nat)
  {
    i + |pat| <= |s| && s[i..i + |pat|] == pat
  }

  /** Python's s.replace(pat, rep) for a non-empty pattern: every
      non-overlapping occurrence, scanned from the left, is replaced. */
  function Replace(s: string, pat: string, rep: string): string
    requires pat != []
    decreases |s|
  {
    if |s| < |pat| then s
    else if s[..|pat|] == pat then rep + Replace(s[|pat|..], pat, rep)
    else [s[0]] + Replace(s[1..], pat, rep)
  }

  lemma OccursShift(s: string, pat: string, i: nat)
    requires s != []
    ensures OccursAt(s[1..], pat, i) <==> OccursAt(s, pat, i + 1)
  {
    if i + |pat| <= |s[1..]| {
      assert s[1..][i..i + |pat|] == s[i + 1..i + 1 + |pat|];
    }
  }

  /** A text in which the pattern never occurs is left as it is. */
  lemma {:induction false} ReplaceAbsent(s: string, pat: string, rep: string)
    requires pat != []
    requires forall i: nat :: !OccursAt(s, pat, i)
    ensures Replace(s, pat, rep) == s
    decreases |s|
  {
    if |s| >= |pat| {
      assert !OccursAt(s, pat, 0);
      forall i: nat ensures !OccursAt(s[1..], pat, i) {
        OccursShift(s, pat, i);
      }
      ReplaceAbsent(s[1..], pat, rep);
      assert [s[0]] + s[1..] == s;
    }
  }

  /** A pattern whose first character the text lacks never occurs in it. */
  lemma NoOccurrence(s: string, pat: string)
    requires pat != [] && pat[0] !in s
    ensures forall i: nat :: !OccursAt(s, pat, i)
  {
    forall i: nat ensures !OccursAt(s, pat, i) {
      if i + |pat| <= |s| {
        assert s[i..i + |pat|][0] == s[i];
        assert s[i] in s;
      }
    }
  }

  /** A pattern starting with a character that a does not hold cannot start
      inside a. */
  lemma NoEarlierOccurrence(a: string, pat: string, b: string)
    requires pat != [] && pat[0] !in a
    ensures forall i: nat :: i < |a| ==> !OccursAt(a + pat + b, pat, i)
  {
    forall i: nat | i < |a| ensures !OccursAt(a + pat + b, pat, i) {
      var s := a + pat + b;
      assert s[i] == a[i] && a[i] in a;
      if i + |pat| <= |s| {
        assert s[i..i + |pat|][0] == s[i];
      }
    }
  }

  /** The leftmost occurrence is replaced first and scanning resumes after it. */
  lemma {:induction false} ReplaceLeftmost(a: string, pat: string, b: string, rep: string)
    requires pat != []
    requires forall i: nat :: i < |a| ==> !OccursAt(a + pat + b, pat, i)
    ensures Replace(a + pat + b, pat, rep) == a + rep + Replace(b, pat, rep)
    decreases |a|
  {
    var s := a + pat + b;
    if a == [] {
      assert s == pat + b && s[..|pat|] == pat && s[|pat|..] == b;
    } else {
      var t := a[1..] + pat + b;
      assert s[0] == a[0] && s[1..] == t;
      ReplaceSkip(s, pat, rep);
      forall i: nat | i < |a[1..]| ensures !OccursAt(t, pat, i) {
        OccursShift(s, pat, i);
      }
      ReplaceLeftmost(a[1..], pat, b, rep);
      assert [a[0]] + (a[1..] + rep + Replace(b, pat, rep)) == a + rep + Replace(b, pat, rep);
    }
  }

  /** Where the pattern does not start the text, its first character is kept. */
  lemma ReplaceSkip(s: string, pat: string, rep: string)
    requires pat != [] && s != [] && !OccursAt(s, pat, 0)
    ensures Replace(s, pat, rep) == [s[0]] + Replace(s[1..], pat, rep)
  {
  }

  /** Replacing each occurrence of one character; for a one-character
      pattern this is what Replace does (ReplaceChar). */
  function Substitute(s: string, c: char, rep: string): string
    decreases |s|
  {
    if s == [] then [] else (if s[0] == c then rep else [s[0]]) + Substitute(s[1..], c, rep)
  }

  lemma {:induction false} ReplaceChar(s: string, c: char, rep: string)
    ensures Replace(s, [c], rep) == Substitute(s, c, rep)
    decreases |s|
  {
    if s != [] {
      ReplaceChar(s[1..], c, rep);
      assert s[..1] == [s[0]];
    }
  }

  lemma {:induction false} SubstituteAppend(a: string, b: string, c: char, rep: string)
    ensures Substitute(a + b, c, rep) == Substitute(a, c, rep) + Substitute(b, c, rep)
    decreases |a|
  {
    if a != [] {
      var head := if a[0] == c then rep else [a[0]];
      assert (a + b)[0] == a[0];
      assert (a + b)[1..] == a[1..] + b;
      SubstituteAppend(a[1..], b, c, rep);
      assert Substitute(a + b, c, rep) == head + Substitute(a[1..] + b, c, rep);
      assert Substitute(a, c, rep) == head + Substitute(a[1..], c, rep);
    } else {
      assert a + b == b;
    }
  }

  lemma {:induction false} SubstituteAbsent(s: string, c: char, rep: string)
    requires c !in s
    ensures Substitute(s, c, rep) == s
    decreases |s|
  {
    if s != [] {
      SubstituteAbsent(s[1..], c, rep);
      assert [s[0]] + s[1..] == s;
    }
  }

  /** A character in neither the text nor the replacement stays out. */
  lemma {:induction false} SubstituteKeepsOut(s: string, c: char, rep: string, x: char)
    requires x !in s && x !in rep
    ensures x !in Substitute(s, c, rep)
    decreases |s|
  {
    if s != [] {
      assert forall y :: y in s[1..] ==> y in s;
      SubstituteKeepsOut(s[1..], c, rep, x);
    }
  }

  /** Mapping c to d and then d back to c restores a text without d. */
  lemma {:induction false} SubstituteBack(s: string, c: char, d: char)
    requires d !in s
    ensures Substitute(Substitute(s, c, [d]), d, [c]) == s
    decreases |s|
  {
    if s != [] {
      var head := if s[0] == c then [d] else [s[0]];
      assert Substitute(s, c, [d]) == head + Substitute(s[1..], c, [d]);
      SubstituteAppend(head, Substitute(s[1..], c, [d]), d, [c]);
      SubstituteBack(s[1..], c, d);
      assert Substitute(head, d, [c]) == [s[0]];
      assert [s[0]] + s[1..] == s;
    }
  }

  // ---------------------------------------------------------------------
  // Labels of a DNS name
  // ---------------------------------------------------------------------

  function Concat(ls: seq<string>): string
  {
    if ls == [] then [] else Concat(ls[..|ls| - 1]) + ls[|ls| - 1]
  }

  /** Every label followed by a dot: "l1.l2.…ln." */
  function DotAfterEach(ls: seq<string>): string
  {
    if ls == [] then [] else DotAfterEach(ls[..|ls| - 1]) + ls[|ls| - 1] + "."
  }

  lemma {:induction false} DotAfterEachLength(ls: seq<string>)
    ensures |DotAfterEach(ls)| == |Concat(ls)| + |ls|
  {
    if ls != [] { DotAfterEachLength(ls[..|ls| - 1]); }
  }

  /** Deleting the dots of "l1.l2.…" gives the labels run together, when no
      label holds a dot of its own. */
  lemma {:induction false} RemoveDots(ls: seq<string>)
    requires forall k :: 0 <= k < |ls| ==> '.' !in ls[k]
    ensures Substitute(DotAfterEach(ls), '.', "") == Concat(ls)
  {
    if ls != [] {
      var init, last := ls[..|ls| - 1], ls[|ls| - 1];
      RemoveDots(init);
      SubstituteAppend(DotAfterEach(init) + last, ".", '.', "");
      SubstituteAppend(DotAfterEach(init), last, '.', "");
      SubstituteAbsent(last, '.', "");
    }
  }

  /** Substituting a character inside every label commutes with joining. */
  lemma {:induction false} SubstituteLabels(ls: seq<string>, c: char, rep: string)
    requires c != '.'
    ensures Substitute(DotAfterEach(ls), c, rep) == DotAfterEach(SubstituteEach(ls, c, rep))
  {
    if ls != [] {
      var init, last := ls[..|ls| - 1], ls[|ls| - 1];
      var mapped := SubstituteEach(ls, c, rep);
      assert mapped[..|mapped| - 1] == SubstituteEach(init, c, rep);
      SubstituteLabels(init, c, rep);
      SubstituteAppend(DotAfterEach(init) + last, ".", c, rep);
      SubstituteAppend(DotAfterEach(init), last, c, rep);
      assert Substitute(".", c, rep) == "." by {
        assert "."[1..] == [];
      }
    }
  }

  lemma {:induction false} SubstituteConcat(ls: seq<string>, c: char, rep: string)
    ensures Substitute(Concat(ls), c, rep) == Concat(SubstituteEach(ls, c, rep))
  {
    if ls != [] {
      var init, last := ls[..|ls| - 1], ls[|ls| - 1];
      var mapped := SubstituteEach(ls, c, rep);
      assert mapped[..|mapped| - 1] == SubstituteEach(init, c, rep);
      SubstituteConcat(init, c, rep);
      SubstituteAppend(Concat(init), last, c, rep);
    }
  }

  function SubstituteEach(ls: seq<string>, c: char, rep: string): (r: seq<string>)
    ensures |r| == |ls|
    ensures forall k :: 0 <= k < |ls| ==> r[k] == Substitute(ls[k], c, rep)
  {
    seq(|ls|, k requires 0 <= k < |ls| => Substitute(ls[k], c, rep))
  }
}
