/**
 * The C library text routines the two programs lean on, restricted to what
 * they are used for here: isspace, the "%u" / "%-Ns" / "%Nd" conversions of
 * sprintf, atoi, strtol with base 2, strncmp against a literal, and the
 * programs' own rstrip and token counter.
 */
module CText {
  import opened BinText

  /** isspace in the "C" locale. */
  predicate IsSpace(c: char)
  {
    c == ' ' || c == '\t' || c == '\n' || c == '\U{000B}' || c == '\U{000C}' || c == '\r'
  }

  predicate NoSpace(s: string) { forall i :: 0 <= i < |s| ==> !IsSpace(s[i]) }

  predicate IsDigit(c: char) { '0' <= c <= '9' }

  predicate AllDigits(s: string) { forall i :: 0 <= i < |s| ==> IsDigit(s[i]) }

  /** strncmp(s, p, |p|) == 0 */
  predicate StartsWith(s: string, p: string) { p <= s }

  /** n copies of one character, as the padding and rule lines are written. */
  function Repeat(c: char, n: nat): (r: string)
    ensures |r| == n && forall i :: 0 <= i < n ==> r[i] == c
  {
    if n == 0 then [] else Repeat(c, n - 1) + [c]
  }

  function Spaces(n: nat): string
  {
    Repeat(' ', n)
  }

  // ---------------------------------------------------------------------
  // Decimal text
  // ---------------------------------------------------------------------

  function DigitChar(d: nat): (c: char)
    requires d < 10
    ensures IsDigit(c)
  {
    ('0' as int + d) as char
  }

  function DigitValue(c: char): nat
    requires IsDigit(c)
  {
    c as int - '0' as int
  }

  /** "%u" (and "%d" of a non-negative value). */
  function Decimal(n: nat): (s: string)
    ensures |s| >= 1 && AllDigits(s)
  {
    if n < 10 then [DigitChar(n)] else Decimal(n / 10) + [DigitChar(n % 10)]
  }

  /** Value of a digit string read left to right with `v = v * 10 + d`. */
  function DecValue(s: string): nat
    requires AllDigits(s)
  {
    if |s| == 0 then 0 else 10 * DecValue(s[..|s| - 1]) + DigitValue(s[|s| - 1])
  }

  function LeadingDigits(s: string): (r: string)
    ensures r <= s && AllDigits(r)
    ensures |r| < |s| ==> !IsDigit(s[|r|])
  {
    if |s| == 0 || !IsDigit(s[0]) then [] else [s[0]] + LeadingDigits(s[1..])
  }

  function SkipSpaces(s: string): (r: string)
    ensures |r| <= |s| && r == s[|s| - |r|..]
    ensures |r| > 0 ==> !IsSpace(r[0])
  {
    if |s| > 0 && IsSpace(s[0]) then SkipSpaces(s[1..]) else s
  }

  /** atoi: leading white space, an optional sign, then decimal digits. */
  function Atoi(s: string): int
  {
    SignedDecimal(SkipSpaces(s))
  }

  /** An optional sign, then decimal digits up to the first non-digit. */
  function SignedDecimal(t: string): int
  {
    if |t| > 0 && t[0] == '-' then -(DecValue(LeadingDigits(t[1..])) as int)
    else if |t| > 0 && t[0] == '+' then DecValue(LeadingDigits(t[1..]))
    else DecValue(LeadingDigits(t))
  }

  /** strtol(s, NULL, 2): leading white space, an optional sign, then bits. */
  function Strtol2(s: string): int
  {
    SignedBinary(SkipSpaces(s))
  }

  /** An optional sign, then bits up to the first non-bit. */
  function SignedBinary(t: string): int
  {
    if |t| > 0 && t[0] == '-' then -(BinValue(LeadingBits(t[1..])) as int)
    else if |t| > 0 && t[0] == '+' then BinValue(LeadingBits(t[1..]))
    else BinValue(LeadingBits(t))
  }

  lemma {:induction false} DecValueOfDecimal(n: nat)
    ensures DecValue(Decimal(n)) == n
  {
    if n >= 10 {
      var s := Decimal(n);
      assert s[..|s| - 1] == Decimal(n / 10);
      DecValueOfDecimal(n / 10);
    }
  }

  lemma LeadingDigitsOfDigits(s: string, rest: string)
    requires AllDigits(s)
    requires |rest| == 0 || !IsDigit(rest[0])
    ensures LeadingDigits(s + rest) == s
  {
    if |s| > 0 {
      assert (s + rest)[1..] == s[1..] + rest;
      LeadingDigitsOfDigits(s[1..], rest);
    } else {
      assert s + rest == rest;
    }
  }

  /** atoi reads back what "%u" wrote, whatever non-digit follows it. */
  lemma AtoiOfDecimal(n: nat, rest: string)
    requires |rest| == 0 || !IsDigit(rest[0])
    ensures Atoi(Decimal(n) + rest) == n
  {
    var d := Decimal(n);
    var s := d + rest;
    assert s[0] == d[0] && IsDigit(d[0]);
    assert !IsSpace(s[0]) && s[0] != '-' && s[0] != '+';
    assert SkipSpaces(s) == s;
    assert Atoi(s) == DecValue(LeadingDigits(s));
    LeadingDigitsOfDigits(d, rest);
    DecValueOfDecimal(n);
  }

  /** Leading white space is skipped up to the first character that is not white space. */
  lemma {:induction false} SkipSpacesOver(sp: string, s: string)
    requires forall i :: 0 <= i < |sp| ==> IsSpace(sp[i])
    requires |s| > 0 && !IsSpace(s[0])
    ensures SkipSpaces(sp + s) == s
    decreases |sp|
  {
    if |sp| > 0 {
      assert (sp + s)[1..] == sp[1..] + s;
      SkipSpacesOver(sp[1..], s);
    } else {
      assert sp + s == s;
    }
  }

  /** atoi only looks at what follows the leading white space. */
  lemma AtoiAfterSpaces(s: string)
    ensures Atoi(s) == Atoi(SkipSpaces(s))
  {
    var t := SkipSpaces(s);
    assert SkipSpaces(t) == t;
  }

  /** strtol(.., 2) reads back a non-empty string of bits, whatever non-bit follows it. */
  lemma Strtol2OfBits(b: string, rest: string)
    requires |b| > 0 && AllBits(b)
    requires |rest| == 0 || !IsBit(rest[0])
    ensures Strtol2(b + rest) == BinValue(b)
  {
    var s := b + rest;
    assert s[0] == b[0] && IsBit(b[0]);
    assert !IsSpace(s[0]) && s[0] != '-' && s[0] != '+';
    assert SkipSpaces(s) == s;
    LeadingBitsOfBits(b, rest);
  }

  // ---------------------------------------------------------------------
  // sprintf field padding
  // ---------------------------------------------------------------------

  /** "%-Ns": left-justified in a field of at least N characters. */
  function PadRight(s: string, n: nat): (r: string)
    ensures s <= r && |r| == if |s| < n then n else |s|
    ensures forall i :: |s| <= i < |r| ==> r[i] == ' '
  {
    if |s| < n then s + Spaces(n - |s|) else s
  }

  /** "%Ns" / "%Nd": right-justified in a field of at least N characters. */
  function PadLeft(s: string, n: nat): (r: string)
    ensures |r| == if |s| < n then n else |s|
    ensures r[|r| - |s|..] == s
    ensures forall i :: 0 <= i < |r| - |s| ==> r[i] == ' '
  {
    if |s| < n then Spaces(n - |s|) + s else s
  }

  // ---------------------------------------------------------------------
  // rstrip and the token counter of split_comp_bin
  // ---------------------------------------------------------------------

  predicate IsBlank(c: char) { c == ' ' || c == '\t' }

  /** rstrip: drops trailing spaces and tabs, and nothing else. */
  function RStrip(s: string): (r: string)
    ensures r <= s
    ensures |r| == 0 || !IsBlank(r[|r| - 1])
    ensures forall i :: |r| <= i < |s| ==> IsBlank(s[i])
  {
    if |s| > 0 && IsBlank(s[|s| - 1]) then RStrip(s[..|s| - 1]) else s
  }

  /** Stripping twice strips no more than stripping once. */
  lemma RStripIdempotent(s: string)
    ensures RStrip(RStrip(s)) == RStrip(s)
  {
  }

  /** A string that does not end in a blank is left alone. */
  lemma RStripKeeps(s: string)
    requires |s| == 0 || !IsBlank(s[|s| - 1])
    ensures RStrip(s) == s
  {
  }

  /**
   * The counter of split_comp_bin: one more token each time a non-space
   * character follows a space or the start of the line.
   */
  function CountTokens(s: string, inToken: bool): nat
  {
    if |s| == 0 then 0
    else if !IsSpace(s[0]) then (if inToken then 0 else 1) + CountTokens(s[1..], true)
    else CountTokens(s[1..], false)
  }

  function TokenCount(s: string): nat { CountTokens(s, false) }

  lemma {:induction false} CountTokensInside(s: string)
    requires NoSpace(s)
    ensures CountTokens(s, true) == 0
  {
    if |s| > 0 {
      CountTokensInside(s[1..]);
    }
  }

  /** A non-empty line without white space is a single token. */
  lemma SingleToken(s: string)
    requires |s| > 0 && NoSpace(s)
    ensures TokenCount(s) == 1
  {
    CountTokensInside(s[1..]);
  }

  lemma BitsHaveNoSpace(s: string)
    requires AllBits(s)
    ensures NoSpace(s)
  {
  }
}
