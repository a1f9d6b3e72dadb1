/**
 * The files stage_codebook_gen writes once huff_table holds the codes.  For
 * every symbol whose frequency is positive, in ascending symbol order, each
 * of four files gets one line:
 *   - SYMIZFO.txt: the symbol in 8 bits;
 *   - CODEWZFO.txt: the code packed into an integer and shown in its low 16 bits;
 *   - CODLZFO.txt: the code length in 5 bits;
 *   - HMCZFO.txt: a readable row "%-10s %-20s %2d" below a two-line header.
 * Every line ends in "\r\n".
 */
module Codebook {
  import opened Wrappers
  import opened BinText
  import opened CText
  import opened LineIO

  const SymBits: nat := 8
  const CodeBits: nat := 16
  const LenBits: nat := 5
  const WordBits: nat := 32
  const Eol: string := "\r\n"

  /** One huff_table entry with a positive frequency: its symbol and code text. */
  datatype Row = Row(symbol: nat, code: string)

  /** The code slot of huff_table; a slot assign_codes never wrote is still empty. */
  function CodeOf(table: map<nat, string>, s: nat): string
  {
    if s in table then table[s] else ""
  }

  /** The row loop of stage_codebook_gen from symbol i on. */
  function RowsFrom(ft: seq<int>, table: map<nat, string>, i: nat): seq<Row>
    requires i <= |ft|
    decreases |ft| - i
  {
    if i == |ft| then []
    else if ft[i] > 0 then [Row(i, CodeOf(table, i))] + RowsFrom(ft, table, i + 1)
    else RowsFrom(ft, table, i + 1)
  }

  function Rows(ft: seq<int>, table: map<nat, string>): seq<Row>
  {
    RowsFrom(ft, table, 0)
  }

  /**
   * One row per symbol with a positive frequency and no other: the rows come
   * in strictly ascending symbol order and carry that symbol's code slot.
   */
  lemma {:induction false} RowsExact(ft: seq<int>, table: map<nat, string>, i: nat)
    requires i <= |ft|
    ensures forall k :: 0 <= k < |RowsFrom(ft, table, i)| ==>
      && i <= RowsFrom(ft, table, i)[k].symbol < |ft|
      && ft[RowsFrom(ft, table, i)[k].symbol] > 0
      && RowsFrom(ft, table, i)[k].code == CodeOf(table, RowsFrom(ft, table, i)[k].symbol)
    ensures forall a, b :: 0 <= a < b < |RowsFrom(ft, table, i)| ==>
      RowsFrom(ft, table, i)[a].symbol < RowsFrom(ft, table, i)[b].symbol
    ensures forall s :: i <= s < |ft| && ft[s] > 0 ==> Row(s, CodeOf(table, s)) in RowsFrom(ft, table, i)
    decreases |ft| - i
  {
    if i < |ft| {
      RowsExact(ft, table, i + 1);
      if ft[i] > 0 {
        RowPrepended(ft, table, i, RowsFrom(ft, table, i + 1));
      }
    }
  }

  /** The step of RowsExact that puts the row of symbol i in front of the later rows. */
  lemma RowPrepended(ft: seq<int>, table: map<nat, string>, i: nat, rest: seq<Row>)
    requires i < |ft| && ft[i] > 0
    requires forall k :: 0 <= k < |rest| ==>
      && i + 1 <= rest[k].symbol < |ft| && ft[rest[k].symbol] > 0 && rest[k].code == CodeOf(table, rest[k].symbol)
    requires forall a, b :: 0 <= a < b < |rest| ==> rest[a].symbol < rest[b].symbol
    ensures var r := [Row(i, CodeOf(table, i))] + rest;
      && (forall k :: 0 <= k < |r| ==>
        i <= r[k].symbol < |ft| && ft[r[k].symbol] > 0 && r[k].code == CodeOf(table, r[k].symbol))
      && (forall a, b :: 0 <= a < b < |r| ==> r[a].symbol < r[b].symbol)
  {
    var r := [Row(i, CodeOf(table, i))] + rest;
    forall k | 0 <= k < |r|
      ensures i <= r[k].symbol < |ft| && ft[r[k].symbol] > 0 && r[k].code == CodeOf(table, r[k].symbol)
    {
      if k > 0 {
        assert r[k] == rest[k - 1];
      }
    }
    forall a, b | 0 <= a < b < |r|
      ensures r[a].symbol < r[b].symbol
    {
      assert r[b] == rest[b - 1];
      if a > 0 {
        assert r[a] == rest[a - 1];
      }
    }
  }

  // ---------------------------------------------------------------------
  // The codeword integer
  // ---------------------------------------------------------------------

  /** The last (at most) w characters of a code. */
  function Low(code: string, w: nat): (r: string)
    ensures |r| == Min(|code|, w) && code == code[..|code| - |r|] + r
  {
    if |code| <= w then code else code[|code| - w..]
  }

  lemma MulStep(v: nat, b: nat, p: nat)
    ensures (2 * v + b) * p == v * (2 * p) + b * p
  {
  }

  /** The state of the codeword loop before index b; bits before s fall outside the word. */
  predicate PackInv(code: string, s: nat, b: nat, cw: nat)
    requires s <= |code| && b <= |code|
  {
    cw == if b <= s then 0 else BinValue(code[s..b]) * Pow2(|code| - b)
  }

  /** One turn of the codeword loop. */
  lemma PackTurn(code: string, s: nat, b: nat, cw: nat)
    requires s == |code| - |Low(code, WordBits)| && b < |code| && PackInv(code, s, b, cw)
    ensures var k := |code| - 1 - b;
      PackInv(code, s, b + 1, if code[b] == '1' && k < WordBits then cw + Pow2(k) else cw)
  {
    var k := |code| - 1 - b;
    if b >= s {
      assert code[s..b + 1] == code[s..b] + [code[b]];
      assert code[s..b + 1][..b - s] == code[s..b];
      MulStep(BinValue(code[s..b]), BitValue(code[b]), Pow2(k));
    }
  }

  /**
   * The codeword loop: for each '1' at index b, set bit code_len-1-b of an
   * unsigned word.  A shift of 32 or more has no defined result in C; here
   * such a bit does not reach the 32-bit word, so the word holds the value of
   * the code's last 32 characters.
   */
  method PackCodeword(code: string) returns (cw: nat)
    ensures cw == BinValue(Low(code, WordBits))
  {
    var n := |code|;
    var s := n - |Low(code, WordBits)|;
    cw := 0;
    var b := 0;
    while b < n
      invariant b <= n && PackInv(code, s, b, cw)
    {
      PackTurn(code, s, b, cw);
      if code[b] == '1' && n - 1 - b < WordBits {
        cw := cw + Pow2(n - 1 - b);
      }
      b := b + 1;
    }
    assert code[s..n] == Low(code, WordBits);
  }

  /**
   * The low bits of the word spell the code, or, for a code longer than 32
   * characters, its last 32 characters.
   */
  lemma PackedLowBits(code: string)
    requires AllBits(code)
    ensures Render(BinValue(Low(code, WordBits)), Min(|code|, WordBits)) == Low(code, WordBits)
  {
    var t := Low(code, WordBits);
    assert forall i :: 0 <= i < |t| ==> t[i] == code[|code| - |t| + i];
    RenderOfValue(t);
  }

  // ---------------------------------------------------------------------
  // Line texts
  // ---------------------------------------------------------------------

  function SymText(s: nat): string { Render(s, SymBits) }

  /** The codeword line: bits 15..0 of the packed word. */
  function CodeText(code: string): string { Render(BinValue(Low(code, WordBits)), CodeBits) }

  /** The length line: bits 4..0 of code_len. */
  function LenText(code: string): string { Render(|code|, LenBits) }

  /** The readable row "%-10s %-20s %2d" without its line end. */
  function DebugText(s: nat, code: string): string
  {
    DebugRow(SymText(s), code)
  }

  /** The row for a given symbol text. */
  function DebugRow(sym: string, code: string): string
  {
    PadRight(sym, 10) + " " + PadRight(code, 20) + " " + PadLeft(Decimal(|code|), 2)
  }

  const HeaderTitle: string := "Symbol       Codeword         Length"
  const HeaderRule: string := Repeat('-', 38)

  /**
   * The codeword line holds the code's last 16 characters, zero-extended on
   * the left; a code of at most 16 characters appears whole.
   */
  lemma CodeTextLast16(code: string)
    requires AllBits(code)
    ensures CodeText(code) == Render(0, CodeBits - |Low(code, CodeBits)|) + Low(code, CodeBits)
  {
    var t32 := Low(code, WordBits);
    var t16 := Low(code, CodeBits);
    if |code| < CodeBits {
      assert t32 == code && t16 == code;
      var extra := CodeBits - |code|;
      RenderWide(code, extra);
      assert Render(BinValue(code), CodeBits) == Render(BinValue(code), |code| + extra);
    } else {
      var pre := t32[..|t32| - CodeBits];
      assert t32 == pre + t16 by {
        assert forall i :: 0 <= i < |t16| ==> t16[i] == t32[|t32| - CodeBits + i];
      }
      assert BinValue(t32) % Pow2(CodeBits) == BinValue(t16) by {
        SuffixValue(pre, t16);
      }
      assert CodeText(code) == Render(BinValue(t16), CodeBits) by {
        RenderMod(BinValue(t32), CodeBits);
      }
      assert Render(BinValue(t16), CodeBits) == t16 by {
        assert AllBits(t16);
        RenderOfValue(t16);
      }
      assert Render(0, 0) + t16 == t16;
    }
  }

  /** Zero-extension on the left does not change the value. */
  lemma {:induction false} ZeroValue(n: nat)
    ensures BinValue(Render(0, n)) == 0
  {
    if n > 0 {
      ZeroValue(n - 1);
      assert Render(0, n)[..n - 1] == Render(0, n - 1);
    }
  }

  lemma ZeroExtendValue(n: nat, t: string)
    ensures BinValue(Render(0, n) + t) == BinValue(t)
  {
    ZeroValue(n);
    BinValueAppend(Render(0, n), t);
    assert BinValue(Render(0, n)) * Pow2(|t|) == 0;
  }

  /** The codeword line reads back as the value of the code's last 16 characters. */
  lemma CodeTextValue(code: string)
    requires AllBits(code)
    ensures BinStrToInt(CodeText(code)) == BinValue(Low(code, CodeBits))
  {
    var t16 := Low(code, CodeBits);
    var z := Render(0, CodeBits - |t16|);
    var line := CodeText(code);
    assert line == z + t16 by {
      CodeTextLast16(code);
    }
    assert LeadingBits(line) == line by {
      LeadingBitsOfBits(line, []);
      assert line + [] == line;
    }
    assert BinValue(z + t16) == BinValue(t16) by {
      ZeroExtendValue(CodeBits - |t16|, t16);
    }
  }

  /** The length line reads back as code_len modulo 32. */
  lemma LenTextValue(code: string)
    ensures BinStrToInt(LenText(code)) == |code| % Pow2(LenBits)
  {
    BinStrToIntOfRender(|code|, LenBits, []);
    assert LenText(code) + [] == LenText(code);
  }

  // ---------------------------------------------------------------------
  // The four files
  // ---------------------------------------------------------------------

  datatype CodebookFiles = CodebookFiles(codebook: string, symIn: string, codeIn: string, lenIn: string)

  /** binstr_to_int of a w-bit line is the rendered value modulo 2^w. */
  lemma ReadRender(v: nat, w: nat)
    ensures BinStrToInt(Render(v, w)) == v % Pow2(w)
  {
    BinStrToIntOfRender(v, w, []);
    assert Render(v, w) + [] == Render(v, w);
  }

  /** SYMIN: one 8-bit line per row, read back by binstr_to_int as the symbol's low byte. */
  function SymColumn(rows: seq<Row>): (r: seq<string>)
    ensures |r| == |rows|
    ensures forall k :: 0 <= k < |rows| ==>
      |r[k]| == SymBits && AllBits(r[k]) && BinStrToInt(r[k]) == rows[k].symbol % Pow2(SymBits)
  {
    assert forall k :: 0 <= k < |rows| ==> BinStrToInt(SymText(rows[k].symbol)) == rows[k].symbol % Pow2(SymBits) by {
      forall k | 0 <= k < |rows| {
        ReadRender(rows[k].symbol, SymBits);
      }
    }
    seq(|rows|, k requires 0 <= k < |rows| => SymText(rows[k].symbol))
  }

  /** CODEWIN: one 16-bit line per row, read back as the value of the code's last 16 characters. */
  function CodeColumn(rows: seq<Row>): (r: seq<string>)
    ensures |r| == |rows|
    ensures forall k :: 0 <= k < |rows| ==> |r[k]| == CodeBits && AllBits(r[k])
    ensures forall k :: 0 <= k < |rows| && AllBits(rows[k].code) ==>
      BinStrToInt(r[k]) == BinValue(Low(rows[k].code, CodeBits))
  {
    assert forall k :: 0 <= k < |rows| && AllBits(rows[k].code) ==>
      BinStrToInt(CodeText(rows[k].code)) == BinValue(Low(rows[k].code, CodeBits)) by {
      forall k | 0 <= k < |rows| && AllBits(rows[k].code) {
        CodeTextValue(rows[k].code);
      }
    }
    seq(|rows|, k requires 0 <= k < |rows| => CodeText(rows[k].code))
  }

  /** CODELEN: one 5-bit line per row, read back as code_len modulo 32. */
  function LenColumn(rows: seq<Row>): (r: seq<string>)
    ensures |r| == |rows|
    ensures forall k :: 0 <= k < |rows| ==>
      |r[k]| == LenBits && AllBits(r[k]) && BinStrToInt(r[k]) == |rows[k].code| % Pow2(LenBits)
  {
    assert forall k :: 0 <= k < |rows| ==> BinStrToInt(LenText(rows[k].code)) == |rows[k].code| % Pow2(LenBits) by {
      forall k | 0 <= k < |rows| {
        LenTextValue(rows[k].code);
      }
    }
    seq(|rows|, k requires 0 <= k < |rows| => LenText(rows[k].code))
  }

  /**
   * The layout of a readable row whose code fits its 20 columns: the symbol
   * in columns 0..7, blanks to column 10, the code from column 11, blanks to
   * column 31, and a length field that atoi reads as the code's length.
   */
  predicate RowLayout(t: string, s: nat, code: string)
  {
    |t| == 34 && |code| <= 20 &&
    t[..SymBits] == SymText(s) &&
    (forall i :: SymBits <= i < 11 ==> t[i] == ' ') &&
    t[11..11 + |code|] == code &&
    (forall i :: 11 + |code| <= i < 32 ==> t[i] == ' ') &&
    Atoi(t[32..]) == |code|
  }

  /** "%2d" of a length below 100 is one or two digits, read back by atoi. */
  lemma LengthField(n: nat)
    requires n < 100
    ensures var l := PadLeft(Decimal(n), 2); |l| == 2 && Atoi(l) == n
  {
    if n >= 10 {
      assert Decimal(n) == Decimal(n / 10) + [DigitChar(n % 10)];
    }
    PaddedNumeral(Decimal(n), 2);
    AtoiOfDecimal(n, []);
    assert Decimal(n) + [] == Decimal(n);
  }

  /** Blanks padded on the left of a numeral are skipped by atoi. */
  lemma PaddedNumeral(d: string, w: nat)
    requires |d| >= 1 && AllDigits(d)
    ensures Atoi(PadLeft(d, w)) == Atoi(d)
  {
    assert !IsSpace(d[0]) by {
      assert IsDigit(d[0]);
    }
    if |d| < w {
      var sp := Spaces(w - |d|);
      assert PadLeft(d, w) == sp + d;
      SkipSpacesOver(sp, d);
    }
  }

  /** A row written for a code of at most 20 characters has the fixed layout. */
  lemma DebugTextLayout(s: nat, code: string)
    requires |code| <= 20
    ensures RowLayout(DebugText(s, code), s, code)
  {
    var sym := SymText(s);
    var a := PadRight(sym, 10);
    var c := PadRight(code, 20);
    var l := PadLeft(Decimal(|code|), 2);
    LengthField(|code|);
    assert DebugText(s, code) == a + " " + c + " " + l;
    FieldsLayout(a + " " + c + " " + l, s, code, a, c, l);
  }

  /** The layout from the three padded fields. */
  lemma FieldsLayout(t: string, s: nat, code: string, a: string, c: string, l: string)
    requires t == a + " " + c + " " + l && |code| <= 20
    requires SymText(s) <= a && |a| == 10 && forall i :: SymBits <= i < 10 ==> a[i] == ' '
    requires code <= c && |c| == 20 && forall i :: |code| <= i < 20 ==> c[i] == ' '
    requires |l| == 2 && Atoi(l) == |code|
    ensures RowLayout(t, s, code)
  {
    JoinFields(a, c, l);
    SymbolField(t, s, a);
    CodeField(t, code, c);
  }

  /** Columns 0 to 10 of a row: the symbol's bits, then blanks. */
  lemma SymbolField(t: string, s: nat, a: string)
    requires |t| == 34 && t[..10] == a && t[10] == ' '
    requires SymText(s) <= a && forall i :: SymBits <= i < 10 ==> a[i] == ' '
    ensures t[..SymBits] == SymText(s)
    ensures forall i :: SymBits <= i < 11 ==> t[i] == ' '
  {
    assert t[..SymBits] == a[..SymBits] by {
      assert t[..SymBits] == t[..10][..SymBits];
    }
    forall i | SymBits <= i < 11
      ensures t[i] == ' '
    {
      if i < 10 {
        assert t[i] == t[..10][i];
      }
    }
  }

  /** Columns 11 to 31 of a row: the code, then blanks. */
  lemma CodeField(t: string, code: string, c: string)
    requires |t| == 34 && t[11..31] == c && t[31] == ' '
    requires code <= c && |c| == 20 && forall i :: |code| <= i < 20 ==> c[i] == ' '
    ensures t[11..11 + |code|] == code
    ensures forall i :: 11 + |code| <= i < 32 ==> t[i] == ' '
  {
    assert t[11..11 + |code|] == c[..|code|] by {
      assert t[11..11 + |code|] == t[11..31][..|code|];
    }
    forall i | 11 + |code| <= i < 32
      ensures t[i] == ' '
    {
      if i < 31 {
        assert t[i] == t[11..31][i - 11];
      }
    }
  }

  /** Three fields of widths 10, 20 and 2 joined by single blanks. */
  lemma JoinFields(a: string, c: string, l: string)
    requires |a| == 10 && |c| == 20 && |l| == 2
    ensures var t := a + " " + c + " " + l;
      |t| == 34 && t[..10] == a && t[10] == ' ' && t[11..31] == c && t[31] == ' ' && t[32..] == l
  {
  }

  /** The readable codebook: one row per row, laid out in fixed columns when the code fits. */
  function DebugColumn(rows: seq<Row>): (r: seq<string>)
    ensures |r| == |rows|
    ensures forall k :: 0 <= k < |rows| && |rows[k].code| <= 20 ==>
      RowLayout(r[k], rows[k].symbol, rows[k].code)
  {
    assert forall k :: 0 <= k < |rows| && |rows[k].code| <= 20 ==>
      RowLayout(DebugText(rows[k].symbol, rows[k].code), rows[k].symbol, rows[k].code) by {
      forall k | 0 <= k < |rows| && |rows[k].code| <= 20 {
        DebugTextLayout(rows[k].symbol, rows[k].code);
      }
    }
    seq(|rows|, k requires 0 <= k < |rows| => DebugText(rows[k].symbol, rows[k].code))
  }

  function WriteRows(rows: seq<Row>): CodebookFiles
  {
    CodebookFiles(
      Unlines([HeaderTitle, HeaderRule] + DebugColumn(rows), Eol),
      Unlines(SymColumn(rows), Eol),
      Unlines(CodeColumn(rows), Eol),
      Unlines(LenColumn(rows), Eol))
  }

  /** stage_codebook_gen after parse_sym_freq_files and generate_huffman_codes. */
  function CodebookGen(ft: seq<int>, table: map<nat, string>): CodebookFiles
  {
    WriteRows(Rows(ft, table))
  }

  // ---------------------------------------------------------------------
  // Codes that do not fit the 16-bit line
  // ---------------------------------------------------------------------

  /** The first row whose code is longer than the 16-bit codeword line. */
  function FirstLong(rows: seq<Row>): (r: Option<nat>)
    ensures r.None? <==> forall k :: 0 <= k < |rows| ==> |rows[k].code| <= CodeBits
    ensures r.Some? ==> r.value < |rows| && |rows[r.value].code| > CodeBits
    ensures r.Some? ==> forall k :: 0 <= k < r.value ==> |rows[k].code| <= CodeBits
  {
    if |rows| == 0 then None
    else if |rows[0].code| > CodeBits then Some(0)
    else
      match FirstLong(rows[1..])
      case None => None
      case Some(i) => Some(i + 1)
  }

  datatype GenError = CodeTooLong(symbol: nat, length: nat)

  /**
   * The row files as they should be written: a code longer than 16
   * characters cannot be carried by the 16-bit codeword line, so the stage
   * fails on the first such row instead of writing it.  The decompression
   * program's codebook reader rejects such a code the same way.
   */
  function CheckedWriteRows(rows: seq<Row>): (r: Result<CodebookFiles, GenError>)
    ensures r.Success? <==> forall k :: 0 <= k < |rows| ==> |rows[k].code| <= CodeBits
    ensures r.Success? ==> r.value == WriteRows(rows)
    ensures r.Failure? ==> exists k :: 0 <= k < |rows| && r.error == CodeTooLong(rows[k].symbol, |rows[k].code|) && |rows[k].code| > CodeBits
  {
    match FirstLong(rows)
    case None => Success(WriteRows(rows))
    case Some(i) => Failure(CodeTooLong(rows[i].symbol, |rows[i].code|))
  }

  function CheckedCodebookGen(ft: seq<int>, table: map<nat, string>): Result<CodebookFiles, GenError>
  {
    CheckedWriteRows(Rows(ft, table))
  }
}
