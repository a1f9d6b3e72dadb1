/**
 * stage_huffman_encode as far as software goes.  The table loop reads the
 * three row files in step and hands each triple to the encoder IP as a
 * uint8 symbol, a uint32 code and a uint8 length.  The encode loop reads the
 * parsed file, one 8-bit symbol per line, asks the IP for its codeword and
 * length, and writes the low `len` bits of the codeword as a '0'/'1' line.
 * The IP itself is a parameter: the codeword and length registers it shows
 * for a symbol.
 */
module Encoder {
  import opened Wrappers
  import opened BinText
  import opened CText
  import opened LineIO
  import opened Codebook

  /** One triple of the table loop, as the registers receive it. */
  datatype Entry = Entry(symbol: nat, code: nat, len: nat)

  /**
   * binstr_to_int of each line, narrowed to the variable it is stored in.
   * The lines hold at most 31 characters, so the value fits the int the C
   * function computes in, and the uint32 code keeps all of it.
   */
  function LoadEntry(lsym: string, lcode: string, llen: string): Entry
  {
    Entry(BinStrToInt(lsym) % 256, BinStrToInt(lcode), BinStrToInt(llen) % 256)
  }

  /**
   * The table loop: `f_readline(sym) && f_readline(code) && f_readline(len)`
   * reads one line of each file per turn and stops with the first file that
   * runs out.
   */
  function LoadTable(symIn: string, codeIn: string, lenIn: string): seq<Entry>
  {
    LoadLockstep(LinesC(symIn, 0, CompLineLen), LinesC(codeIn, 0, CompLineLen), LinesC(lenIn, 0, CompLineLen))
  }

  /**
   * The turns of the table loop over the lines of the three files: as many
   * entries as the shortest file has lines, entry k from line k of each,
   * with symbol and length cut to uint8_t.
   */
  function LoadLockstep(a: seq<string>, b: seq<string>, c: seq<string>): (r: seq<Entry>)
    ensures |r| == Min(Min(|a|, |b|), |c|)
    ensures forall k :: 0 <= k < |r| ==> r[k] == LoadEntry(a[k], b[k], c[k])
    ensures forall k :: 0 <= k < |r| ==> r[k].symbol < 256 && r[k].len < 256
    decreases |a|
  {
    if |a| == 0 || |b| == 0 || |c| == 0 then []
    else [LoadEntry(a[0], b[0], c[0])] + LoadLockstep(a[1..], b[1..], c[1..])
  }

  /**
   * The line written for one symbol: cw16 = codeword & 0xFFFFFF and
   * len5 = length & 0x1F, then bits len5-1 down to 0 of cw16.
   */
  function Trimmed(cwReg: nat, lenReg: nat): string
  {
    Render(cwReg % 0x100_0000, lenReg % 32)
  }

  /** The emitted line has len5 characters and, up to 24 of them, they are the codeword's low bits. */
  lemma TrimmedBits(cwReg: nat, lenReg: nat)
    ensures |Trimmed(cwReg, lenReg)| == lenReg % 32 && AllBits(Trimmed(cwReg, lenReg))
    ensures lenReg % 32 <= 24 ==> Trimmed(cwReg, lenReg) == Render(cwReg, lenReg % 32)
  {
    var n := lenReg % 32;
    if n <= 24 {
      Pow2Values();
      RenderSuffix(cwReg % Pow2(24), n, 24 - n);
      RenderSuffix(cwReg, n, 24 - n);
      RenderMod(cwReg, 24);
    }
  }

  /** The encoder IP's answer for a symbol: its codeword and length registers. */
  type Lookup = nat -> (nat, nat)

  /**
   * The encode loop on the lines of the parsed file: one line per symbol
   * line, of as many bits as the length register's low five bits say, and,
   * up to 24 of them, the low bits of the codeword register.
   */
  function EncodeLines(lines: seq<string>, ip: Lookup): (r: seq<string>)
    ensures |r| == |lines|
    ensures forall k :: 0 <= k < |lines| ==>
      (|r[k]| == ip(BinStrToInt(lines[k]) % 256).1 % 32 && AllBits(r[k]))
    ensures forall k :: 0 <= k < |lines| && ip(BinStrToInt(lines[k]) % 256).1 % 32 <= 24 ==>
      r[k] == Render(ip(BinStrToInt(lines[k]) % 256).0, ip(BinStrToInt(lines[k]) % 256).1 % 32)
  {
    TrimmedLines(lines, ip);
    seq(|lines|, k requires 0 <= k < |lines| =>
      var answer := ip(BinStrToInt(lines[k]) % 256);
      Trimmed(answer.0, answer.1))
  }

  /** TrimmedBits for the answer to every line. */
  lemma TrimmedLines(lines: seq<string>, ip: Lookup)
    ensures forall k :: 0 <= k < |lines| && ip(BinStrToInt(lines[k]) % 256).1 % 32 <= 24 ==>
      Trimmed(ip(BinStrToInt(lines[k]) % 256).0, ip(BinStrToInt(lines[k]) % 256).1) ==
      Render(ip(BinStrToInt(lines[k]) % 256).0, ip(BinStrToInt(lines[k]) % 256).1 % 32)
  {
    forall k | 0 <= k < |lines| {
      TrimmedBits(ip(BinStrToInt(lines[k]) % 256).0, ip(BinStrToInt(lines[k]) % 256).1);
    }
  }

  /** OUTZFO.txt: one trimmed codeword line per parsed symbol line. */
  function Encode(parsed: string, ip: Lookup): string
  {
    Unlines(EncodeLines(LinesC(parsed, 0, CompLineLen), ip), Eol)
  }

  // ---------------------------------------------------------------------
  // Reading back the row files
  // ---------------------------------------------------------------------

  lemma BitsClean(s: string)
    requires AllBits(s)
    ensures Clean(s)
  {
  }

  /** A column of non-empty bit lines shorter than 31 characters reads back line for line. */
  lemma ColumnReadBack(lines: seq<string>)
    requires forall k :: 0 <= k < |lines| ==> 0 < |lines[k]| < CompLineLen - 1 && AllBits(lines[k])
    ensures LinesC(Unlines(lines, Eol), 0, CompLineLen) == lines
  {
    var u := Unlines(lines, Eol);
    forall k | 0 <= k < |lines|
      ensures Clean(lines[k])
    {
      BitsClean(lines[k]);
    }
    assert u[0..] == u;
    LinesCOfUnlines(u, 0, CompLineLen, lines, Eol);
  }

  /** The entry the table loop reads for a row. */
  function RowEntry(row: Row): Entry
  {
    Entry(row.symbol % 256, BinValue(Low(row.code, CodeBits)), |row.code| % 32)
  }

  /** One row's three lines give back the row's entry. */
  lemma RowReadBack(row: Row)
    requires AllBits(row.code)
    ensures LoadEntry(SymText(row.symbol), CodeText(row.code), LenText(row.code)) == RowEntry(row)
  {
    assert BinStrToInt(SymText(row.symbol)) == row.symbol % 256 by {
      Pow2Values();
      BinStrToIntOfRender(row.symbol, SymBits, []);
      assert SymText(row.symbol) + [] == SymText(row.symbol);
    }
    assert BinStrToInt(CodeText(row.code)) == BinValue(Low(row.code, CodeBits)) by {
      CodeTextValue(row.code);
    }
    assert BinStrToInt(LenText(row.code)) == |row.code| % 32 by {
      Pow2Values();
      LenTextValue(row.code);
    }
    ModTwice(row.symbol, 256, 256);
    ModTwice(|row.code|, 32, 256);
  }

  /** A remainder modulo m is its own remainder modulo any n >= m. */
  lemma ModTwice(v: nat, m: nat, n: nat)
    requires 0 < m <= n
    ensures (v % m) % n == v % m
  {
    DivModUnique(v % m, n, 0, v % m);
  }

  /**
   * The table loop reads back one entry per row: the symbol, the value of
   * the code's last 16 characters and the code length modulo 32.
   */
  lemma LoadRows(rows: seq<Row>)
    requires forall k :: 0 <= k < |rows| ==> AllBits(rows[k].code)
    ensures var files := WriteRows(rows);
      LoadTable(files.symIn, files.codeIn, files.lenIn) == seq(|rows|, k requires 0 <= k < |rows| => RowEntry(rows[k]))
  {
    var files := WriteRows(rows);
    assert LinesC(files.symIn, 0, CompLineLen) == SymColumn(rows) by {
      ColumnReadBack(SymColumn(rows));
    }
    assert LinesC(files.codeIn, 0, CompLineLen) == CodeColumn(rows) by {
      ColumnReadBack(CodeColumn(rows));
    }
    assert LinesC(files.lenIn, 0, CompLineLen) == LenColumn(rows) by {
      ColumnReadBack(LenColumn(rows));
    }
    var r := LoadTable(files.symIn, files.codeIn, files.lenIn);
    forall k | 0 <= k < |rows|
      ensures r[k] == RowEntry(rows[k])
    {
      RowReadBack(rows[k]);
    }
  }

  /** The entry a symbol ends up with in the IP: the last one loaded for it. */
  function LastFor(entries: seq<Entry>, s: nat): Option<Entry>
  {
    if |entries| == 0 then None
    else if entries[|entries| - 1].symbol == s then Some(entries[|entries| - 1])
    else LastFor(entries[..|entries| - 1], s)
  }

  /** An IP that answers with the entry last loaded for each loaded symbol. */
  ghost predicate Serves(ip: Lookup, entries: seq<Entry>)
  {
    forall s :: LastFor(entries, s).Some? ==> ip(s) == (LastFor(entries, s).value.code, LastFor(entries, s).value.len)
  }

  /** With each symbol loaded once, the last entry for a symbol is its only one. */
  lemma {:induction false} LastForUnique(entries: seq<Entry>, k: nat)
    requires k < |entries|
    requires forall a, b :: 0 <= a < b < |entries| ==> entries[a].symbol != entries[b].symbol
    ensures LastFor(entries, entries[k].symbol) == Some(entries[k])
  {
    var n := |entries| - 1;
    if k < n {
      LastForUnique(entries[..n], k);
    }
  }

  /** A code of at most 16 characters is emitted as itself. */
  lemma TrimmedShortCode(code: string)
    requires AllBits(code) && |code| <= CodeBits
    ensures Trimmed(BinValue(Low(code, CodeBits)), |code| % 32) == code
  {
    assert Low(code, CodeBits) == code;
    assert |code| % 32 == |code| by {
      DivModUnique(|code|, 32, 0, |code|);
    }
    assert Trimmed(BinValue(code), |code|) == Render(BinValue(code), |code|) by {
      TrimmedBits(BinValue(code), |code|);
    }
    RenderOfValue(code);
  }

  /** One parsed line whose symbol was loaded exactly once is encoded as that entry's code. */
  lemma EncodeOne(entries: seq<Entry>, j: nat, row: Row, line: string, ip: Lookup)
    requires j < |entries| && entries[j] == RowEntry(row)
    requires forall a, b :: 0 <= a < b < |entries| ==> entries[a].symbol != entries[b].symbol
    requires Serves(ip, entries)
    requires row.symbol < 256 && AllBits(row.code) && |row.code| <= CodeBits
    requires BinStrToInt(line) % 256 == row.symbol
    ensures Trimmed(ip(BinStrToInt(line) % 256).0, ip(BinStrToInt(line) % 256).1) == row.code
  {
    var key := BinStrToInt(line) % 256;
    assert entries[j].symbol == key by {
      EntrySymbol(row);
    }
    assert LastFor(entries, key) == Some(entries[j]) by {
      LastForUnique(entries, j);
    }
    assert ip(key) == (BinValue(Low(row.code, CodeBits)), |row.code| % 32);
    TrimmedShortCode(row.code);
  }

  lemma EntrySymbol(row: Row)
    requires row.symbol < 256
    ensures RowEntry(row).symbol == row.symbol
  {
  }

  /** Rows with ascending 8-bit symbols load as entries with distinct symbols. */
  lemma DistinctEntries(entries: seq<Entry>, rows: seq<Row>)
    requires |entries| == |rows| && forall j :: 0 <= j < |rows| ==> entries[j] == RowEntry(rows[j])
    requires forall k :: 0 <= k < |rows| ==> rows[k].symbol < 256
    requires forall a, b :: 0 <= a < b < |rows| ==> rows[a].symbol < rows[b].symbol
    ensures forall a, b :: 0 <= a < b < |entries| ==> entries[a].symbol != entries[b].symbol
  {
    forall a, b | 0 <= a < b < |entries|
      ensures entries[a].symbol != entries[b].symbol
    {
      EntrySymbol(rows[a]);
      EntrySymbol(rows[b]);
    }
  }

  /**
   * Round trip of the compression side: rows with distinct 8-bit symbols and
   * codes of at most 16 characters are written to the row files, loaded into
   * an IP that serves the loaded table, and every parsed line carrying one of
   * those symbols is encoded as exactly that symbol's code.
   */
  lemma EncodeRoundTrip(rows: seq<Row>, parsed: seq<string>, ip: Lookup)
    requires forall k :: 0 <= k < |rows| ==> rows[k].symbol < 256 && AllBits(rows[k].code) && |rows[k].code| <= CodeBits
    requires forall a, b :: 0 <= a < b < |rows| ==> rows[a].symbol < rows[b].symbol
    requires var files := WriteRows(rows); Serves(ip, LoadTable(files.symIn, files.codeIn, files.lenIn))
    ensures forall k, j :: 0 <= k < |parsed| && 0 <= j < |rows| && BinStrToInt(parsed[k]) % 256 == rows[j].symbol ==>
      EncodeLines(parsed, ip)[k] == rows[j].code
  {
    var files := WriteRows(rows);
    var entries := LoadTable(files.symIn, files.codeIn, files.lenIn);
    assert |entries| == |rows| && forall j :: 0 <= j < |rows| ==> entries[j] == RowEntry(rows[j]) by {
      LoadRows(rows);
    }
    DistinctEntries(entries, rows);
    forall k, j | 0 <= k < |parsed| && 0 <= j < |rows| && BinStrToInt(parsed[k]) % 256 == rows[j].symbol
      ensures EncodeLines(parsed, ip)[k] == rows[j].code
    {
      EncodeOne(entries, j, rows[j], parsed[k], ip);
    }
  }

  // ---------------------------------------------------------------------
  // Codes longer than 16 characters
  // ---------------------------------------------------------------------

  /**
   * As written, a code of 17 to 31 characters keeps its length on the
   * 5-bit line but loses its leading characters on the 16-bit line: the
   * encoder emits the last 16 characters behind zeros.
   */
  lemma LongCodeGarbled(code: string)
    requires AllBits(code) && CodeBits < |code| < 32
    ensures Trimmed(BinValue(Low(code, CodeBits)), |code| % 32) == Render(0, |code| - CodeBits) + code[|code| - CodeBits..]
  {
    var t := Low(code, CodeBits);
    var n := |code|;
    assert t == code[n - CodeBits..] && AllBits(t) && |t| == CodeBits;
    assert Trimmed(BinValue(t), n % 32) == Render(BinValue(t), n) by {
      BinValueBound(t);
      Pow2Values();
      TrimmedSmall(BinValue(t), n);
    }
    assert Render(BinValue(t), |t| + (n - CodeBits)) == Render(0, n - CodeBits) + t by {
      RenderWide(t, n - CodeBits);
    }
  }

  lemma TrimmedSmall(v: nat, n: nat)
    requires v < 0x100_0000 && n < 32
    ensures Trimmed(v, n % 32) == Render(v, n)
  {
    DivModUnique(v, 0x100_0000, 0, v);
    DivModUnique(n, 32, 0, n);
  }

  /** Seventeen '1's: the written files make the encoder emit "0" followed by sixteen '1's. */
  lemma LongCodeCounterexample()
    ensures var code := Render(0x1_FFFF, 17);
      AllBits(code) && |code| == 17 &&
      Trimmed(BinValue(Low(code, CodeBits)), |code| % 32) != code
  {
    var code := Render(0x1_FFFF, 17);
    var out := Trimmed(BinValue(Low(code, CodeBits)), |code| % 32);
    LongCodeGarbled(code);
    RenderZero(1);
    assert out[0] == '0';
    RenderBit(0x1_FFFF, 17, 0);
    Pow2Values();
    Pow2Add(16, 0);
    assert code[0] == '1';
  }

  /**
   * The corrected stage: whenever it writes the row files, every loaded
   * symbol is encoded as exactly its code.
   */
  lemma CheckedEncodeRoundTrip(rows: seq<Row>, parsed: seq<string>, ip: Lookup)
    requires forall k :: 0 <= k < |rows| ==> rows[k].symbol < 256 && AllBits(rows[k].code)
    requires forall a, b :: 0 <= a < b < |rows| ==> rows[a].symbol < rows[b].symbol
    requires CheckedWriteRows(rows).Success?
    requires var files := CheckedWriteRows(rows).value; Serves(ip, LoadTable(files.symIn, files.codeIn, files.lenIn))
    ensures forall k, j :: 0 <= k < |parsed| && 0 <= j < |rows| && BinStrToInt(parsed[k]) % 256 == rows[j].symbol ==>
      EncodeLines(parsed, ip)[k] == rows[j].code
  {
    EncodeRoundTrip(rows, parsed, ip);
  }
}
