/**
 * The last three stages of the decompression program, with the two IPs it
 * drives as parameters:
 *   - load_huffman_table_from_files hands each 8/16/5-bit triple of the
 *     regenerated SYMIN, CODEWIN and CODELEN files to the decompressor's
 *     table;
 *   - decompress_from_files hands each 16/5-bit pair of OUTCW and OUTLEN to
 *     the decompressor and writes the symbol it answers, in 8 bits, to
 *     PARRGN;
 *   - merge_symbols_to_words collects the 8-bit lines of PARRGN four at a
 *     time for the bit merger and writes each merged word, in 32 bits, to
 *     MERGED; a trailing group of fewer than four is dropped.
 * The polling of the table load is modelled separately.
 */
module Decoding {
  import opened Wrappers
  import opened BinText
  import opened LineIO
  import opened Codebook
  import opened Encoder
  import opened TableParse

  // ---------------------------------------------------------------------
  // Loading the decompressor's table
  // ---------------------------------------------------------------------

  /** The widths the table loop insists on: 8-bit symbol, 16-bit codeword, 5-bit length. */
  predicate TripleWidths(lsym: string, lcode: string, llen: string)
  {
    |lsym| == SymBits && |lcode| == CodeBits && |llen| == LenBits
  }

  /**
   * The table loop over the lines of the three files read in lockstep: it
   * ends with the shortest file and skips triples of the wrong widths.
   */
  function LoadTriples(a: seq<string>, b: seq<string>, c: seq<string>): (r: seq<Entry>)
    ensures |r| <= |a| && |r| <= |b| && |r| <= |c|
  {
    if |a| == 0 || |b| == 0 || |c| == 0 then []
    else
      (if TripleWidths(a[0], b[0], c[0]) then [LoadEntry(a[0], b[0], c[0])] else []) +
      LoadTriples(a[1..], b[1..], c[1..])
  }

  /** load_huffman_table_from_files on the contents of SYMIN, CODEWIN and CODELEN. */
  function LoadDecoderTable(files: TableFiles): seq<Entry>
  {
    LoadTriples(LinesD(files.symIn, 0, DecompLineLen), LinesD(files.codeIn, 0, DecompLineLen),
                LinesD(files.lenIn, 0, DecompLineLen))
  }

  /** Triple k exists in all three files and has the right widths. */
  predicate ValidAt(a: seq<string>, b: seq<string>, c: seq<string>, k: nat)
  {
    k < |a| && k < |b| && k < |c| && TripleWidths(a[k], b[k], c[k])
  }

  /** An entry is loaded exactly when some triple of the right widths gives it. */
  lemma {:induction false} LoadTriplesMembers(a: seq<string>, b: seq<string>, c: seq<string>, e: Entry)
    ensures e in LoadTriples(a, b, c) <==> exists k: nat :: ValidAt(a, b, c, k) && e == LoadEntry(a[k], b[k], c[k])
    decreases |a|
  {
    if |a| > 0 && |b| > 0 && |c| > 0 {
      var a', b', c' := a[1..], b[1..], c[1..];
      LoadTriplesMembers(a', b', c', e);
      if e in LoadTriples(a', b', c') {
        var k: nat :| ValidAt(a', b', c', k) && e == LoadEntry(a'[k], b'[k], c'[k]);
        assert ValidAt(a, b, c, k + 1) && e == LoadEntry(a[k + 1], b[k + 1], c[k + 1]);
      }
      if exists k: nat :: ValidAt(a, b, c, k) && e == LoadEntry(a[k], b[k], c[k]) {
        var k: nat :| ValidAt(a, b, c, k) && e == LoadEntry(a[k], b[k], c[k]);
        if k > 0 {
          assert ValidAt(a', b', c', k - 1) && e == LoadEntry(a'[k - 1], b'[k - 1], c'[k - 1]);
        }
      }
    } else {
      assert forall k: nat :: !ValidAt(a, b, c, k);
    }
  }

  /** binstr_to_int of a line of w characters is below 2^w. */
  lemma WidthBound(s: string, w: nat)
    requires |s| == w
    ensures BinStrToInt(s) < Pow2(w)
  {
    var t := LeadingBits(s);
    BinValueBound(t);
    Pow2Monotone(|t|, w);
  }

  /** Every loaded entry fits its register: a byte, 16 bits and 5 bits. */
  lemma LoadedInRange(a: seq<string>, b: seq<string>, c: seq<string>)
    ensures forall e :: e in LoadTriples(a, b, c) ==> e.symbol < 0x100 && e.code < 0x1_0000 && e.len < 32
  {
    forall e | e in LoadTriples(a, b, c)
      ensures e.symbol < 0x100 && e.code < 0x1_0000 && e.len < 32
    {
      LoadTriplesMembers(a, b, c, e);
      var k: nat :| ValidAt(a, b, c, k) && e == LoadEntry(a[k], b[k], c[k]);
      Pow2Values();
      WidthBound(b[k], CodeBits);
      WidthBound(c[k], LenBits);
      DivModUnique(BinStrToInt(c[k]), 256, 0, BinStrToInt(c[k]));
    }
  }

  /** When all three files have the same number of lines, all of the right widths, every triple is loaded in order. */
  lemma {:induction false} LoadTriplesAll(a: seq<string>, b: seq<string>, c: seq<string>)
    requires |a| == |b| == |c|
    requires forall k :: 0 <= k < |a| ==> TripleWidths(a[k], b[k], c[k])
    ensures LoadTriples(a, b, c) == seq(|a|, k requires 0 <= k < |a| => LoadEntry(a[k], b[k], c[k]))
    decreases |a|
  {
    if |a| > 0 {
      LoadTriplesAll(a[1..], b[1..], c[1..]);
    }
  }

  /** A column of non-empty bit lines shorter than 255 characters reads back line for line. */
  lemma BitColumnReadBack(lines: seq<string>)
    requires forall k :: 0 <= k < |lines| ==> 0 < |lines[k]| < DecompLineLen - 1 && AllBits(lines[k])
    ensures LinesD(Unlines(lines, Eol), 0, DecompLineLen) == lines
  {
    forall k | 0 <= k < |lines|
      ensures Clean(lines[k])
    {
      BitsClean(lines[k]);
    }
    LinesDRoundTrip(lines, Eol, DecompLineLen);
  }

  /**
   * Both programs load the same table: from the row files the compression
   * program writes, the decompression loop reads, one per row, the entries
   * the compression loop reads.
   */
  lemma DecoderTableMatches(rows: seq<Row>)
    requires forall k :: 0 <= k < |rows| ==> AllBits(rows[k].code)
    ensures var files := WriteRows(rows);
      LoadDecoderTable(TableFiles(files.symIn, files.codeIn, files.lenIn)) == LoadTable(files.symIn, files.codeIn, files.lenIn)
  {
    var files := WriteRows(rows);
    var a, b, c := SymColumn(rows), CodeColumn(rows), LenColumn(rows);
    assert LinesD(files.symIn, 0, DecompLineLen) == a by {
      BitColumnReadBack(a);
    }
    assert LinesD(files.codeIn, 0, DecompLineLen) == b by {
      BitColumnReadBack(b);
    }
    assert LinesD(files.lenIn, 0, DecompLineLen) == c by {
      BitColumnReadBack(c);
    }
    LoadTriplesAll(a, b, c);
    LoadRows(rows);
    forall k | 0 <= k < |rows|
      ensures LoadEntry(a[k], b[k], c[k]) == RowEntry(rows[k])
    {
      RowReadBack(rows[k]);
    }
  }

  /**
   * From the readable codebook alone, the decompression program loads into
   * its IP the table the compression program loaded into its own.
   */
  lemma CodebookLoadsTable(rows: seq<Row>)
    requires ShortCodes(rows)
    ensures var files := WriteRows(rows);
      RegenerateTable(files.codebook).Success? &&
      LoadDecoderTable(RegenerateTable(files.codebook).value) == LoadTable(files.symIn, files.codeIn, files.lenIn)
  {
    TableRoundTrip(rows);
    DecoderTableMatches(rows);
  }

  // ---------------------------------------------------------------------
  // Decoding the stream
  // ---------------------------------------------------------------------

  /** The decompressor IP: from the codeword and length registers, the symbol register. */
  type Decoder = (nat, nat) -> nat

  /** The widths the decode loop insists on: a 16-bit codeword and a 5-bit length. */
  predicate PairWidths(lcode: string, llen: string)
  {
    |lcode| == CodeBits && |llen| == LenBits
  }

  /** The symbol line written for one pair: the low byte of the answer, in 8 bits. */
  function SymbolLine(ip: Decoder, lcode: string, llen: string): (r: string)
    ensures |r| == SymBits && AllBits(r)
  {
    Render(ip(BinStrToInt(lcode), BinStrToInt(llen) % 256) % 256, SymBits)
  }

  /**
   * The decode loop over OUTCW and OUTLEN read in lockstep: it ends with
   * the shorter file and skips pairs of the wrong widths.
   */
  function DecodePairs(cw: seq<string>, ln: seq<string>, ip: Decoder): (r: seq<string>)
    ensures |r| <= |cw| && |r| <= |ln|
    ensures forall k :: 0 <= k < |r| ==> |r[k]| == SymBits && AllBits(r[k])
  {
    if |cw| == 0 || |ln| == 0 then []
    else
      (if PairWidths(cw[0], ln[0]) then [SymbolLine(ip, cw[0], ln[0])] else []) + DecodePairs(cw[1..], ln[1..], ip)
  }

  /** decompress_from_files: the content of PARRGN. */
  function Decompress(files: StreamFiles, ip: Decoder): string
  {
    Unlines(DecodePairs(LinesD(files.codeOut, 0, DecompLineLen), LinesD(files.lenOut, 0, DecompLineLen), ip), Eol)
  }

  /** Every pair of the right widths is decoded, in order, and nothing else. */
  lemma {:induction false} DecodePairsAll(cw: seq<string>, ln: seq<string>, ip: Decoder)
    requires |cw| == |ln| && forall k :: 0 <= k < |cw| ==> PairWidths(cw[k], ln[k])
    ensures DecodePairs(cw, ln, ip) == seq(|cw|, k requires 0 <= k < |cw| => SymbolLine(ip, cw[k], ln[k]))
    decreases |cw|
  {
    if |cw| > 0 {
      DecodePairsAll(cw[1..], ln[1..], ip);
    }
  }

  /** A symbol line is written exactly for some reached pair of the right widths. */
  lemma {:induction false} DecodePairsMembers(cw: seq<string>, ln: seq<string>, ip: Decoder, l: string)
    ensures l in DecodePairs(cw, ln, ip) <==>
      exists k: nat :: k < |cw| && k < |ln| && PairWidths(cw[k], ln[k]) && l == SymbolLine(ip, cw[k], ln[k])
    decreases |cw|
  {
    if |cw| > 0 && |ln| > 0 {
      var cw', ln' := cw[1..], ln[1..];
      DecodePairsMembers(cw', ln', ip, l);
      if l in DecodePairs(cw', ln', ip) {
        var k: nat :| k < |cw'| && k < |ln'| && PairWidths(cw'[k], ln'[k]) && l == SymbolLine(ip, cw'[k], ln'[k]);
        assert cw[k + 1] == cw'[k] && ln[k + 1] == ln'[k];
      }
      if exists k: nat :: k < |cw| && k < |ln| && PairWidths(cw[k], ln[k]) && l == SymbolLine(ip, cw[k], ln[k]) {
        var k: nat :| k < |cw| && k < |ln| && PairWidths(cw[k], ln[k]) && l == SymbolLine(ip, cw[k], ln[k]);
        if k > 0 {
          assert cw'[k - 1] == cw[k] && ln'[k - 1] == ln[k];
        }
      }
    }
  }

  /**
   * The loop takes the pairs one at a time: on files read in two parts of
   * equal length it writes the lines of the first part, then those of the
   * second.
   */
  lemma {:induction false} DecodePairsAppend(cw1: seq<string>, ln1: seq<string>, cw2: seq<string>, ln2: seq<string>, ip: Decoder)
    requires |cw1| == |ln1|
    ensures DecodePairs(cw1 + cw2, ln1 + ln2, ip) == DecodePairs(cw1, ln1, ip) + DecodePairs(cw2, ln2, ip)
    decreases |cw1|
  {
    if |cw1| == 0 {
      assert cw1 + cw2 == cw2 && ln1 + ln2 == ln2;
    } else {
      assert (cw1 + cw2)[1..] == cw1[1..] + cw2 && (ln1 + ln2)[1..] == ln1[1..] + ln2;
      DecodePairsAppend(cw1[1..], ln1[1..], cw2, ln2, ip);
    }
  }

  /** A pair of the wrong widths, wherever it stands, adds nothing to the output. */
  lemma DecodePairsSkips(cw1: seq<string>, ln1: seq<string>, x: string, y: string,
                         cw2: seq<string>, ln2: seq<string>, ip: Decoder)
    requires |cw1| == |ln1| && !PairWidths(x, y)
    ensures DecodePairs(cw1 + [x] + cw2, ln1 + [y] + ln2, ip) == DecodePairs(cw1 + cw2, ln1 + ln2, ip)
  {
    assert cw1 + [x] + cw2 == cw1 + ([x] + cw2) && ln1 + [y] + ln2 == ln1 + ([y] + ln2);
    DecodePairsAppend(cw1, ln1, [x] + cw2, [y] + ln2, ip);
    DecodePairsAppend(cw1, ln1, cw2, ln2, ip);
    assert DecodePairs([x] + cw2, [y] + ln2, ip) == DecodePairs(cw2, ln2, ip) by {
      assert ([x] + cw2)[1..] == cw2 && ([y] + ln2)[1..] == ln2;
    }
  }

  /** The decompressor sees each codeword of the stream as its value and its length. */
  lemma PairOfCode(b: string, ip: Decoder)
    requires 0 < |b| <= CodeBits && AllBits(b)
    ensures SymbolLine(ip, Render(BinValue(b), CodeBits), Render(|b|, LenBits)) == Render(ip(BinValue(b), |b|), SymBits)
  {
    PairDeterminesCode(b);
    DivModUnique(|b|, 256, 0, |b|);
    Pow2Values();
    RenderMod(ip(BinValue(b), |b|), SymBits);
  }

  /** The answers to the codewords of a stream, each written as one 8-bit line. */
  function Answers(o: seq<string>, ip: Decoder): (r: seq<string>)
    ensures |r| == |o| && forall k :: 0 <= k < |o| ==> r[k] == Render(ip(BinValue(o[k]), |o[k]|), SymBits)
  {
    seq(|o|, k requires 0 <= k < |o| => Render(ip(BinValue(o[k]), |o[k]|), SymBits))
  }

  /** The pairs written for a stream of codewords decode to the answers for those codewords. */
  lemma DecodeStreamLines(o: seq<string>, ip: Decoder)
    requires forall k :: 0 <= k < |o| ==> 0 < |o[k]| <= CodeBits && AllBits(o[k])
    ensures DecodePairs(StreamCodeLines(o), StreamLenLines(o), ip) == Answers(o, ip)
  {
    var cw, ln := StreamCodeLines(o), StreamLenLines(o);
    DecodePairsAll(cw, ln, ip);
    forall k | 0 <= k < |o|
      ensures SymbolLine(ip, cw[k], ln[k]) == Answers(o, ip)[k]
    {
      PairOfCode(o[k], ip);
    }
  }

  /**
   * The stream file of the bundle is decoded codeword by codeword: the
   * decompressor is asked once per line, with the line's value and length,
   * and each answer's low byte is written as one 8-bit line.
   */
  lemma StreamDecodes(o: seq<string>, ip: Decoder)
    requires forall k :: 0 <= k < |o| ==> 0 < |o[k]| <= CodeBits && AllBits(o[k])
    ensures RegenerateStream(Unlines(o, Eol)).Success?
    ensures Decompress(RegenerateStream(Unlines(o, Eol)).value, ip) == Unlines(Answers(o, ip), Eol)
  {
    var cw, ln := StreamCodeLines(o), StreamLenLines(o);
    var files := StreamFiles(Unlines(cw, Eol), Unlines(ln, Eol));
    assert RegenerateStream(Unlines(o, Eol)) == Success(files) by {
      StreamRoundTrip(o);
    }
    assert LinesD(files.codeOut, 0, DecompLineLen) == cw by {
      BitColumnReadBack(cw);
    }
    assert LinesD(files.lenOut, 0, DecompLineLen) == ln by {
      BitColumnReadBack(ln);
    }
    DecodeStreamLines(o, ip);
  }

  /** The decompressor inverts the table: each row's code, as value and length, gives back its symbol. */
  ghost predicate Inverts(ip: Decoder, rows: seq<Row>)
  {
    forall j :: 0 <= j < |rows| ==> ip(BinValue(rows[j].code), |rows[j].code|) == rows[j].symbol
  }

  /** An 8-bit symbol line, as the parse stage writes them. */
  predicate SymbolText(l: string) { |l| == SymBits && AllBits(l) }

  /** One symbol line of the table comes back from its code. */
  lemma SymbolComesBack(line: string, row: Row, code: string, ip: Decoder)
    requires SymbolText(line) && BinValue(line) == row.symbol
    requires code == row.code && ip(BinValue(code), |code|) == row.symbol
    ensures Render(ip(BinValue(code), |code|), SymBits) == line
  {
    RenderOfValue(line);
  }

  /**
   * The setting of the round trip: a table of distinct symbols with
   * non-empty codes of at most 16 bits, an encoder that serves the table the
   * compressor loads from it, a decoder that inverts it, and symbol lines
   * whose symbols are all in the table.
   */
  ghost predicate RoundTripCase(rows: seq<Row>, parsed: seq<string>, enc: Lookup, dec: Decoder)
  {
    && (forall k :: 0 <= k < |rows| ==> rows[k].symbol < 256 && AllBits(rows[k].code) && 0 < |rows[k].code| <= CodeBits)
    && (forall a, b :: 0 <= a < b < |rows| ==> rows[a].symbol < rows[b].symbol)
    && (var files := WriteRows(rows); Serves(enc, LoadTable(files.symIn, files.codeIn, files.lenIn)))
    && Inverts(dec, rows)
    && (forall k :: 0 <= k < |parsed| ==> SymbolText(parsed[k]))
    && (forall k :: 0 <= k < |parsed| ==> exists j :: 0 <= j < |rows| && rows[j].symbol == BinValue(parsed[k]))
  }

  /**
   * Round trip through both IPs: symbol lines whose symbols are all in a
   * table of distinct symbols with non-empty codes of at most 16 bits are
   * encoded by a compressor that serves the loaded table, and decoded by a
   * decompressor that inverts it, into the same symbol lines.
   */
  lemma SymbolsRoundTrip(rows: seq<Row>, parsed: seq<string>, enc: Lookup, dec: Decoder)
    requires RoundTripCase(rows, parsed, enc, dec)
    ensures var o := EncodeLines(parsed, enc);
      RegenerateStream(Unlines(o, Eol)).Success? &&
      Decompress(RegenerateStream(Unlines(o, Eol)).value, dec) == Unlines(parsed, Eol)
  {
    EncodedSymbols(rows, parsed, enc, dec);
    DecodesBack(EncodeLines(parsed, enc), parsed, dec);
  }

  /** A stream of short codewords whose answers are the symbol lines decompresses to them. */
  lemma DecodesBack(o: seq<string>, parsed: seq<string>, dec: Decoder)
    requires forall k :: 0 <= k < |o| ==> 0 < |o[k]| <= CodeBits && AllBits(o[k])
    requires Answers(o, dec) == parsed
    ensures RegenerateStream(Unlines(o, Eol)).Success?
    ensures Decompress(RegenerateStream(Unlines(o, Eol)).value, dec) == Unlines(parsed, Eol)
  {
    StreamDecodes(o, dec);
  }

  /** Through the two IPs, each symbol line becomes a short codeword and comes back. */
  lemma EncodedSymbols(rows: seq<Row>, parsed: seq<string>, enc: Lookup, dec: Decoder)
    requires RoundTripCase(rows, parsed, enc, dec)
    ensures var o := EncodeLines(parsed, enc);
      (forall k :: 0 <= k < |o| ==> 0 < |o[k]| <= CodeBits && AllBits(o[k])) && Answers(o, dec) == parsed
  {
    var o := EncodeLines(parsed, enc);
    EncodeRoundTrip(rows, parsed, enc);
    forall k | 0 <= k < |parsed|
      ensures BinStrToInt(parsed[k]) % 256 == BinValue(parsed[k])
    {
      ByteKey(parsed[k]);
    }
    AnswersBack(rows, parsed, o, dec);
  }

  /**
   * Lines that each carry the code of the row of their symbol are short
   * codewords, and a decoder that inverts the rows answers them with the
   * symbol lines.
   */
  lemma AnswersBack(rows: seq<Row>, parsed: seq<string>, o: seq<string>, dec: Decoder)
    requires forall j :: 0 <= j < |rows| ==> AllBits(rows[j].code) && 0 < |rows[j].code| <= CodeBits
    requires Inverts(dec, rows)
    requires forall k :: 0 <= k < |parsed| ==> SymbolText(parsed[k])
    requires forall k :: 0 <= k < |parsed| ==> exists j :: 0 <= j < |rows| && rows[j].symbol == BinValue(parsed[k])
    requires |o| == |parsed|
    requires forall k, j :: 0 <= k < |parsed| && 0 <= j < |rows| && BinValue(parsed[k]) == rows[j].symbol ==>
      o[k] == rows[j].code
    ensures forall k :: 0 <= k < |o| ==> 0 < |o[k]| <= CodeBits && AllBits(o[k])
    ensures Answers(o, dec) == parsed
  {
    forall k | 0 <= k < |parsed|
      ensures 0 < |o[k]| <= CodeBits && AllBits(o[k])
      ensures Answers(o, dec)[k] == parsed[k]
    {
      var j :| 0 <= j < |rows| && rows[j].symbol == BinValue(parsed[k]);
      SymbolComesBack(parsed[k], rows[j], o[k], dec);
    }
  }

  /** The key the encoder looks a symbol line up by is the line's value. */
  lemma ByteKey(line: string)
    requires SymbolText(line)
    ensures BinStrToInt(line) % 256 == BinValue(line)
  {
    LeadingBitsOfBits(line, []);
    assert line + [] == line;
    BinValueBound(line);
    Pow2Values();
    DivModUnique(BinValue(line), 256, 0, BinValue(line));
  }

  // ---------------------------------------------------------------------
  // Merging symbols into words
  // ---------------------------------------------------------------------

  /** A PARRGN line the merge loop takes: a bit string of exactly eight characters. */
  predicate ByteText(l: string) { IsBinStr(l) && |l| == SymBits }

  /** The bytes the merge loop collects from its lines, in order. */
  function ByteValues(lines: seq<string>): (r: seq<nat>)
    ensures |r| <= |lines|
  {
    if |lines| == 0 then []
    else
      var n := |lines| - 1;
      ByteValues(lines[..n]) + (if ByteText(lines[n]) then [BinStrToByte(lines[n])] else [])
  }

  /** One more line read adds its byte, if the line is taken. */
  lemma ByteValuesStep(lines: seq<string>, i: nat)
    requires i < |lines|
    ensures ByteValues(lines[..i + 1]) ==
      ByteValues(lines[..i]) + (if ByteText(lines[i]) then [BinStrToByte(lines[i])] else [])
  {
    assert lines[..i + 1][..i] == lines[..i];
  }

  /** The bit merger IP: four bytes in, one 32-bit word out. */
  type Merger = (nat, nat, nat, nat) -> nat

  /** Each full group of four bytes merged and written in 32 bits; a shorter tail is dropped. */
  function MergeGroups(bs: seq<nat>, ip: Merger): (r: seq<string>)
    ensures |r| == |bs| / 4
    decreases |bs|
  {
    if |bs| < 4 then [] else [Render(ip(bs[0], bs[1], bs[2], bs[3]), Codebook.WordBits)] + MergeGroups(bs[4..], ip)
  }

  /** One more full group adds one word at the end. */
  lemma {:induction false} MergeGroupsSnoc(done: seq<nat>, g: seq<nat>, ip: Merger)
    requires |done| % 4 == 0 && |g| == 4
    ensures MergeGroups(done + g, ip) == MergeGroups(done, ip) + [Render(ip(g[0], g[1], g[2], g[3]), Codebook.WordBits)]
    decreases |done|
  {
    if |done| > 0 {
      assert (done + g)[4..] == done[4..] + g;
      MergeGroupsSnoc(done[4..], g, ip);
    } else {
      assert done + g == g;
    }
  }

  /** A tail of fewer than four bytes adds nothing. */
  lemma {:induction false} MergeGroupsTail(done: seq<nat>, tail: seq<nat>, ip: Merger)
    requires |done| % 4 == 0 && |tail| < 4
    ensures MergeGroups(done + tail, ip) == MergeGroups(done, ip)
    decreases |done|
  {
    if |done| > 0 {
      assert (done + tail)[4..] == done[4..] + tail;
      MergeGroupsTail(done[4..], tail, ip);
    } else {
      assert done + tail == tail;
    }
  }

  /**
   * merge_symbols_to_words on the lines of PARRGN: the loop keeps the
   * symbols of the accepted lines in a four-slot buffer and hands a full
   * buffer to the merger.
   */
  method MergeSymbols(lines: seq<string>, ip: Merger) returns (out: seq<string>)
    ensures out == MergeGroups(ByteValues(lines), ip)
    ensures |out| == |ByteValues(lines)| / 4
  {
    out := [];
    var symbols: seq<nat> := [];
    ghost var done: seq<nat> := [];
    ghost var seen: seq<nat> := [];
    var i := 0;
    while i < |lines|
      invariant 0 <= i <= |lines|
      invariant seen == ByteValues(lines[..i])
      invariant |symbols| < 4 && |done| % 4 == 0 && seen == done + symbols
      invariant out == MergeGroups(done, ip)
    {
      ByteValuesStep(lines, i);
      if ByteText(lines[i]) {
        var b := BinStrToByte(lines[i]);
        seen := seen + [b];
        assert seen == done + (symbols + [b]);
        symbols := symbols + [b];
        if |symbols| == 4 {
          MergeGroupsSnoc(done, symbols, ip);
          out := out + [Render(ip(symbols[0], symbols[1], symbols[2], symbols[3]), Codebook.WordBits)];
          done := done + symbols;
          symbols := [];
          assert seen == done + symbols;
        }
      }
      i := i + 1;
    }
    assert lines[..|lines|] == lines;
    MergeGroupsTail(done, symbols, ip);
  }

  /** merge_symbols_to_words: the content of MERGED. */
  function Merge(parrgn: string, ip: Merger): string
  {
    Unlines(MergeGroups(ByteValues(LinesD(parrgn, 0, DecompLineLen)), ip), Eol)
  }

  /** Lines that are all 8-bit symbol lines give their values, in order. */
  lemma {:induction false} ByteValuesOfSymbols(lines: seq<string>)
    requires forall k :: 0 <= k < |lines| ==> SymbolText(lines[k])
    ensures ByteValues(lines) == seq(|lines|, k requires 0 <= k < |lines| => BinValue(lines[k]))
  {
    if |lines| > 0 {
      var n := |lines| - 1;
      ByteValuesOfSymbols(lines[..n]);
      BinStrToByteOfByteLine(lines[n]);
    }
  }

  /**
   * PARRGN as the decode loop writes it is read back by the merge loop as
   * the decoded symbols, and merged into one word per four of them.
   */
  lemma MergeOfSymbols(lines: seq<string>, ip: Merger)
    requires forall k :: 0 <= k < |lines| ==> SymbolText(lines[k])
    ensures Merge(Unlines(lines, Eol), ip) ==
      Unlines(MergeGroups(seq(|lines|, k requires 0 <= k < |lines| => BinValue(lines[k])), ip), Eol)
    ensures |MergeGroups(ByteValues(LinesD(Unlines(lines, Eol), 0, DecompLineLen)), ip)| == |lines| / 4
  {
    BitColumnReadBack(lines);
    ByteValuesOfSymbols(lines);
  }
}
