/**
 * The files between the frequency stage and the codebook stage.
 *
 * stage_freq_counter reads each symbol's count back from the frequency
 * counter (masked to its 24 counter bits) and, for every symbol 0..255 with a
 * positive count, writes a report row to FREQ, the symbol's 8 bits to SYM and
 * the count in decimal to COUNT.  parse_sym_freq_files reads SYM and COUNT
 * back in step into freq_table.
 */
module FreqFiles {
  import opened Wrappers
  import opened BinText
  import opened CText
  import opened Packing

  const MaxSymbols: nat := 256
  const CountMask: nat := 0x100_0000
  /** The line buffers of parse_sym_freq_files hold 31 characters and a NUL. */
  const FieldRoom: nat := 31

  /** read_symbol_frequency for every symbol: the counter register's low 24 bits. */
  function FreqTable(counter: nat -> nat): (ft: seq<nat>)
    ensures |ft| == MaxSymbols
    ensures forall s :: 0 <= s < MaxSymbols ==> ft[s] < CountMask
    ensures forall s :: 0 <= s < MaxSymbols && counter(s) < CountMask ==> ft[s] == counter(s)
  {
    seq(MaxSymbols, s requires 0 <= s < MaxSymbols => counter(s) % CountMask)
  }

  // ---------------------------------------------------------------------
  // Writing: one row per symbol with a positive count, in symbol order
  // ---------------------------------------------------------------------

  /** get_binary_string: the symbol's eight bits. */
  function SymLine(s: nat): string
  {
    Render(s, 8)
  }

  /** The symbol file from symbol i on: eight bits and "\n" per listed symbol. */
  function SymFrom(ft: seq<nat>, i: nat): string
    decreases |ft| - i
  {
    if i >= |ft| then []
    else (if ft[i] > 0 then SymLine(i) + "\n" else []) + SymFrom(ft, i + 1)
  }

  /** The count file from symbol i on: "%u\n" per listed symbol. */
  function CountFrom(ft: seq<nat>, i: nat): string
    decreases |ft| - i
  {
    if i >= |ft| then []
    else (if ft[i] > 0 then Decimal(ft[i]) + "\n" else []) + CountFrom(ft, i + 1)
  }

  /** One FREQ report row, "%s        %u\r\n". */
  function FreqRow(s: nat, f: nat): string
  {
    Render(s, 8) + (Spaces(8) + (Decimal(f) + "\r\n"))
  }

  function FreqRowsFrom(ft: seq<nat>, i: nat): string
    decreases |ft| - i
  {
    if i >= |ft| then []
    else (if ft[i] > 0 then FreqRow(i, ft[i]) else []) + FreqRowsFrom(ft, i + 1)
  }

  const FreqTitle: string := "Symbol        Frequency\r\n"
  const FreqRule: string := "-------------------------\r\n"

  datatype FreqOutput = FreqOutput(symbols: seq<nat>, freqReport: string, symFile: string, countFile: string)

  /**
   * stage_freq_counter.  The symbols are what it hands to the counter; the
   * counter itself is the parameter `counter`, read after all symbols went in.
   * An empty parsed file is an error and nothing is written.
   */
  method FreqStage(file: string, counter: nat -> nat) returns (r: Result<FreqOutput, StageError>)
    ensures r.Failure? <==> |file| == 0
    ensures r.Success? ==> r.value.symbols == Values(Blocks(BitsOf(file), SymbolBits))
    ensures r.Success? ==> forall k :: 0 <= k < |r.value.symbols| ==> r.value.symbols[k] < 256
    ensures r.Success? ==> var ft := FreqTable(counter);
      && r.value.freqReport == FreqTitle + FreqRule + FreqRowsFrom(ft, 0)
      && r.value.symFile == SymFrom(ft, 0) && r.value.countFile == CountFrom(ft, 0)
  {
    var symbols := FreqSymbols(file);
    if symbols.Failure? {
      return Failure(symbols.error);
    }
    BlocksCover(BitsOf(file), SymbolBits);
    Pow2Values();
    ValuesBound(Blocks(BitsOf(file), SymbolBits), SymbolBits);
    var ft := FreqTable(counter);
    r := Success(FreqOutput(symbols.value, FreqTitle + FreqRule + FreqRowsFrom(ft, 0), SymFrom(ft, 0), CountFrom(ft, 0)));
  }

  /** A report row gives back its symbol to strtol(.., 2) and its count to atoi after the padding. */
  lemma FreqRowReadBack(s: nat, f: nat)
    requires s < 256
    ensures Strtol2(FreqRow(s, f)) == s && Atoi(FreqRow(s, f)[8..]) == f
  {
    Pow2Values();
    PaddedRowReadBack(s, 8, 8, f);
  }

  /** A w-bit symbol, `pad` spaces, a count and "\r\n" read back field by field. */
  lemma PaddedRowReadBack(s: nat, w: nat, pad: nat, f: nat)
    requires w > 0 && s < Pow2(w) && pad > 0
    ensures var row := Render(s, w) + (Spaces(pad) + (Decimal(f) + "\r\n"));
      Strtol2(row) == s && Atoi(row[w..]) == f
  {
    var tail := Spaces(pad) + (Decimal(f) + "\r\n");
    var row := Render(s, w) + tail;
    assert row[w..] == tail;
    assert Strtol2(row) == s by {
      assert tail[0] == ' ';
      RenderReadBack(s, w, tail);
    }
    CountAfterPad(Spaces(pad), f, "\r\n");
  }

  /** atoi skips the padding and reads the count. */
  lemma CountAfterPad(sp: string, f: nat, rest: string)
    requires forall i :: 0 <= i < |sp| ==> sp[i] == ' '
    requires |rest| == 0 || !IsDigit(rest[0])
    ensures Atoi(sp + (Decimal(f) + rest)) == f
  {
    var d := Decimal(f) + rest;
    var x := sp + d;
    assert SkipSpaces(x) == d by {
      assert d[0] == Decimal(f)[0];
      SkipSpacesOver(sp, d);
    }
    assert Atoi(x) == Atoi(d) by {
      AtoiAfterSpaces(x);
    }
    AtoiOfDecimal(f, rest);
  }

  /** strtol(.., 2) reads back a w-bit rendering of a value below 2^w. */
  lemma RenderReadBack(v: nat, w: nat, rest: string)
    requires w > 0 && v < Pow2(w)
    requires |rest| == 0 || !IsBit(rest[0])
    ensures Strtol2(Render(v, w) + rest) == v
  {
    Strtol2OfBits(Render(v, w), rest);
    ValueOfRender(v, w);
    DivModUnique(v, Pow2(w), 0, v);
  }

  // ---------------------------------------------------------------------
  // Reading back: parse_sym_freq_files
  // ---------------------------------------------------------------------

  datatype Field = Field(text: string, stop: nat)

  /**
   * One capped field read: copies characters other than '\r' until '\n', the
   * end of the buffer or `room` copied characters; `stop` is where it stopped.
   */
  function Scan(buf: string, room: nat): (r: Field)
    ensures |r.text| <= room && r.stop <= |buf|
    ensures forall k :: 0 <= k < |r.text| ==> r.text[k] != '\r' && r.text[k] != '\n'
    decreases |buf|
  {
    if |buf| == 0 || buf[0] == '\n' || room == 0 then Field([], 0)
    else if buf[0] == '\r' then var f := Scan(buf[1..], room); Field(f.text, f.stop + 1)
    else var f := Scan(buf[1..], room - 1); Field([buf[0]] + f.text, f.stop + 1)
  }

  /** After a field the reader skips one character unconditionally. */
  function After(buf: string, f: Field): string
    requires f.stop <= |buf|
  {
    if f.stop < |buf| then buf[f.stop + 1..] else []
  }

  datatype Pair = Pair(symbol: int, freq: int, sym: string, cnt: string)

  /**
   * One turn of the read loop of parse_sym_freq_files: a capped field from
   * each buffer, converted by strtol(.., 2) and atoi, and what is left of
   * the buffers after the skipped character.
   */
  function NextPair(sym: string, cnt: string): (p: Pair)
    requires |sym| > 0
    ensures |p.sym| < |sym|
  {
    var s := Scan(sym, FieldRoom);
    var c := Scan(cnt, FieldRoom);
    Pair(Strtol2(s.text), Atoi(c.text), After(sym, s), After(cnt, c))
  }

  /**
   * The converted line pairs the read loop meets, until either buffer is
   * used up.  Reading has no effect beyond the table, so the loop is modelled
   * as reading the pairs and storing them in order.
   */
  function Pairs(sym: string, cnt: string): (r: seq<(int, int)>)
    decreases |sym|
  {
    if |sym| == 0 || |cnt| == 0 then []
    else
      var p := NextPair(sym, cnt);
      [(p.symbol, p.freq)] + Pairs(p.sym, p.cnt)
  }

  /**
   * The stores of the read loop: a pair is taken when its symbol is 0..255
   * and its count positive; the loop ends once 256 pairs were taken.
   */
  function Store(pairs: seq<(int, int)>, taken: nat, table: seq<int>): (r: seq<int>)
    requires |table| == MaxSymbols
    ensures |r| == MaxSymbols
    decreases |pairs|
  {
    if |pairs| == 0 || taken >= MaxSymbols then table
    else
      var (symbol, freq) := pairs[0];
      if 0 <= symbol < MaxSymbols && freq > 0 then Store(pairs[1..], taken + 1, table[symbol := freq])
      else Store(pairs[1..], taken, table)
  }

  /** The loop only ever stores positive counts: an entry keeps its value or becomes positive. */
  lemma {:induction false} StoreKeepsOrPositive(pairs: seq<(int, int)>, taken: nat, table: seq<int>)
    requires |table| == MaxSymbols
    ensures forall s :: 0 <= s < MaxSymbols ==>
      Store(pairs, taken, table)[s] == table[s] || Store(pairs, taken, table)[s] > 0
    decreases |pairs|
  {
    if |pairs| > 0 && taken < MaxSymbols {
      var (symbol, freq) := pairs[0];
      if 0 <= symbol < MaxSymbols && freq > 0 {
        StoreKeepsOrPositive(pairs[1..], taken + 1, table[symbol := freq]);
      } else {
        StoreKeepsOrPositive(pairs[1..], taken, table);
      }
    }
  }

  function Zeros(): (t: seq<int>)
    ensures |t| == MaxSymbols && forall s :: 0 <= s < MaxSymbols ==> t[s] == 0
  {
    seq(MaxSymbols, s => 0)
  }

  /** parse_sym_freq_files into the zero-initialised freq_table. */
  function ParseSymFreq(sym: string, cnt: string): (r: seq<int>)
    ensures |r| == MaxSymbols
  {
    Store(Pairs(sym, cnt), 0, Zeros())
  }

  /** Every entry parse_sym_freq_files leaves in the fresh table is a count: zero or positive. */
  lemma ParsedCounts(sym: string, cnt: string)
    ensures forall s :: 0 <= s < MaxSymbols ==> ParseSymFreq(sym, cnt)[s] >= 0
  {
    StoreKeepsOrPositive(Pairs(sym, cnt), 0, Zeros());
  }

  /** A clean line of at most `room` characters is read whole, and the reader continues after its '\n'. */
  lemma {:induction false} ScanLine(line: string, rest: string, room: nat)
    requires |line| <= room
    requires forall k :: 0 <= k < |line| ==> line[k] != '\r' && line[k] != '\n'
    ensures Scan(line + "\n" + rest, room) == Field(line, |line|)
    ensures After(line + "\n" + rest, Field(line, |line|)) == rest
  {
    var buf := line + "\n" + rest;
    if |line| > 0 {
      assert buf[1..] == line[1..] + "\n" + rest;
      ScanLine(line[1..], rest, room - 1);
      assert [line[0]] + line[1..] == line;
    }
    assert buf[|line| + 1..] == rest;
  }

  function Pow10(n: nat): nat
  {
    if n == 0 then 1 else 10 * Pow10(n - 1)
  }

  lemma {:induction false} DecimalLength(n: nat, k: nat)
    requires k >= 1 && n < Pow10(k)
    ensures |Decimal(n)| <= k
  {
    if n >= 10 {
      assert k >= 2;
      DecimalLength(n / 10, k - 1);
    }
  }

  /** A 24-bit count has at most 8 decimal digits, so it fits a field. */
  lemma CountFits(f: nat)
    requires f < CountMask
    ensures |Decimal(f)| <= 8
  {
    assert Pow10(8) == 100000000 by {
      assert Pow10(2) == 100;
      assert Pow10(4) == 10000;
      assert Pow10(6) == 1000000;
    }
    DecimalLength(f, 8);
  }

  /** A symbol's line is clean, fits a field and reads back as the symbol. */
  lemma SymLineFacts(s: nat)
    requires s < MaxSymbols
    ensures |SymLine(s)| <= FieldRoom && Strtol2(SymLine(s)) == s
    ensures forall k :: 0 <= k < |SymLine(s)| ==> SymLine(s)[k] != '\r' && SymLine(s)[k] != '\n'
  {
    Pow2Values();
    RenderReadBack(s, 8, []);
    assert Render(s, 8) + [] == Render(s, 8);
  }

  /** A 24-bit count's line is clean, fits a field and reads back as the count. */
  lemma CountLineFacts(f: nat)
    requires f < CountMask
    ensures |Decimal(f)| <= FieldRoom && Atoi(Decimal(f)) == f
    ensures forall k :: 0 <= k < |Decimal(f)| ==> Decimal(f)[k] != '\r' && Decimal(f)[k] != '\n'
  {
    CountFits(f);
    AtoiOfDecimal(f, []);
    assert Decimal(f) + [] == Decimal(f);
  }

  /** The line pairs the writer produced from symbol i on. */
  function RowPairs(ft: seq<nat>, i: nat): seq<(int, int)>
    decreases |ft| - i
  {
    if i >= |ft| then []
    else (if ft[i] > 0 then [(i as int, ft[i] as int)] else []) + RowPairs(ft, i + 1)
  }

  /** A listed symbol's line pair is read whole, and reading continues with the next symbol's. */
  lemma NextRow(ft: seq<nat>, i: nat)
    requires |ft| == MaxSymbols && i < MaxSymbols && 0 < ft[i] < CountMask
    ensures |SymFrom(ft, i)| > 0
    ensures NextPair(SymFrom(ft, i), CountFrom(ft, i)) == Pair(i, ft[i], SymFrom(ft, i + 1), CountFrom(ft, i + 1))
  {
    var sl, cl := SymLine(i), Decimal(ft[i]);
    assert SymFrom(ft, i) == sl + "\n" + SymFrom(ft, i + 1);
    assert CountFrom(ft, i) == cl + "\n" + CountFrom(ft, i + 1);
    SymLineFacts(i);
    CountLineFacts(ft[i]);
    ScanLine(sl, SymFrom(ft, i + 1), FieldRoom);
    ScanLine(cl, CountFrom(ft, i + 1), FieldRoom);
  }

  /** The files read back as the pairs of the listed symbols. */
  lemma {:induction false} PairsOfFiles(ft: seq<nat>, i: nat)
    requires |ft| == MaxSymbols && i <= MaxSymbols
    requires forall s :: 0 <= s < MaxSymbols ==> ft[s] < CountMask
    ensures Pairs(SymFrom(ft, i), CountFrom(ft, i)) == RowPairs(ft, i)
    decreases MaxSymbols - i
  {
    if i == MaxSymbols {
      assert SymFrom(ft, i) == [];
    } else if ft[i] > 0 {
      assert Pairs(SymFrom(ft, i + 1), CountFrom(ft, i + 1)) == RowPairs(ft, i + 1) by {
        PairsOfFiles(ft, i + 1);
      }
      NextRow(ft, i);
    } else {
      assert Pairs(SymFrom(ft, i + 1), CountFrom(ft, i + 1)) == RowPairs(ft, i + 1) by {
        PairsOfFiles(ft, i + 1);
      }
      SkipRow(ft, i);
    }
  }

  /** A symbol with a zero count adds nothing to either file. */
  lemma SkipRow(ft: seq<nat>, i: nat)
    requires i < |ft| && ft[i] == 0
    ensures SymFrom(ft, i) == SymFrom(ft, i + 1) && CountFrom(ft, i) == CountFrom(ft, i + 1)
  {
  }

  /**
   * Storing the pairs from symbol i on: with the entries below i already
   * stored and the rest still zero, the loop ends with the whole table.
   */
  lemma {:induction false} StoreRows(ft: seq<nat>, i: nat, taken: nat, table: seq<int>)
    requires |ft| == MaxSymbols && |table| == MaxSymbols && i <= MaxSymbols && taken <= i
    requires forall s :: 0 <= s < i ==> table[s] == ft[s]
    requires forall s :: i <= s < MaxSymbols ==> table[s] == 0
    ensures Store(RowPairs(ft, i), taken, table) == ft
    decreases MaxSymbols - i
  {
    if i == MaxSymbols {
      assert table == ft by {
        assert forall s :: 0 <= s < MaxSymbols ==> table[s] == ft[s];
      }
    } else if ft[i] > 0 {
      var next := table[i := ft[i]];
      assert Store(RowPairs(ft, i + 1), taken + 1, next) == ft by {
        assert forall s :: 0 <= s < i + 1 ==> next[s] == ft[s];
        StoreRows(ft, i + 1, taken + 1, next);
      }
      StoreTake(ft, i, taken, table);
    } else {
      assert Store(RowPairs(ft, i + 1), taken, table) == ft by {
        StoreRows(ft, i + 1, taken, table);
      }
      StoreSkip(ft, i, taken, table);
    }
  }

  lemma StoreTake(ft: seq<nat>, i: nat, taken: nat, table: seq<int>)
    requires |table| == MaxSymbols && i < |ft| && ft[i] > 0 && i < MaxSymbols && taken < MaxSymbols
    ensures Store(RowPairs(ft, i), taken, table) == Store(RowPairs(ft, i + 1), taken + 1, table[i := ft[i]])
  {
    var rest := RowPairs(ft, i + 1);
    assert RowPairs(ft, i) == [(i as int, ft[i] as int)] + rest;
    assert ([(i as int, ft[i] as int)] + rest)[1..] == rest;
  }

  lemma StoreSkip(ft: seq<nat>, i: nat, taken: nat, table: seq<int>)
    requires |table| == MaxSymbols && i < |ft| && ft[i] == 0
    ensures Store(RowPairs(ft, i), taken, table) == Store(RowPairs(ft, i + 1), taken, table)
  {
    assert RowPairs(ft, i) == RowPairs(ft, i + 1);
  }

  /**
   * parse_sym_freq_files reads back exactly the table stage_freq_counter
   * wrote: every symbol's masked count, and zero for the symbols not listed.
   */
  lemma FreqFilesRoundTrip(counter: nat -> nat)
    ensures var ft := FreqTable(counter);
      ParseSymFreq(SymFrom(ft, 0), CountFrom(ft, 0)) == ft
  {
    var ft := FreqTable(counter);
    PairsOfFiles(ft, 0);
    StoreRows(ft, 0, 0, Zeros());
  }
}
