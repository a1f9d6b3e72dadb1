/**
 * The two text parsers of the decompression program that rebuild the
 * fixed-width helper files from the split bundle:
 *   - generate_huffman_table_files_from_HMCODES reads the codebook rows
 *     "%-10s %-20s %2d" and writes SYMIN (8-bit symbol), CODEWIN (codeword
 *     zero-extended to 16 bits) and CODELEN (length field in 5 bits);
 *   - generate_out_stream_files_from_OUTPUT reads the encoded stream, one
 *     codeword per line, and writes OUTCW (16 bits) and OUTLEN (5 bits).
 * Both abort with -1 on a codeword of more than 16 bits.
 */
module TableParse {
  import opened Wrappers
  import opened BinText
  import opened CText
  import opened LineIO
  import opened Packing
  import opened Codebook
  import opened Bundle

  /** sizeof(symbol)-1, sizeof(codeword)-1, sizeof(lenstr)-1 */
  const TokenCaps: seq<nat> := [63, 127, 63]
  const MaxLengthField: int := 31

  // ---------------------------------------------------------------------
  // Tokens
  // ---------------------------------------------------------------------

  /** The non-space characters at the front, at most `cap` of them. */
  function TakeToken(s: string, cap: nat): (r: string)
    ensures r <= s && |r| <= cap && NoSpace(r)
    ensures |r| < |s| && |r| < cap ==> IsSpace(s[|r|])
    ensures |s| > 0 && cap > 0 && !IsSpace(s[0]) ==> |r| > 0
  {
    if |s| == 0 || cap == 0 || IsSpace(s[0]) then [] else [s[0]] + TakeToken(s[1..], cap - 1)
  }

  predicate PositiveCaps(caps: seq<nat>) { forall k :: 0 <= k < |caps| ==> caps[k] > 0 }

  /** A token as the loop copies it: non-empty, within its cap, no white space. */
  predicate Token(t: string, cap: nat) { 0 < |t| <= cap && NoSpace(t) }

  /**
   * The token loop: skip white space, copy up to caps[idx] non-space
   * characters, for at most |caps| tokens.  A token longer than its cap is
   * cut, and what remains of it becomes the next token.
   */
  function Tokenize(s: string, caps: seq<nat>): (r: seq<string>)
    requires PositiveCaps(caps)
    ensures |r| <= |caps|
    decreases |s|
  {
    if |caps| == 0 then []
    else
      var t := SkipSpaces(s);
      if |t| == 0 then []
      else
        var tok := TakeToken(t, caps[0]);
        [tok] + Tokenize(t[|tok|..], caps[1..])
  }

  /** Each token non-empty, free of white space and within the cap of its place. */
  predicate TokensFit(toks: seq<string>, caps: seq<nat>)
  {
    |toks| <= |caps| && forall k :: 0 <= k < |toks| ==> Token(toks[k], caps[k])
  }

  lemma FitCons(tok: string, toks: seq<string>, caps: seq<nat>)
    requires |caps| > 0 && Token(tok, caps[0]) && TokensFit(toks, caps[1..])
    ensures TokensFit([tok] + toks, caps)
  {
    var r := [tok] + toks;
    forall k | 1 <= k < |r|
      ensures Token(r[k], caps[k])
    {
      assert r[k] == toks[k - 1] && caps[k] == caps[1..][k - 1];
    }
  }

  /** Every token the loop copies is non-empty, within its cap and free of white space. */
  lemma {:induction false} TokensWithinCaps(s: string, caps: seq<nat>)
    requires PositiveCaps(caps)
    ensures TokensFit(Tokenize(s, caps), caps)
    decreases |s|
  {
    if |caps| > 0 {
      var t := SkipSpaces(s);
      if |t| > 0 {
        var tok := TakeToken(t, caps[0]);
        var rest := t[|tok|..];
        assert PositiveCaps(caps[1..]);
        TokensWithinCaps(rest, caps[1..]);
        FitCons(tok, Tokenize(rest, caps[1..]), caps);
      }
    }
  }

  // ---------------------------------------------------------------------
  // Codebook rows
  // ---------------------------------------------------------------------

  /** An accepted row: the symbol and codeword tokens and the parsed length field. */
  datatype CodeLine = CodeLine(symbol: string, codeword: string, length: nat)

  datatype RowParse = Skip | Take(line: CodeLine) | Abort(codeword: string)

  /**
   * The field checks a row passes before its codeword length is looked at:
   * three tokens, an 8-bit binary symbol, a binary codeword and a length
   * field that atoi reads as 0..31.
   */
  predicate FieldsPass(toks: seq<string>)
  {
    && |toks| >= 3
    && |toks[0]| == SymBits && IsBinStr(toks[0])
    && IsBinStr(toks[1])
    && 0 <= Atoi(toks[2]) <= MaxLengthField
  }

  /**
   * One turn of the row loop: blank lines, rows of fewer than three tokens,
   * a symbol that is not 8 bits, a codeword that is not bits and a length
   * outside 0..31 are skipped; a codeword of more than 16 bits aborts.
   */
  function ParseCodeRow(line: string): (r: RowParse)
    ensures r.Take? ==> |r.line.symbol| == SymBits && AllBits(r.line.symbol)
    ensures r.Take? ==> 0 < |r.line.codeword| <= CodeBits && AllBits(r.line.codeword)
    ensures r.Take? ==> r.line.length <= MaxLengthField
    ensures r.Abort? ==> |r.codeword| > CodeBits && AllBits(r.codeword)
    ensures |RStrip(line)| == 0 ==> r == Skip
    ensures |RStrip(line)| > 0 ==> (
      var toks := Tokenize(RStrip(line), TokenCaps);
      && (r.Take? <==> FieldsPass(toks) && |toks[1]| <= CodeBits)
      && (r.Abort? <==> FieldsPass(toks) && |toks[1]| > CodeBits)
      && (r.Take? ==> r.line == CodeLine(toks[0], toks[1], Atoi(toks[2])))
      && (r.Abort? ==> r.codeword == toks[1]))
  {
    var l := RStrip(line);
    if |l| == 0 then Skip else CheckTokens(Tokenize(l, TokenCaps))
  }

  /**
   * The field checks on the tokens of a row, in the order the loop makes
   * them: a row is taken exactly when every check passes and the codeword
   * fits 16 bits, and aborts exactly when every check passes and it does not.
   */
  function CheckTokens(toks: seq<string>): (r: RowParse)
    ensures r.Take? ==> |r.line.symbol| == SymBits && AllBits(r.line.symbol)
    ensures r.Take? ==> 0 < |r.line.codeword| <= CodeBits && AllBits(r.line.codeword)
    ensures r.Take? ==> r.line.length <= MaxLengthField
    ensures r.Abort? ==> |r.codeword| > CodeBits && AllBits(r.codeword)
    ensures r.Take? <==> FieldsPass(toks) && |toks[1]| <= CodeBits
    ensures r.Abort? <==> FieldsPass(toks) && |toks[1]| > CodeBits
    ensures r.Take? ==> r.line == CodeLine(toks[0], toks[1], Atoi(toks[2]))
    ensures r.Abort? ==> r.codeword == toks[1]
  {
    if |toks| < 3 then Skip
    else if |toks[0]| != SymBits || !IsBinStr(toks[0]) then Skip
    else if !IsBinStr(toks[1]) then Skip
    else
      var n := Atoi(toks[2]);
      if n < 0 || n > MaxLengthField then Skip
      else if |toks[1]| > CodeBits then Abort(toks[1])
      else Take(CodeLine(toks[0], toks[1], n))
  }

  datatype ParseError = CodewordTooLong(codeword: string) | StreamTooLong(bits: string)

  /**
   * The row parser on each line read: one verdict per line; a line that is
   * blank after rstrip is skipped, a taken row has an 8-bit symbol, a
   * codeword of 1 to 16 bits and a length field up to 31, and an abort
   * carries a codeword of more than 16 bits.
   */
  function ParseRows(lines: seq<string>): (r: seq<RowParse>)
    ensures |r| == |lines|
    ensures forall k :: 0 <= k < |lines| && |RStrip(lines[k])| == 0 ==> r[k] == Skip
    ensures forall k :: 0 <= k < |lines| && r[k].Take? ==>
      |r[k].line.symbol| == SymBits && AllBits(r[k].line.symbol) &&
      0 < |r[k].line.codeword| <= CodeBits && AllBits(r[k].line.codeword) &&
      r[k].line.length <= MaxLengthField
    ensures forall k :: 0 <= k < |lines| && r[k].Abort? ==> |r[k].codeword| > CodeBits && AllBits(r[k].codeword)
  {
    seq(|lines|, k requires 0 <= k < |lines| => ParseCodeRow(lines[k]))
  }

  /**
   * The row loop over the parsed lines: skipped rows leave nothing, taken
   * rows are written out in order, and the first abort ends the loop.
   */
  function AcceptRows(ps: seq<RowParse>): (r: Result<seq<CodeLine>, ParseError>)
  {
    if |ps| == 0 then Success([])
    else
      match ps[0]
      case Skip => AcceptRows(ps[1..])
      case Abort(cw) => Failure(CodewordTooLong(cw))
      case Take(e) =>
        var es :- AcceptRows(ps[1..]);
        Success([e] + es)
  }

  /**
   * The header skip: the first line is always dropped, and the line after
   * it too when the first starts with "Symbol".  The second read's result is
   * not looked at.
   */
  function RowsStart(content: string): nat
  {
    var first := ReadLine(content, 0, DecompLineLen - 1);
    if |first.line| > 0 && StartsWith(first.line, SectionTag)
    then ReadLine(content, first.next, DecompLineLen - 1).next
    else first.next
  }

  datatype TableFiles = TableFiles(symIn: string, codeIn: string, lenIn: string)

  function SymLines(es: seq<CodeLine>): (r: seq<string>)
    ensures |r| == |es| && forall k :: 0 <= k < |es| ==> r[k] == es[k].symbol
  {
    seq(|es|, k requires 0 <= k < |es| => es[k].symbol)
  }

  /**
   * uint_to_binstr(codeval, 16) of a codeword: 16 bits of the same value
   * modulo 2^16, and for a codeword of at most 16 bits the codeword itself
   * zero-extended on the left.
   */
  lemma WideCodeword(b: string)
    ensures BinValue(Render(BinValue(b), CodeBits)) == BinValue(b) % Pow2(CodeBits)
    ensures AllBits(b) && |b| <= CodeBits ==> Render(BinValue(b), CodeBits) == Render(0, CodeBits - |b|) + b
  {
    Widened(b, CodeBits);
  }

  /** The same at any width. */
  lemma Widened(b: string, w: nat)
    ensures BinValue(Render(BinValue(b), w)) == BinValue(b) % Pow2(w)
    ensures AllBits(b) && |b| <= w ==> Render(BinValue(b), w) == Render(0, w - |b|) + b
  {
    ValueOfRender(BinValue(b), w);
    if AllBits(b) && |b| <= w {
      var extra := w - |b|;
      RenderWide(b, extra);
      assert Render(BinValue(b), w) == Render(BinValue(b), |b| + extra);
    }
  }

  /** WideCodeword for every codeword of a list. */
  lemma WideCodewords(bs: seq<string>)
    ensures forall k :: 0 <= k < |bs| ==> BinValue(Render(BinValue(bs[k]), CodeBits)) == BinValue(bs[k]) % Pow2(CodeBits)
    ensures forall k :: 0 <= k < |bs| && AllBits(bs[k]) && |bs[k]| <= CodeBits ==>
      Render(BinValue(bs[k]), CodeBits) == Render(0, CodeBits - |bs[k]|) + bs[k]
  {
    forall k | 0 <= k < |bs| {
      WideCodeword(bs[k]);
    }
  }

  /** WideCodeword for the codeword of every accepted row. */
  lemma WideRowCodewords(es: seq<CodeLine>)
    ensures forall k :: 0 <= k < |es| ==>
      BinValue(Render(BinValue(es[k].codeword), CodeBits)) == BinValue(es[k].codeword) % Pow2(CodeBits)
    ensures forall k :: 0 <= k < |es| && AllBits(es[k].codeword) && |es[k].codeword| <= CodeBits ==>
      Render(BinValue(es[k].codeword), CodeBits) == Render(0, CodeBits - |es[k].codeword|) + es[k].codeword
  {
    forall k | 0 <= k < |es| {
      WideCodeword(es[k].codeword);
    }
  }

  /** CODEWIN: each accepted codeword as a 16-bit line of its value, zero-extended. */
  function CodeLines(es: seq<CodeLine>): (r: seq<string>)
    ensures |r| == |es|
    ensures forall k :: 0 <= k < |es| ==>
      (|r[k]| == CodeBits && AllBits(r[k]) && BinValue(r[k]) == BinValue(es[k].codeword) % Pow2(CodeBits))
    ensures forall k :: 0 <= k < |es| && AllBits(es[k].codeword) && |es[k].codeword| <= CodeBits ==>
      r[k] == Render(0, CodeBits - |es[k].codeword|) + es[k].codeword
  {
    WideRowCodewords(es);
    seq(|es|, k requires 0 <= k < |es| => Render(BinValue(es[k].codeword), CodeBits))
  }

  /** CODELEN: each accepted length field as a 5-bit line of its value modulo 32. */
  function LenLines(es: seq<CodeLine>): (r: seq<string>)
    ensures |r| == |es|
    ensures forall k :: 0 <= k < |es| ==>
      (|r[k]| == LenBits && AllBits(r[k]) && BinValue(r[k]) == es[k].length % Pow2(LenBits))
  {
    assert forall k :: 0 <= k < |es| ==> BinValue(Render(es[k].length, LenBits)) == es[k].length % Pow2(LenBits) by {
      forall k | 0 <= k < |es| {
        ValueOfRender(es[k].length, LenBits);
      }
    }
    seq(|es|, k requires 0 <= k < |es| => Render(es[k].length, LenBits))
  }

  /** generate_huffman_table_files_from_HMCODES on the content of HMCODES.TXT. */
  function RegenerateTable(codebook: string): Result<TableFiles, ParseError>
  {
    var es :- AcceptRows(ParseRows(LinesD(codebook, RowsStart(codebook), DecompLineLen)));
    Success(TableFiles(Unlines(SymLines(es), Eol), Unlines(CodeLines(es), Eol), Unlines(LenLines(es), Eol)))
  }

  /** The row loop fails exactly when some row aborts, and then with the first such row's codeword. */
  lemma {:induction false} AcceptRowsFails(ps: seq<RowParse>)
    ensures AcceptRows(ps).Failure? <==> exists k :: 0 <= k < |ps| && ps[k].Abort?
    ensures AcceptRows(ps).Failure? ==>
      exists k :: (0 <= k < |ps| && ps[k].Abort? && AcceptRows(ps).error == CodewordTooLong(ps[k].codeword) &&
                   (forall j :: 0 <= j < k ==> !ps[j].Abort?))
  {
    if |ps| > 0 {
      var rest := ps[1..];
      AcceptRowsFails(rest);
      assert forall k :: 1 <= k < |ps| ==> ps[k] == rest[k - 1];
      if !ps[0].Abort? && AcceptRows(rest).Failure? {
        var k :| 0 <= k < |rest| && rest[k].Abort? && AcceptRows(rest).error == CodewordTooLong(rest[k].codeword) &&
          (forall j :: 0 <= j < k ==> !rest[j].Abort?);
        assert ps[k + 1] == rest[k];
      }
    }
  }

  /** When no row aborts, the accepted lines are the taken rows, in order. */
  lemma {:induction false} AcceptRowsTaken(ps: seq<RowParse>)
    requires forall k :: 0 <= k < |ps| ==> !ps[k].Abort?
    ensures AcceptRows(ps).Success?
    ensures AcceptRows(ps).value == Taken(ps)
  {
    if |ps| > 0 {
      AcceptRowsTaken(ps[1..]);
    }
  }

  /** The lines of the taken rows, in order. */
  function Taken(ps: seq<RowParse>): seq<CodeLine>
  {
    if |ps| == 0 then [] else (if ps[0].Take? then [ps[0].line] else []) + Taken(ps[1..])
  }

  // ---------------------------------------------------------------------
  // Rows as the compression program writes them
  // ---------------------------------------------------------------------

  predicate Blanks(s: string) { forall i :: 0 <= i < |s| ==> s[i] == ' ' }

  lemma {:induction false} TakeTokenWhole(tok: string, rest: string, cap: nat)
    requires 0 < |tok| <= cap && NoSpace(tok)
    requires |rest| == 0 || IsSpace(rest[0])
    ensures TakeToken(tok + rest, cap) == tok
    decreases |tok|
  {
    var s := tok + rest;
    assert s[0] == tok[0];
    if |tok| > 1 {
      assert s[1..] == tok[1..] + rest;
      TakeTokenWhole(tok[1..], rest, cap - 1);
      assert [tok[0]] + tok[1..] == tok;
    } else {
      assert s[1..] == rest;
      assert TakeToken(rest, cap - 1) == [];
      assert [tok[0]] == tok;
    }
  }

  /** White space, then a whole token: the loop takes the token and goes on after it. */
  lemma TokenizeStep(sp: string, tok: string, rest: string, caps: seq<nat>)
    requires PositiveCaps(caps) && |caps| > 0
    requires Blanks(sp) && 0 < |tok| <= caps[0] && NoSpace(tok)
    requires |rest| == 0 || IsSpace(rest[0])
    ensures Tokenize(sp + tok + rest, caps) == [tok] + Tokenize(rest, caps[1..])
  {
    var t := tok + rest;
    assert sp + tok + rest == sp + t;
    assert SkipSpaces(sp + t) == t by {
      assert t[0] == tok[0];
      SkipSpacesOver(sp, t);
    }
    TakeTokenWhole(tok, rest, caps[0]);
    assert t[|tok|..] == rest;
  }

  lemma TokenizeNothing(s: string, caps: seq<nat>)
    requires PositiveCaps(caps)
    requires |caps| == 0 || |s| == 0
    ensures Tokenize(s, caps) == []
  {
  }

  lemma Regroup(a: string, x: string, y: string, code: string, pc: string, z: string, pd: string, d: string)
    ensures (a + x) + y + (code + pc) + z + (pd + d) == a + (x + y) + code + (pc + z + pd) + d
  {
  }

  /** The pieces of a row "%-10s %-20s %2d": tokens separated by runs of blanks. */
  lemma DebugRowPieces(a: string, code: string) returns (sp1: string, sp2: string)
    requires |a| == SymBits && |code| <= MaxLengthField
    ensures DebugRow(a, code) == a + sp1 + code + sp2 + Decimal(|code|)
    ensures |sp1| == 3 && Blanks(sp1) && 0 < |sp2| <= 22 && Blanks(sp2)
  {
    var d := Decimal(|code|);
    var ra := PadRight(a, 10);
    var rc := PadRight(code, 20);
    var rl := PadLeft(d, 2);
    var pa := ra[|a|..];
    var pc := rc[|code|..];
    var pd := rl[..|rl| - |d|];
    assert ra == a + pa by {
      assert ra[..|a|] == a;
    }
    assert rc == code + pc by {
      assert rc[..|code|] == code;
    }
    assert rl == pd + d;
    assert |pa| == 2 && Blanks(pa);
    assert |pc| <= 20 && Blanks(pc);
    assert |pd| <= 1 && Blanks(pd);
    sp1 := pa + " ";
    sp2 := pc + " " + pd;
    assert DebugRow(a, code) == ra + " " + rc + " " + rl;
    Regroup(a, pa, " ", code, pc, " ", pd, d);
  }

  lemma FrontSplit(a: string, b: string, c: string, d: string, e: string)
    ensures a + b + c + d + e == [] + a + (b + c + d + e)
    ensures b + c + d + e == b + c + (d + e)
    ensures d + e == d + e + []
  {
  }

  /** The same step, for a line already known to have that shape. */
  lemma TokenizeAt(s: string, sp: string, tok: string, rest: string, caps: seq<nat>)
    requires s == sp + tok + rest
    requires PositiveCaps(caps) && |caps| > 0
    requires Blanks(sp) && Token(tok, caps[0])
    requires |rest| == 0 || IsSpace(rest[0])
    ensures Tokenize(s, caps) == [tok] + Tokenize(rest, caps[1..])
  {
    TokenizeStep(sp, tok, rest, caps);
  }

  lemma LastToken(s: string, sp: string, tok: string, caps: seq<nat>)
    requires s == sp + tok
    requires PositiveCaps(caps) && |caps| > 0
    requires Blanks(sp) && Token(tok, caps[0])
    ensures Tokenize(s, caps) == [tok]
  {
    assert s == sp + tok + [];
    TokenizeAt(s, sp, tok, [], caps);
    TokenizeNothing([], caps[1..]);
  }

  /** Two tokens separated by blanks, each within its cap, come out as they are, and no third. */
  lemma TwoTokens(s: string, sp0: string, t1: string, sp: string, t2: string, caps: seq<nat>)
    requires s == sp0 + t1 + sp + t2
    requires |caps| >= 2 && PositiveCaps(caps)
    requires Token(t1, caps[0]) && Token(t2, caps[1])
    requires Blanks(sp0) && 0 < |sp| && Blanks(sp)
    ensures Tokenize(s, caps) == [t1, t2]
  {
    var rest := sp + t2;
    assert s == sp0 + t1 + rest;
    assert rest[0] == sp[0];
    TokenizeAt(s, sp0, t1, rest, caps);
    LastToken(rest, sp, t2, caps[1..]);
  }

  /** Three tokens separated by blanks, each within its cap, come out as they are. */
  lemma ThreeTokens(s: string, t1: string, sp1: string, t2: string, sp2: string, t3: string, caps: seq<nat>)
    requires s == t1 + sp1 + t2 + sp2 + t3
    requires |caps| == 3 && PositiveCaps(caps)
    requires Token(t1, caps[0]) && Token(t2, caps[1]) && Token(t3, caps[2])
    requires 0 < |sp1| && Blanks(sp1) && 0 < |sp2| && Blanks(sp2)
    ensures Tokenize(s, caps) == [t1, t2, t3]
  {
    var rest := sp1 + t2 + sp2 + t3;
    assert s == [] + t1 + rest by {
      FrontSplit(t1, sp1, t2, sp2, t3);
    }
    assert Tokenize(rest, caps[1..]) == [t2, t3] by {
      TwoTokens(rest, sp1, t2, sp2, t3, caps[1..]);
    }
    assert rest[0] == sp1[0];
    TokenizeAt(s, [], t1, rest, caps);
  }

  lemma DigitsHaveNoSpace(s: string)
    requires AllDigits(s)
    ensures NoSpace(s)
  {
  }

  /**
   * A row written with a non-empty code of at most 31 characters tokenizes
   * back to its symbol, its code and its length.
   */
  lemma DebugRowTokens(a: string, code: string)
    requires |a| == SymBits && AllBits(a)
    requires 0 < |code| <= MaxLengthField && AllBits(code)
    ensures Tokenize(DebugRow(a, code), TokenCaps) == [a, code, Decimal(|code|)]
  {
    var sp1, sp2 := DebugRowPieces(a, code);
    RowTokenFacts(a, code);
    TokenCapsFacts();
    ThreeTokens(DebugRow(a, code), a, sp1, code, sp2, Decimal(|code|), TokenCaps);
  }

  lemma TokenCapsFacts()
    ensures |TokenCaps| == 3 && PositiveCaps(TokenCaps)
    ensures TokenCaps[0] == 63 && TokenCaps[1] == 127 && TokenCaps[2] == 63
  {
  }

  /** The symbol, the code and the length field of a row each fit their token buffer. */
  lemma RowTokenFacts(a: string, code: string)
    requires |a| == SymBits && AllBits(a)
    requires |code| <= MaxLengthField && AllBits(code)
    ensures Token(a, 63) && Token(Decimal(|code|), 63)
    ensures |code| > 0 ==> Token(code, 127)
  {
    var _ := ShortDecimal(|code|);
    BitsHaveNoSpace(a);
    BitsHaveNoSpace(code);
    DigitsHaveNoSpace(Decimal(|code|));
  }

  /**
   * A row written with an empty code, the code of the only symbol of a
   * one-symbol input, has just two tokens: the symbol and the length 0.
   */
  lemma EmptyCodeRowTokens(a: string)
    requires |a| == SymBits && AllBits(a)
    ensures Tokenize(DebugRow(a, ""), TokenCaps) == [a, "0"]
  {
    var line := DebugRow(a, "");
    var sp1, sp2 := DebugRowPieces(a, "");
    var sp := sp1 + sp2;
    var caps := TokenCaps;
    assert |caps| == 3 && PositiveCaps(caps) && caps[0] == 63 && caps[1] == 127;
    assert Decimal(0) == "0";
    assert line == [] + a + sp + "0" by {
      assert a + sp1 + "" + sp2 == [] + a + sp;
    }
    assert Token(a, caps[0]) && Blanks(sp) by {
      BitsHaveNoSpace(a);
    }
    TwoTokens(line, [], a, sp, "0", caps);
  }

  /** The row ends in the last digit of its length, so rstrip leaves it alone. */
  lemma DebugRowStripped(a: string, code: string)
    requires |a| == SymBits && |code| <= MaxLengthField
    ensures RStrip(DebugRow(a, code)) == DebugRow(a, code)
  {
    var line := DebugRow(a, code);
    var d := Decimal(|code|);
    var sp1, sp2 := DebugRowPieces(a, code);
    assert line[|line| - 1] == d[|d| - 1];
    RStripKeeps(line);
  }

  /**
   * The row parser on a written row: a non-empty code of at most 16 bits is
   * accepted with the row's symbol, code and length; a longer one aborts;
   * an empty code is skipped.
   */
  lemma DebugRowParsed(a: string, code: string)
    requires |a| == SymBits && AllBits(a)
    requires |code| <= MaxLengthField && AllBits(code)
    ensures |code| == 0 ==> ParseCodeRow(DebugRow(a, code)) == Skip
    ensures 0 < |code| <= CodeBits ==> ParseCodeRow(DebugRow(a, code)) == Take(CodeLine(a, code, |code|))
    ensures CodeBits < |code| ==> ParseCodeRow(DebugRow(a, code)) == Abort(code)
  {
    var line := DebugRow(a, code);
    var sp1, sp2 := DebugRowPieces(a, code);
    assert RStrip(line) == line && |line| > 0 by {
      DebugRowStripped(a, code);
    }
    if |code| == 0 {
      EmptyCodeRowTokens(a);
      ParsedAs(line, [a, "0"]);
    } else {
      var d := Decimal(|code|);
      DebugRowTokens(a, code);
      ParsedAs(line, [a, code, d]);
      DecimalRead(|code|);
      CheckRowTokens(a, code, d);
    }
  }

  lemma ParsedAs(line: string, toks: seq<string>)
    requires RStrip(line) == line && |line| > 0
    requires Tokenize(line, TokenCaps) == toks
    ensures ParseCodeRow(line) == CheckTokens(toks)
  {
  }

  /** The field checks on a row's symbol, code and length field. */
  lemma CheckRowTokens(a: string, code: string, d: string)
    requires |a| == SymBits && AllBits(a)
    requires 0 < |code| && AllBits(code)
    requires Atoi(d) == |code| <= MaxLengthField
    ensures |code| <= CodeBits ==> CheckTokens([a, code, d]) == Take(CodeLine(a, code, |code|))
    ensures CodeBits < |code| ==> CheckTokens([a, code, d]) == Abort(code)
  {
    var toks := [a, code, d];
    assert toks[0] == a && toks[1] == code && toks[2] == d;
    assert IsBinStr(a) && IsBinStr(code);
  }

  lemma DecimalRead(n: nat)
    ensures Atoi(Decimal(n)) == n
  {
    AtoiOfDecimal(n, []);
    assert Decimal(n) + [] == Decimal(n);
  }


  /** The same for the row written for a symbol. */
  lemma DebugTextParsed(row: Row)
    requires |row.code| <= MaxLengthField && AllBits(row.code)
    ensures |row.code| == 0 ==> ParseCodeRow(DebugText(row.symbol, row.code)) == Skip
    ensures 0 < |row.code| <= CodeBits ==>
      ParseCodeRow(DebugText(row.symbol, row.code)) == Take(CodeLine(SymText(row.symbol), row.code, |row.code|))
    ensures CodeBits < |row.code| ==> ParseCodeRow(DebugText(row.symbol, row.code)) == Abort(row.code)
  {
    DebugRowParsed(SymText(row.symbol), row.code);
  }

  // ---------------------------------------------------------------------
  // The whole codebook file
  // ---------------------------------------------------------------------

  /** A title line starting with "Symbol" and the line after it are skipped. */
  lemma TitleSkipped(content: string, t: string, u: string, rest: seq<string>)
    requires Clean(t) && Clean(u) && 0 < |t| < DecompLineLen - 1 && |u| < DecompLineLen - 1
    requires StartsWith(t, SectionTag)
    requires content == Unlines([t, u] + rest, Eol)
    ensures RowsStart(content) == |t| + |u| + 4
    ensures |t| + |u| + 4 <= |content| && content[|t| + |u| + 4..] == Unlines(rest, Eol)
  {
    var p1 := |t| + 2;
    var tail := Unlines(rest, Eol);
    assert content == t + Eol + (u + Eol + tail) by {
      assert ([t, u] + rest)[1..] == [u] + rest;
      assert ([u] + rest)[1..] == rest;
    }
    assert content[0..p1] == t + Eol;
    ReadFramedLine(content, 0, DecompLineLen - 1, t, Eol);
    assert content[p1..p1 + |u| + 2] == u + Eol;
    ReadFramedLine(content, p1, DecompLineLen - 1, u, Eol);
  }

  /** The lines each row of the table contributes, as accepted. */
  function Expected(rows: seq<Row>): (r: seq<CodeLine>)
    ensures |r| == |rows|
    ensures forall k :: 0 <= k < |rows| ==> r[k] == CodeLine(SymText(rows[k].symbol), rows[k].code, |rows[k].code|)
  {
    seq(|rows|, k requires 0 <= k < |rows| => CodeLine(SymText(rows[k].symbol), rows[k].code, |rows[k].code|))
  }

  predicate ShortCodes(rows: seq<Row>)
  {
    forall k :: 0 <= k < |rows| ==> AllBits(rows[k].code) && 0 < |rows[k].code| <= CodeBits
  }

  /** Rows that are all taken are accepted, in order. */
  lemma {:induction false} AcceptAllTaken(ps: seq<RowParse>, es: seq<CodeLine>)
    requires |ps| == |es| && forall k :: 0 <= k < |ps| ==> ps[k] == Take(es[k])
    ensures AcceptRows(ps) == Success(es)
  {
    if |ps| > 0 {
      AcceptAllTaken(ps[1..], es[1..]);
      assert [es[0]] + es[1..] == es;
    }
  }

  /** Each row written for a short code parses as taken, with its symbol, code and length. */
  lemma DebugColumnParsed(rows: seq<Row>)
    requires ShortCodes(rows)
    ensures forall k :: 0 <= k < |rows| ==> ParseRows(DebugColumn(rows))[k] == Take(Expected(rows)[k])
  {
    forall k | 0 <= k < |rows|
      ensures ParseRows(DebugColumn(rows))[k] == Take(Expected(rows)[k])
    {
      DebugTextParsed(rows[k]);
    }
  }

  lemma DebugColumnReadable(rows: seq<Row>)
    requires ShortCodes(rows)
    ensures Readable(DebugColumn(rows))
  {
    forall k | 0 <= k < |rows|
      ensures 0 < |DebugColumn(rows)[k]| < DecompLineLen - 1 && Clean(DebugColumn(rows)[k])
    {
      DebugTextFacts(rows[k]);
    }
  }

  /** The columns of the accepted rows are the compression program's row files. */
  lemma ExpectedColumns(rows: seq<Row>)
    requires ShortCodes(rows)
    ensures SymLines(Expected(rows)) == SymColumn(rows)
    ensures CodeLines(Expected(rows)) == CodeColumn(rows)
    ensures LenLines(Expected(rows)) == LenColumn(rows)
  {
    var es := Expected(rows);
    assert forall k :: 0 <= k < |rows| ==> Low(rows[k].code, Codebook.WordBits) == rows[k].code;
    assert forall k :: 0 <= k < |rows| ==> CodeLines(es)[k] == CodeColumn(rows)[k];
  }

  /** After a title starting with "Symbol" and one more line, the row loop reads the remaining lines as written. */
  lemma RowsAfterTitle(content: string, t: string, u: string, rest: seq<string>)
    requires Clean(t) && Clean(u) && 0 < |t| < DecompLineLen - 1 && |u| < DecompLineLen - 1
    requires StartsWith(t, SectionTag)
    requires content == Unlines([t, u] + rest, Eol)
    requires Readable(rest)
    ensures LinesD(content, RowsStart(content), DecompLineLen) == rest
  {
    var p := |t| + |u| + 4;
    var q := RowsStart(content);
    assert q == p && content[p..|content|] == Unlines(rest, Eol) by {
      TitleSkipped(content, t, u, rest);
      assert content[p..|content|] == content[p..];
    }
    assert LinesD(content, p, DecompLineLen) == rest + LinesD(content, |content|, DecompLineLen) by {
      LinesDOfUnlines(content, p, |content|, DecompLineLen, rest, Eol);
    }
    assert LinesD(content, |content|, DecompLineLen) == [] by {
      LinesDAtEnd(content, DecompLineLen);
    }
    assert rest + [] == rest;
  }

  /** The row loop of the decompression program reads exactly the rows of a readable codebook. */
  lemma CodebookRowsRead(rows: seq<Row>)
    requires Readable(DebugColumn(rows))
    ensures var content := WriteRows(rows).codebook;
      LinesD(content, RowsStart(content), DecompLineLen) == DebugColumn(rows)
  {
    HeaderLinesFacts();
    RowsAfterTitle(WriteRows(rows).codebook, HeaderTitle, HeaderRule, DebugColumn(rows));
  }

  /**
   * Round trip of the codebook: when every code is a non-empty bit string
   * of at most 16 characters, the decompression program rebuilds from the
   * readable codebook exactly the symbol, codeword and length files the
   * compression program wrote.
   */
  lemma TableRoundTrip(rows: seq<Row>)
    requires ShortCodes(rows)
    ensures var files := WriteRows(rows);
      RegenerateTable(files.codebook) == Success(TableFiles(files.symIn, files.codeIn, files.lenIn))
  {
    var dc := DebugColumn(rows);
    DebugColumnReadable(rows);
    CodebookRowsRead(rows);
    assert AcceptRows(ParseRows(dc)) == Success(Expected(rows)) by {
      DebugColumnParsed(rows);
      AcceptAllTaken(ParseRows(dc), Expected(rows));
    }
    ExpectedColumns(rows);
  }

  /**
   * With a single symbol its code is empty; the row written for it has two
   * tokens and is skipped, so the rebuilt table files are empty.
   */
  lemma SingleSymbolTableEmpty(s: nat)
    ensures RegenerateTable(WriteRows([Row(s, "")]).codebook) == Success(TableFiles([], [], []))
  {
    var rows := [Row(s, "")];
    var content := WriteRows(rows).codebook;
    SingleRowSkipped(s);
    SingleRowRead(s);
    assert SymLines([]) == [] && CodeLines([]) == [] && LenLines([]) == [];
  }

  /** The one row of an empty code has two tokens and is skipped. */
  lemma SingleRowSkipped(s: nat)
    ensures AcceptRows(ParseRows(DebugColumn([Row(s, "")]))) == Success([])
  {
    var dc := DebugColumn([Row(s, "")]);
    DebugTextParsed(Row(s, ""));
    assert ParseRows(dc)[1..] == [];
  }

  /** The row loop reads that one row after the title. */
  lemma SingleRowRead(s: nat)
    ensures var content := WriteRows([Row(s, "")]).codebook;
      LinesD(content, RowsStart(content), DecompLineLen) == DebugColumn([Row(s, "")])
  {
    DebugTextFacts(Row(s, ""));
    CodebookRowsRead([Row(s, "")]);
  }

  /**
   * A code of 17 to 31 bits in the codebook makes the row loop abort, so the
   * decompression program stops with -1 before loading any table.
   */
  lemma LongCodeRejected(rows: seq<Row>, k: nat)
    requires forall j :: 0 <= j < |rows| ==> AllBits(rows[j].code) && |rows[j].code| <= MaxLengthField
    requires k < |rows| && |rows[k].code| > CodeBits
    ensures RegenerateTable(WriteRows(rows).codebook).Failure?
  {
    LongColumnReadable(rows);
    CodebookRowsRead(rows);
    LongRowAborts(rows, k);
  }

  /** The row loop aborts at the latest at the long code's row. */
  lemma LongRowAborts(rows: seq<Row>, k: nat)
    requires forall j :: 0 <= j < |rows| ==> AllBits(rows[j].code) && |rows[j].code| <= MaxLengthField
    requires k < |rows| && |rows[k].code| > CodeBits
    ensures AcceptRows(ParseRows(DebugColumn(rows))).Failure?
  {
    var dc := DebugColumn(rows);
    var ps := ParseRows(dc);
    DebugTextParsed(rows[k]);
    assert dc[k] == DebugText(rows[k].symbol, rows[k].code);
    assert ps[k] == ParseCodeRow(dc[k]);
    assert ps[k].Abort?;
    AcceptRowsFails(ps);
  }

  /** Rows with codes of at most 31 characters are all readable lines. */
  lemma LongColumnReadable(rows: seq<Row>)
    requires forall j :: 0 <= j < |rows| ==> AllBits(rows[j].code) && |rows[j].code| <= MaxLengthField
    ensures Readable(DebugColumn(rows))
  {
    var dc := DebugColumn(rows);
    forall j | 0 <= j < |rows|
      ensures 0 < |dc[j]| < DecompLineLen - 1 && Clean(dc[j])
    {
      LongRowFacts(rows[j]);
    }
  }

  /** A written row with a code of at most 31 characters is a readable line. */
  lemma LongRowFacts(row: Row)
    requires AllBits(row.code) && |row.code| <= MaxLengthField
    ensures var t := DebugText(row.symbol, row.code); 0 < |t| < DecompLineLen - 1 && Clean(t)
  {
    var a := SymText(row.symbol);
    var d := Decimal(|row.code|);
    var sp1, sp2 := DebugRowPieces(a, row.code);
    var _ := ShortDecimal(|row.code|);
    CleanPieces(a, sp1, row.code, sp2, d);
  }

  lemma CleanPieces(a: string, sp1: string, code: string, sp2: string, d: string)
    requires AllBits(a) && Blanks(sp1) && AllBits(code) && Blanks(sp2) && AllDigits(d)
    ensures Clean(a + sp1 + code + sp2 + d)
  {
    var t := a + sp1 + code + sp2 + d;
    forall i | 0 <= i < |t|
      ensures t[i] != '\n' && t[i] != '\r'
    {
      if i < |a| {
        assert t[i] == a[i];
      } else if i < |a| + |sp1| {
        assert t[i] == sp1[i - |a|];
      } else if i < |a| + |sp1| + |code| {
        assert t[i] == code[i - |a| - |sp1|];
      } else if i < |a| + |sp1| + |code| + |sp2| {
        assert t[i] == sp2[i - |a| - |sp1| - |code|];
      } else {
        assert t[i] == d[i - |a| - |sp1| - |code| - |sp2|];
      }
    }
  }

  // ---------------------------------------------------------------------
  // The stream file
  // ---------------------------------------------------------------------

  /** rstrip, then keep only the '0'/'1' characters. */
  function StreamBits(line: string): string
  {
    BitsOf(RStrip(line))
  }

  /** The stream loop: lines left without bits are skipped, more than 16 bits abort. */
  function AcceptStream(lines: seq<string>): (r: Result<seq<string>, ParseError>)
    ensures r.Success? ==> forall k :: 0 <= k < |r.value| ==> 0 < |r.value[k]| <= CodeBits && AllBits(r.value[k])
  {
    if |lines| == 0 then Success([])
    else
      var b := StreamBits(lines[0]);
      if |b| == 0 then AcceptStream(lines[1..])
      else if |b| > CodeBits then Failure(StreamTooLong(b))
      else
        var bs :- AcceptStream(lines[1..]);
        Success([b] + bs)
  }

  datatype StreamFiles = StreamFiles(codeOut: string, lenOut: string)

  /** OUTCW: each codeword as a 16-bit line of its value, zero-extended on the left. */
  function StreamCodeLines(bs: seq<string>): (r: seq<string>)
    ensures |r| == |bs|
    ensures forall k :: 0 <= k < |bs| ==>
      (|r[k]| == CodeBits && AllBits(r[k]) && BinValue(r[k]) == BinValue(bs[k]) % Pow2(CodeBits))
    ensures forall k :: 0 <= k < |bs| && AllBits(bs[k]) && |bs[k]| <= CodeBits ==>
      r[k] == Render(0, CodeBits - |bs[k]|) + bs[k]
  {
    WideCodewords(bs);
    seq(|bs|, k requires 0 <= k < |bs| => Render(BinValue(bs[k]), CodeBits))
  }

  /** OUTLEN: the number of bits kept, as a 5-bit line of that count modulo 32. */
  function StreamLenLines(bs: seq<string>): (r: seq<string>)
    ensures |r| == |bs|
    ensures forall k :: 0 <= k < |bs| ==>
      (|r[k]| == LenBits && AllBits(r[k]) && BinValue(r[k]) == |bs[k]| % Pow2(LenBits))
  {
    assert forall k :: 0 <= k < |bs| ==> BinValue(Render(|bs[k]|, LenBits)) == |bs[k]| % Pow2(LenBits) by {
      forall k | 0 <= k < |bs| {
        ValueOfRender(|bs[k]|, LenBits);
      }
    }
    seq(|bs|, k requires 0 <= k < |bs| => Render(|bs[k]|, LenBits))
  }

  /** generate_out_stream_files_from_OUTPUT on the content of OUTPUT.txt. */
  function RegenerateStream(stream: string): Result<StreamFiles, ParseError>
  {
    var bs :- AcceptStream(LinesD(stream, 0, DecompLineLen));
    Success(StreamFiles(Unlines(StreamCodeLines(bs), Eol), Unlines(StreamLenLines(bs), Eol)))
  }

  /** rstrip only removes blanks, which are not bits, so the kept bits are the line's bits. */
  lemma {:induction false} StripKeepsBits(line: string)
    ensures StreamBits(line) == BitsOf(line)
    decreases |line|
  {
    if |line| > 0 && IsBlank(line[|line| - 1]) {
      StripKeepsBits(line[..|line| - 1]);
    }
  }

  /** The stream loop fails exactly when some line keeps more than 16 bits. */
  lemma {:induction false} AcceptStreamFails(lines: seq<string>)
    ensures AcceptStream(lines).Failure? <==> exists k :: 0 <= k < |lines| && |StreamBits(lines[k])| > CodeBits
  {
    if |lines| > 0 {
      AcceptStreamFails(lines[1..]);
      var rest := lines[1..];
      assert forall k :: 1 <= k < |lines| ==> lines[k] == rest[k - 1];
      if exists k :: 0 <= k < |lines| && |StreamBits(lines[k])| > CodeBits {
        var k :| 0 <= k < |lines| && |StreamBits(lines[k])| > CodeBits;
        if k > 0 {
          assert rest[k - 1] == lines[k];
        }
      }
    }
  }

  /** Lines that are already codewords of at most 16 bits are kept as they are. */
  lemma {:induction false} AcceptCodes(o: seq<string>)
    requires forall k :: 0 <= k < |o| ==> 0 < |o[k]| <= CodeBits && AllBits(o[k])
    ensures AcceptStream(o) == Success(o)
  {
    if |o| > 0 {
      assert StreamBits(o[0]) == o[0] by {
        StripKeepsBits(o[0]);
        BitsOfAll(o[0]);
      }
      AcceptCodes(o[1..]);
      assert [o[0]] + o[1..] == o;
    }
  }

  /**
   * The encoded stream, one non-empty codeword of at most 16 bits per line,
   * is turned into one 16-bit line and one 5-bit line per codeword.
   */
  lemma StreamRoundTrip(o: seq<string>)
    requires forall k :: 0 <= k < |o| ==> 0 < |o[k]| <= CodeBits && AllBits(o[k])
    ensures RegenerateStream(Unlines(o, Eol)) == Success(StreamFiles(Unlines(StreamCodeLines(o), Eol), Unlines(StreamLenLines(o), Eol)))
  {
    LinesDRoundTrip(o, Eol, DecompLineLen);
    AcceptCodes(o);
  }

  /**
   * The pair of lines written for a codeword reads back as its value and its
   * length, and the value shown in that many bits is the codeword again: the
   * pair handed to the decoder determines the code string.
   */
  lemma PairDeterminesCode(b: string)
    requires |b| <= CodeBits && AllBits(b)
    ensures BinStrToInt(Render(BinValue(b), CodeBits)) == BinValue(b)
    ensures BinStrToInt(Render(|b|, LenBits)) == |b|
    ensures Render(BinValue(b), |b|) == b
  {
    Pow2Values();
    BinValueBound(b);
    Pow2Monotone(|b|, CodeBits);
    BinStrToIntOfRender(BinValue(b), CodeBits, []);
    assert Render(BinValue(b), CodeBits) + [] == Render(BinValue(b), CodeBits);
    DivModUnique(BinValue(b), Pow2(CodeBits), 0, BinValue(b));
    BinStrToIntOfRender(|b|, LenBits, []);
    assert Render(|b|, LenBits) + [] == Render(|b|, LenBits);
    DivModUnique(|b|, Pow2(LenBits), 0, |b|);
    RenderOfValue(b);
  }
}
