/**
 * split_comp_bin: the decompression program takes COMP.bin apart again.
 * The bundle is the header file, the codebook file and the encoded stream
 * file copied one after the other.  The splitter reads it line by line and
 * runs a three-state machine:
 *   - header: a line starting with "Symbol" opens the codebook, any other
 *     line belongs to the header;
 *   - codebook: a line that is a single binary token opens the stream, any
 *     other line belongs to the codebook;
 *   - stream: every line belongs to the stream.
 * Each line is written, with "\r\n", to the segment of the state it leads to.
 */
module Bundle {
  import opened BinText
  import opened CText
  import opened LineIO
  import opened Codebook

  const SectionTag: string := "Symbol"

  datatype Phase = InHeader | InCodebook | InStream

  function Rank(p: Phase): nat
  {
    match p
    case InHeader => 0
    case InCodebook => 1
    case InStream => 2
  }

  /** A stream line: exactly one white-space separated token, all '0'/'1'. */
  predicate IsStreamLine(l: string) { TokenCount(l) == 1 && IsBinStr(l) }

  /** The state after one line; it never moves back and never skips a state. */
  function Next(p: Phase, l: string): (q: Phase)
    ensures Rank(p) <= Rank(q) <= Rank(p) + 1
    ensures p == InHeader ==> (q == InCodebook <==> StartsWith(l, SectionTag))
    ensures p == InCodebook ==> (q == InStream <==> IsStreamLine(l))
  {
    match p
    case InHeader => if StartsWith(l, SectionTag) then InCodebook else InHeader
    case InCodebook => if IsStreamLine(l) then InStream else InCodebook
    case InStream => InStream
  }

  datatype Segments = Segments(header: seq<string>, codebook: seq<string>, stream: seq<string>)

  /** The line put in front of the segment that belongs to `p`. */
  function Put(p: Phase, l: string, s: Segments): Segments
  {
    match p
    case InHeader => s.(header := [l] + s.header)
    case InCodebook => s.(codebook := [l] + s.codebook)
    case InStream => s.(stream := [l] + s.stream)
  }

  /** The read loop of split_comp_bin from state `p` on. */
  function Split(lines: seq<string>, p: Phase): Segments
  {
    if |lines| == 0 then Segments([], [], [])
    else
      var q := Next(p, lines[0]);
      Put(q, lines[0], Split(lines[1..], q))
  }

  /**
   * What the segments of a run from state `p` look like: header lines never
   * start with "Symbol", the codebook opens with the first line that does,
   * no later codebook line is a stream line, and the stream opens with one.
   * A run that starts past a state leaves that state's segment empty.
   */
  predicate Shape(h: seq<string>, c: seq<string>, o: seq<string>, p: Phase)
  {
    && (p != InHeader ==> |h| == 0)
    && (p == InStream ==> |c| == 0)
    && (forall k :: 0 <= k < |h| ==> !StartsWith(h[k], SectionTag))
    && (p == InHeader && |c| > 0 ==> StartsWith(c[0], SectionTag))
    && (p == InHeader && |c| == 0 ==> |o| == 0)
    && (forall k :: (if p == InHeader then 1 else 0) <= k < |c| ==> !IsStreamLine(c[k]))
    && (p != InStream && |o| > 0 ==> IsStreamLine(o[0]))
  }

  // ---------------------------------------------------------------------
  // Every run has that shape
  // ---------------------------------------------------------------------

  lemma {:induction false} SplitStream(lines: seq<string>)
    ensures Split(lines, InStream) == Segments([], [], lines)
  {
    if |lines| > 0 {
      SplitStream(lines[1..]);
      assert [lines[0]] + lines[1..] == lines;
    }
  }

  lemma {:induction false} SplitCodebook(lines: seq<string>)
    ensures var s := Split(lines, InCodebook);
      s.header == [] && s.codebook + s.stream == lines && Shape(s.header, s.codebook, s.stream, InCodebook)
  {
    if |lines| > 0 {
      var l := lines[0];
      assert [l] + lines[1..] == lines;
      if IsStreamLine(l) {
        SplitStream(lines[1..]);
      } else {
        SplitCodebook(lines[1..]);
        var s := Split(lines[1..], InCodebook);
        assert [l] + s.codebook + s.stream == lines;
      }
    }
  }

  lemma {:induction false} SplitHeader(lines: seq<string>)
    ensures var s := Split(lines, InHeader);
      s.header + s.codebook + s.stream == lines && Shape(s.header, s.codebook, s.stream, InHeader)
  {
    if |lines| > 0 {
      var l := lines[0];
      if StartsWith(l, SectionTag) {
        SplitCodebook(lines[1..]);
        var s := Split(lines[1..], InCodebook);
        assert Split(lines, InHeader) == Segments([], [l] + s.codebook, s.stream);
        ConsJoin(l, [], s.codebook, s.stream, lines);
        OpenCodebook(l, s.codebook, s.stream);
      } else {
        SplitHeader(lines[1..]);
        var s := Split(lines[1..], InHeader);
        assert Split(lines, InHeader) == Segments([l] + s.header, s.codebook, s.stream);
        ConsJoin(l, s.header, s.codebook, s.stream, lines);
        ConsHeader(l, s.header, s.codebook, s.stream);
      }
    }
  }

  /** A line put in front of the first segment is the first line read. */
  lemma ConsJoin(l: string, h: seq<string>, c: seq<string>, o: seq<string>, lines: seq<string>)
    requires |lines| > 0 && l == lines[0]
    requires if |h| > 0 then h + c + o == lines[1..] else c + o == lines[1..]
    ensures if |h| > 0 then [l] + h + c + o == lines else [] + ([l] + c) + o == lines
  {
    assert [l] + lines[1..] == lines;
    if |h| > 0 {
      assert [l] + h + c + o == [l] + (h + c + o);
    } else {
      assert [] + ([l] + c) + o == [l] + (c + o);
    }
  }

  /** A header line that does not start with "Symbol" keeps a header run's shape. */
  lemma ConsHeader(l: string, h: seq<string>, c: seq<string>, o: seq<string>)
    requires !StartsWith(l, SectionTag) && Shape(h, c, o, InHeader)
    ensures Shape([l] + h, c, o, InHeader)
  {
    var h' := [l] + h;
    forall k | 0 <= k < |h'|
      ensures !StartsWith(h'[k], SectionTag)
    {
      if k > 0 {
        assert h'[k] == h[k - 1];
      }
    }
  }

  /** The "Symbol" line in front of a codebook run opens the codebook of a header run. */
  lemma OpenCodebook(l: string, c: seq<string>, o: seq<string>)
    requires StartsWith(l, SectionTag) && Shape([], c, o, InCodebook)
    ensures Shape([], [l] + c, o, InHeader)
  {
    var c' := [l] + c;
    forall k | 1 <= k < |c'|
      ensures !IsStreamLine(c'[k])
    {
      assert c'[k] == c[k - 1];
    }
  }

  /**
   * Each line lands in exactly one segment and the order is kept: the three
   * segments laid end to end are the lines read.  The segments have the
   * shape above.
   */
  lemma SplitSound(lines: seq<string>, p: Phase)
    ensures var s := Split(lines, p);
      s.header + s.codebook + s.stream == lines && Shape(s.header, s.codebook, s.stream, p)
  {
    match p
    case InHeader => SplitHeader(lines);
    case InCodebook => SplitCodebook(lines);
    case InStream => SplitStream(lines);
  }

  // ---------------------------------------------------------------------
  // ... and that shape fixes the segments
  // ---------------------------------------------------------------------

  lemma {:induction false} CodebookThenStream(c: seq<string>, o: seq<string>)
    requires forall k :: 0 <= k < |c| ==> !IsStreamLine(c[k])
    requires |o| > 0 ==> IsStreamLine(o[0])
    ensures Split(c + o, InCodebook) == Segments([], c, o)
  {
    if |c| > 0 {
      assert (c + o)[0] == c[0] && (c + o)[1..] == c[1..] + o;
      CodebookThenStream(c[1..], o);
      assert [c[0]] + c[1..] == c;
    } else if |o| > 0 {
      assert c + o == o;
      SplitStream(o[1..]);
      assert [o[0]] + o[1..] == o;
    }
  }

  lemma {:induction false} HeaderThenRest(h: seq<string>, c: seq<string>, o: seq<string>)
    requires Shape(h, c, o, InHeader)
    ensures Split(h + c + o, InHeader) == Segments(h, c, o)
  {
    if |h| > 0 {
      assert (h + c + o)[0] == h[0] && (h + c + o)[1..] == h[1..] + c + o;
      HeaderThenRest(h[1..], c, o);
      assert [h[0]] + h[1..] == h;
    } else if |c| > 0 {
      assert h + c + o == [c[0]] + (c[1..] + o);
      CodebookThenStream(c[1..], o);
      assert [c[0]] + c[1..] == c;
    } else {
      assert h + c + o == [];
    }
  }

  /**
   * The converse of SplitSound: segments of that shape, laid end to end,
   * are split back into exactly those segments.
   */
  lemma SplitUnique(h: seq<string>, c: seq<string>, o: seq<string>, p: Phase)
    requires Shape(h, c, o, p)
    ensures Split(h + c + o, p) == Segments(h, c, o)
  {
    match p
    case InHeader => HeaderThenRest(h, c, o);
    case InCodebook =>
      assert h + c + o == c + o;
      CodebookThenStream(c, o);
    case InStream =>
      assert h + c + o == o;
      SplitStream(o);
  }

  // ---------------------------------------------------------------------
  // The files
  // ---------------------------------------------------------------------

  datatype SplitFiles = SplitFiles(header: string, codebook: string, stream: string)

  /** split_comp_bin on the content of COMP.bin. */
  function SplitCompBin(bundle: string): SplitFiles
  {
    var s := Split(LinesD(bundle, 0, DecompLineLen), InHeader);
    SplitFiles(Unlines(s.header, Eol), Unlines(s.codebook, Eol), Unlines(s.stream, Eol))
  }

  /** stage_create_comp_bin: the three files copied one after the other. */
  function CreateCompBin(header: string, codebook: string, stream: string): string
  {
    header + codebook + stream
  }

  /** A line the decompression-side reader hands over whole. */
  predicate Readable(lines: seq<string>)
  {
    forall k :: 0 <= k < |lines| ==> 0 < |lines[k]| < DecompLineLen - 1 && Clean(lines[k])
  }

  lemma Slices(x: string, y: string, z: string)
    ensures var all := x + y + z;
      all[0..|x|] == x && all[|x|..|x| + |y|] == y && all[|x| + |y|..|all|] == z
  {
  }

  lemma LinesDAtEnd(content: string, len: nat)
    requires len >= 1
    ensures LinesD(content, |content|, len) == []
  {
  }

  /** Reading two written blocks at the front of a text, with the rest of the text still to come. */
  lemma ReadTwoAt(all: string, p1: nat, p2: nat, a: seq<string>, eolA: string, b: seq<string>)
    requires IsEol(eolA) && Readable(a) && Readable(b)
    requires p1 == |Unlines(a, eolA)| && p2 == p1 + |Unlines(b, Eol)| && p2 <= |all|
    requires all[0..p1] == Unlines(a, eolA) && all[p1..p2] == Unlines(b, Eol)
    ensures LinesD(all, 0, DecompLineLen) == a + b + LinesD(all, p2, DecompLineLen)
  {
    var rest := LinesD(all, p2, DecompLineLen);
    assert LinesD(all, 0, DecompLineLen) == a + LinesD(all, p1, DecompLineLen) by {
      LinesDOfUnlines(all, 0, p1, DecompLineLen, a, eolA);
    }
    assert LinesD(all, p1, DecompLineLen) == b + rest by {
      LinesDOfUnlines(all, p1, p2, DecompLineLen, b, Eol);
    }
    assert a + (b + rest) == a + b + rest;
  }

  /** Three blocks of readable lines are read back as one list. */
  lemma ReadThree(a: seq<string>, eolA: string, b: seq<string>, c: seq<string>)
    requires IsEol(eolA) && Readable(a) && Readable(b) && Readable(c)
    ensures LinesD(Unlines(a, eolA) + Unlines(b, Eol) + Unlines(c, Eol), 0, DecompLineLen) == a + b + c
  {
    var ua, ub, uc := Unlines(a, eolA), Unlines(b, Eol), Unlines(c, Eol);
    var all := ua + ub + uc;
    Slices(ua, ub, uc);
    ReadTwoAt(all, |ua|, |ua| + |ub|, a, eolA, b);
    assert LinesD(all, |ua| + |ub|, DecompLineLen) == c by {
      LinesDOfUnlines(all, |ua| + |ub|, |all|, DecompLineLen, c, Eol);
      LinesDAtEnd(all, DecompLineLen);
    }
  }

  /**
   * A bundle whose header lines never start with "Symbol", whose codebook
   * opens with a "Symbol" line and holds no other stream line, and whose
   * stream opens with a stream line, splits back into its three parts, each
   * rewritten with "\r\n" line ends.
   */
  lemma BundleSplitsBack(h: seq<string>, eolH: string, c: seq<string>, o: seq<string>)
    requires IsEol(eolH) && Readable(h) && Readable(c) && Readable(o)
    requires Shape(h, c, o, InHeader)
    ensures SplitCompBin(CreateCompBin(Unlines(h, eolH), Unlines(c, Eol), Unlines(o, Eol)))
      == SplitFiles(Unlines(h, Eol), Unlines(c, Eol), Unlines(o, Eol))
  {
    ReadThree(h, eolH, c, o);
    SplitUnique(h, c, o, InHeader);
  }

  // ---------------------------------------------------------------------
  // The bundle the compression program writes
  // ---------------------------------------------------------------------

  /** The lines of HMCZFO.txt: title, rule, one readable row per code. */
  function CodebookLines(rows: seq<Row>): seq<string>
  {
    [HeaderTitle, HeaderRule] + DebugColumn(rows)
  }

  /** A code row "%-10s %-20s %2d" has a blank right after the 8-bit symbol. */
  lemma DebugRowFacts(sym: string, code: string)
    requires |sym| == SymBits && AllBits(sym)
    requires AllBits(code) && |code| <= CodeBits
    ensures var t := DebugRow(sym, code);
      |t| == 34 && Clean(t) && t[8] == ' ' && !IsStreamLine(t) && !StartsWith(t, SectionTag)
  {
    var t := DebugRow(sym, code);
    var a, c, l := DebugRowFields(sym, code);
    JoinedRow(t, a, c, l);
    BlankAtEight(t);
  }

  /** The three padded fields of the row. */
  lemma DebugRowFields(sym: string, code: string) returns (a: string, c: string, l: string)
    requires |sym| == SymBits && AllBits(sym)
    requires AllBits(code) && |code| <= CodeBits
    ensures DebugRow(sym, code) == a + " " + c + " " + l
    ensures |a| == 10 && |c| == 20 && |l| == 2 && a[8] == ' ' && a[0] == sym[0]
    ensures Clean(a) && Clean(c) && Clean(l)
  {
    a := PaddedField(sym, 10);
    c := PaddedField(code, 20);
    var d := ShortDecimal(|code|);
    l := PadLeft(d, 2);
    assert Clean(l) by {
      CleanJoin(Spaces(2 - |d|), d);
    }
  }

  /** A bit string padded on the right stays clean and keeps its first character. */
  lemma PaddedField(s: string, n: nat) returns (r: string)
    requires AllBits(s) && |s| <= n
    ensures r == PadRight(s, n) && |r| == n && Clean(r)
    ensures |s| > 0 ==> r[0] == s[0]
    ensures forall i :: |s| <= i < n ==> r[i] == ' '
  {
    r := PadRight(s, n);
    assert Clean(r) by {
      forall i | 0 <= i < |r|
        ensures r[i] != '\n' && r[i] != '\r'
      {
        if i < |s| {
          assert r[i] == s[i];
        }
      }
    }
  }

  /** A length below 100 prints in at most two clean digits. */
  lemma ShortDecimal(n: nat) returns (d: string)
    requires n < 100
    ensures d == Decimal(n) && 0 < |d| <= 2 && Clean(d)
  {
    d := Decimal(n);
    if n >= 10 {
      assert d == Decimal(n / 10) + [DigitChar(n % 10)];
    }
  }

  /** A line with a blank at index 8 and a bit at index 0 is neither a stream line nor a title. */
  lemma BlankAtEight(t: string)
    requires |t| > 8 && t[8] == ' ' && IsBit(t[0])
    ensures !IsStreamLine(t) && !StartsWith(t, SectionTag)
  {
    assert !AllBits(t) by {
      assert !IsBit(t[8]);
    }
    assert !StartsWith(t, SectionTag) by {
      assert t[0] != SectionTag[0];
    }
  }

  /** The three padded fields of a code row joined by single blanks. */
  lemma JoinedRow(t: string, a: string, c: string, l: string)
    requires t == a + " " + c + " " + l
    requires |a| == 10 && |c| == 20 && |l| == 2 && a[8] == ' '
    requires Clean(a) && Clean(c) && Clean(l)
    ensures |t| == 34 && t[8] == ' ' && t[0] == a[0] && Clean(t)
  {
    assert t[8] == a[8] && t[0] == a[0];
    CleanJoin(a, " ");
    CleanJoin(a + " ", c);
    CleanJoin(a + " " + c, " ");
    CleanJoin(a + " " + c + " ", l);
  }

  lemma CleanJoin(x: string, y: string)
    requires Clean(x) && Clean(y)
    ensures Clean(x + y)
  {
    var z := x + y;
    forall i | 0 <= i < |z|
      ensures z[i] != '\n' && z[i] != '\r'
    {
      if i < |x| {
        assert z[i] == x[i];
      } else {
        assert z[i] == y[i - |x|];
      }
    }
  }

  /** The same for the row written for symbol s. */
  lemma DebugTextFacts(row: Row)
    requires AllBits(row.code) && |row.code| <= CodeBits
    ensures var t := DebugText(row.symbol, row.code);
      |t| == 34 && Clean(t) && !IsStreamLine(t) && !StartsWith(t, SectionTag)
  {
    DebugRowFacts(SymText(row.symbol), row.code);
  }

  lemma HeaderLinesFacts()
    ensures StartsWith(HeaderTitle, SectionTag) && Clean(HeaderTitle) && 0 < |HeaderTitle| < DecompLineLen - 1
    ensures Clean(HeaderRule) && |HeaderRule| == 38 && !IsStreamLine(HeaderRule)
  {
    assert HeaderRule[0] == '-';
  }

  /**
   * The codebook file of a table whose codes are bit strings of at most 16
   * characters is a valid codebook segment: readable, opened by its title
   * line and without a stream line after it.
   */
  lemma CodebookSegment(rows: seq<Row>)
    requires forall k :: 0 <= k < |rows| ==> AllBits(rows[k].code) && |rows[k].code| <= CodeBits
    ensures var c := CodebookLines(rows);
      Readable(c) && StartsWith(c[0], SectionTag) && forall k :: 1 <= k < |c| ==> !IsStreamLine(c[k])
  {
    var dc := DebugColumn(rows);
    assert forall k :: 0 <= k < |dc| ==> 0 < |dc[k]| < DecompLineLen - 1 && Clean(dc[k]) && !IsStreamLine(dc[k]) by {
      forall k | 0 <= k < |dc|
        ensures 0 < |dc[k]| < DecompLineLen - 1 && Clean(dc[k]) && !IsStreamLine(dc[k])
      {
        DebugTextFacts(rows[k]);
      }
    }
    HeaderLinesFacts();
    TitledSegment(HeaderTitle, HeaderRule, dc);
  }

  lemma TitledSegment(t: string, u: string, dc: seq<string>)
    requires StartsWith(t, SectionTag) && Clean(t) && 0 < |t| < DecompLineLen - 1
    requires Clean(u) && 0 < |u| < DecompLineLen - 1 && !IsStreamLine(u)
    requires forall k :: 0 <= k < |dc| ==> 0 < |dc[k]| < DecompLineLen - 1 && Clean(dc[k]) && !IsStreamLine(dc[k])
    ensures var c := [t, u] + dc;
      Readable(c) && StartsWith(c[0], SectionTag) && forall k :: 1 <= k < |c| ==> !IsStreamLine(c[k])
  {
    var c := [t, u] + dc;
    assert forall k :: 2 <= k < |c| ==> c[k] == dc[k - 2];
  }

  /** A non-empty bit string is a stream line. */
  lemma BitsAreStreamLine(l: string)
    requires |l| > 0 && AllBits(l)
    ensures IsStreamLine(l)
  {
    BitsHaveNoSpace(l);
    SingleToken(l);
  }

  /**
   * The bundle of the compression program splits back into its parts: a
   * header whose lines are readable and never start with "Symbol", the
   * codebook file of rows with codes of at most 16 bits, and a stream of
   * non-empty codewords.  With two or more symbols every codeword is
   * non-empty, which this asks of the stream.
   */
  lemma CompressedBundleSplits(h: seq<string>, rows: seq<Row>, o: seq<string>)
    requires Readable(h) && forall k :: 0 <= k < |h| ==> !StartsWith(h[k], SectionTag)
    requires forall k :: 0 <= k < |rows| ==> AllBits(rows[k].code) && |rows[k].code| <= CodeBits
    requires forall k :: 0 <= k < |o| ==> 0 < |o[k]| <= CodeBits && AllBits(o[k])
    ensures SplitCompBin(CreateCompBin(Unlines(h, "\n"), WriteRows(rows).codebook, Unlines(o, Eol)))
      == SplitFiles(Unlines(h, Eol), WriteRows(rows).codebook, Unlines(o, Eol))
  {
    var c := CodebookLines(rows);
    CodebookSegment(rows);
    assert Readable(o);
    if |o| > 0 {
      BitsAreStreamLine(o[0]);
    }
    BundleSplitsBack(h, "\n", c, o);
  }

  /** A written block that opens with an empty line opens with the bare terminator. */
  lemma UnlinesEmptyFirst(o: seq<string>, eol: string)
    requires |o| > 0 && o[0] == ""
    ensures Unlines(o, eol) == eol + Unlines(o[1..], eol)
  {
  }

  /** An empty line after two blocks ends the decompression-side loop there. */
  lemma EmptyLineAfter(x: string, y: string, eol: string, w: string)
    requires IsEol(eol)
    ensures LinesD(x + y + (eol + w), |x| + |y|, DecompLineLen) == []
  {
    var all := x + y + (eol + w);
    var p := |x| + |y|;
    assert all[p..p + |eol|] == eol;
    EmptyLineEndsLoop(all, p, DecompLineLen, eol);
  }

  /**
   * With a single symbol every codeword is empty, so the stream file is a
   * run of empty lines; the first of them ends the splitter's read loop and
   * the stream segment comes out empty.
   */
  lemma SingleSymbolStreamLost(h: seq<string>, rows: seq<Row>, n: nat)
    requires Readable(h) && forall k :: 0 <= k < |h| ==> !StartsWith(h[k], SectionTag)
    requires forall k :: 0 <= k < |rows| ==> AllBits(rows[k].code) && |rows[k].code| <= CodeBits
    requires n > 0
    ensures SplitCompBin(CreateCompBin(Unlines(h, "\n"), WriteRows(rows).codebook, Unlines(seq(n, _ => ""), Eol))).stream == []
  {
    var c := CodebookLines(rows);
    var o: seq<string> := seq(n, _ => "");
    CodebookSegment(rows);
    var uh, uc, uo := Unlines(h, "\n"), Unlines(c, Eol), Unlines(o, Eol);
    var bundle := uh + uc + uo;
    var p2 := |uh| + |uc|;
    Slices(uh, uc, uo);
    ReadTwoAt(bundle, |uh|, p2, h, "\n", c);
    assert LinesD(bundle, p2, DecompLineLen) == [] by {
      UnlinesEmptyFirst(o, Eol);
      EmptyLineAfter(uh, uc, Eol, Unlines(o[1..], Eol));
    }
    assert h + c + [] == h + c;
    SplitUnique(h, c, [], InHeader);
  }
}
