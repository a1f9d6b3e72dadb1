/**
 * The two bit packers of the compression program.  Both walk a text, skip
 * every character that is not '0' or '1', and shift the bits MSB-first into
 * an accumulator that is handed on once it holds w bits:
 *   - stage_freq_counter: w = 8, each group is one symbol for the frequency
 *     counter IP; a trailing partial group is dropped;
 *   - stage_bit_parser: w = 32, each group is one word for the bit parser IP;
 *     a trailing partial word is shifted left and zero-padded.
 * The IPs themselves are not modelled: the stages here end with the values
 * they hand over.
 */
module Packing {
  import opened Wrappers
  import opened BinText
  import opened CText
  import opened LineIO

  /** The '0'/'1' characters of a text, in order. */
  function BitsOf(s: string): (r: string)
    ensures AllBits(r) && |r| <= |s|
  {
    if |s| == 0 then []
    else BitsOf(s[..|s| - 1]) + (if IsBit(s[|s| - 1]) then [s[|s| - 1]] else [])
  }

  function Concat(parts: seq<string>): string
  {
    if |parts| == 0 then [] else Concat(parts[..|parts| - 1]) + parts[|parts| - 1]
  }

  /** The consecutive w-character blocks of a text, from the front; a shorter tail is not a block. */
  function Blocks(bits: string, w: nat): (r: seq<string>)
    requires w > 0
    decreases |bits|
  {
    if |bits| < w then [] else [bits[..w]] + Blocks(bits[w..], w)
  }

  /** What is left over after the blocks. */
  function Tail(bits: string, w: nat): (r: string)
    requires w > 0
    ensures |r| < w
    decreases |bits|
  {
    if |bits| < w then bits else Tail(bits[w..], w)
  }

  /** Every element has w characters. */
  predicate Sized(parts: seq<string>, w: nat)
  {
    forall k :: 0 <= k < |parts| ==> |parts[k]| == w
  }

  function Values(parts: seq<string>): (r: seq<nat>)
    ensures |r| == |parts| && forall k :: 0 <= k < |parts| ==> r[k] == BinValue(parts[k])
  {
    seq(|parts|, k requires 0 <= k < |parts| => BinValue(parts[k]))
  }

  lemma ValuesSnoc(parts: seq<string>, p: string)
    ensures Values(parts + [p]) == Values(parts) + [BinValue(p)]
  {
    var l, r := Values(parts + [p]), Values(parts) + [BinValue(p)];
    assert |l| == |r|;
    forall k | 0 <= k < |l|
      ensures l[k] == r[k]
    {
      if k < |parts| {
        assert (parts + [p])[k] == parts[k];
      }
    }
  }

  lemma ConcatSnoc(parts: seq<string>, p: string)
    ensures Concat(parts + [p]) == Concat(parts) + p
  {
    assert (parts + [p])[..|parts|] == parts;
  }

  lemma {:induction false} ConcatCons(p: string, parts: seq<string>)
    ensures Concat([p] + parts) == p + Concat(parts)
  {
    if |parts| == 0 {
      assert [p] + parts == [] + [p];
      ConcatSnoc([], p);
    } else {
      var n := |parts| - 1;
      assert [p] + parts == ([p] + parts[..n]) + [parts[n]];
      ConcatSnoc([p] + parts[..n], parts[n]);
      ConcatCons(p, parts[..n]);
      ConcatSnoc(parts[..n], parts[n]);
      assert parts[..n] + [parts[n]] == parts;
    }
  }

  /** The blocks and the tail put back together are the text; the tail is shorter than a block. */
  lemma {:induction false} BlocksCover(bits: string, w: nat)
    requires w > 0
    ensures Concat(Blocks(bits, w)) + Tail(bits, w) == bits
    ensures Sized(Blocks(bits, w), w) && |Tail(bits, w)| < w
    decreases |bits|
  {
    if |bits| >= w {
      var rest := Blocks(bits[w..], w);
      BlocksCover(bits[w..], w);
      assert Concat(Blocks(bits, w)) + Tail(bits, w) == bits by {
        ConcatCons(bits[..w], rest);
        assert bits == bits[..w] + bits[w..];
      }
      assert Sized(Blocks(bits, w), w) by {
        assert forall k :: 1 <= k < |[bits[..w]] + rest| ==> ([bits[..w]] + rest)[k] == rest[k - 1];
      }
    } else {
      assert Concat([]) + bits == bits;
    }
  }

  /**
   * A text splits into w-character blocks and a shorter tail in one way only,
   * so any such split is Blocks and Tail.
   */
  lemma {:induction false} SplitUnique(parts: seq<string>, tail: string, w: nat)
    requires w > 0 && Sized(parts, w) && |tail| < w
    ensures Blocks(Concat(parts) + tail, w) == parts && Tail(Concat(parts) + tail, w) == tail
    decreases |parts|
  {
    var bits := Concat(parts) + tail;
    if |parts| == 0 {
      assert bits == tail;
    } else {
      var rest := parts[1..];
      var more := Concat(rest) + tail;
      assert bits == parts[0] + more by {
        assert parts == [parts[0]] + rest;
        ConcatCons(parts[0], rest);
      }
      assert |parts[0]| == w;
      assert bits[..w] == parts[0] && bits[w..] == more;
      assert Sized(rest, w);
      SplitUnique(rest, tail, w);
      assert Blocks(bits, w) == [parts[0]] + rest;
    }
  }

  // ---------------------------------------------------------------------
  // The packing loop
  // ---------------------------------------------------------------------

  lemma BitsOfSnoc(buf: string, i: nat)
    requires i < |buf|
    ensures BitsOf(buf[..i + 1]) == BitsOf(buf[..i]) + (if IsBit(buf[i]) then [buf[i]] else [])
  {
    assert buf[..i + 1][..i] == buf[..i];
  }

  /** The bits seen so far are the blocks handed over and the pending bits. */
  predicate Packed(bits: string, w: nat, blocks: seq<string>, pend: string)
  {
    Concat(blocks) + pend == bits && Sized(blocks, w) && |pend| < w
  }

  /** One more bit appended to the pending bits. */
  lemma Extend(bits: string, blocks: seq<string>, pend: string, c: char)
    requires Concat(blocks) + pend == bits
    ensures Concat(blocks) + (pend + [c]) == bits + [c]
    ensures BinValue(pend + [c]) == 2 * BinValue(pend) + BitValue(c)
  {
    assert (pend + [c])[..|pend|] == pend;
    assert Concat(blocks) + (pend + [c]) == (Concat(blocks) + pend) + [c];
  }

  /** One more bit that completes a block. */
  lemma Complete(bits: string, w: nat, blocks: seq<string>, pend: string, c: char)
    requires Packed(bits, w, blocks, pend) && |pend| + 1 == w
    ensures Packed(bits + [c], w, blocks + [pend + [c]], [])
    ensures Values(blocks + [pend + [c]]) == Values(blocks) + [BinValue(pend + [c])]
  {
    assert Concat(blocks + [pend + [c]]) + [] == bits + [c] by {
      Extend(bits, blocks, pend, c);
      ConcatSnoc(blocks, pend + [c]);
    }
    assert Sized(blocks + [pend + [c]], w);
    ValuesSnoc(blocks, pend + [c]);
  }

  /**
   * The loop shared by both stages: each '0' or '1' is shifted into the
   * accumulator, and when w bits have been taken in their value is handed
   * over and the accumulator starts again; other characters are skipped.
   * It hands over the value of every full w-bit block of the text's bits, and
   * ends holding the value and the length of the tail.
   */
  method PackBits(buf: string, w: nat) returns (words: seq<nat>, pending: nat, count: nat)
    requires w > 0
    ensures words == Values(Blocks(BitsOf(buf), w))
    ensures pending == BinValue(Tail(BitsOf(buf), w)) && count == |Tail(BitsOf(buf), w)|
  {
    words := [];
    pending := 0;
    count := 0;
    ghost var blocks: seq<string> := [];
    ghost var pend: string := [];
    var i := 0;
    while i < |buf|
      invariant i <= |buf|
      invariant Packed(BitsOf(buf[..i]), w, blocks, pend)
      invariant words == Values(blocks) && pending == BinValue(pend) && count == |pend|
    {
      BitsOfSnoc(buf, i);
      var c := buf[i];
      if c == '0' || c == '1' {
        Extend(BitsOf(buf[..i]), blocks, pend, c);
        if count + 1 == w {
          Complete(BitsOf(buf[..i]), w, blocks, pend, c);
        }
        pending := 2 * pending + (if c == '1' then 1 else 0);
        pend := pend + [c];
        count := count + 1;
        if count == w {
          words := words + [pending];
          blocks := blocks + [pend];
          pending := 0;
          count := 0;
          pend := [];
        }
      }
      i := i + 1;
    }
    assert buf[..i] == buf;
    SplitUnique(blocks, pend, w);
  }

  // ---------------------------------------------------------------------
  // stage_freq_counter: symbols
  // ---------------------------------------------------------------------

  const SymbolBits: nat := 8

  datatype StageError = EmptyInput

  /**
   * The symbols stage_freq_counter hands to the frequency counter: one per
   * full group of 8 bits of the parsed file.  An empty file is an error.
   */
  method FreqSymbols(file: string) returns (r: Result<seq<nat>, StageError>)
    ensures r.Failure? <==> |file| == 0
    ensures r.Success? ==> r.value == Values(Blocks(BitsOf(file), SymbolBits))
  {
    if |file| == 0 {
      return Failure(EmptyInput);
    }
    var words, pending, count := PackBits(file, SymbolBits);
    r := Success(words);
  }

  /** Each group of w bits has a value below 2^w: every symbol is a byte. */
  lemma ValuesBound(parts: seq<string>, w: nat)
    requires Sized(parts, w)
    ensures forall k :: 0 <= k < |parts| ==> Values(parts)[k] < Pow2(w)
  {
    forall k | 0 <= k < |parts|
      ensures Values(parts)[k] < Pow2(w)
    {
      BinValueBound(parts[k]);
    }
  }

  /** write_binary_string: bits 7..0 of the value and a '\n'. */
  function ByteLine(v: nat): string
  {
    Render(v, SymbolBits) + "\n"
  }

  function ByteLines(outs: seq<nat>): seq<string>
  {
    seq(|outs|, k requires 0 <= k < |outs| => Render(outs[k], SymbolBits))
  }

  lemma {:induction false} BitsOfAppend(a: string, b: string)
    ensures BitsOf(a + b) == BitsOf(a) + BitsOf(b)
    decreases |b|
  {
    if |b| == 0 {
      assert a + b == a;
    } else {
      var n := |b| - 1;
      assert (a + b)[..|a + b| - 1] == a + b[..n];
      BitsOfAppend(a, b[..n]);
    }
  }

  /** A file of bit lines ending in '\n' carries exactly the lines' bits. */
  lemma {:induction false} BitsOfByteFile(lines: seq<string>)
    requires forall k :: 0 <= k < |lines| ==> AllBits(lines[k])
    ensures BitsOf(Unlines(lines, "\n")) == Concat(lines)
    decreases |lines|
  {
    if |lines| > 0 {
      var rest := lines[1..];
      assert BitsOf(Unlines(rest, "\n")) == Concat(rest) by {
        BitsOfByteFile(rest);
      }
      assert BitsOf(lines[0] + "\n") == lines[0] by {
        BitsOfAppend(lines[0], "\n");
        assert BitsOf("\n") == [];
        BitsOfAll(lines[0]);
      }
      assert BitsOf(Unlines(lines, "\n")) == lines[0] + Concat(rest) by {
        BitsOfAppend(lines[0] + "\n", Unlines(rest, "\n"));
      }
      assert Concat(lines) == lines[0] + Concat(rest) by {
        assert lines == [lines[0]] + rest;
        ConcatCons(lines[0], rest);
      }
    } else {
      assert Concat(lines) == [];
    }
  }

  lemma {:induction false} BitsOfAll(s: string)
    requires AllBits(s)
    ensures BitsOf(s) == s
  {
    if |s| > 0 {
      BitsOfAll(s[..|s| - 1]);
    }
  }

  /**
   * The frequency stage reads back what the bit parser writes: a parsed file
   * of write_binary_string lines yields one symbol per line, the byte that
   * was written.
   */
  lemma FreqReadsByteLines(outs: seq<nat>)
    ensures var file := Unlines(ByteLines(outs), "\n");
      Values(Blocks(BitsOf(file), SymbolBits)) == seq(|outs|, k requires 0 <= k < |outs| => outs[k] % 256)
  {
    var lines := ByteLines(outs);
    BitsOfByteFile(lines);
    assert Concat(lines) + [] == Concat(lines);
    SplitUnique(lines, [], SymbolBits);
    Pow2Values();
    forall k | 0 <= k < |outs|
      ensures BinValue(lines[k]) == outs[k] % 256
    {
      ValueOfRender(outs[k], SymbolBits);
    }
  }

  // ---------------------------------------------------------------------
  // stage_bit_parser: header and words
  // ---------------------------------------------------------------------

  const WordBits: nat := 32
  const BitsTag: string := "Bits:"

  /** The header lines: up to and including the first that starts with "Bits:", or all of them. */
  function HeaderLines(lines: seq<string>): (r: seq<string>)
    ensures r <= lines
    ensures forall k :: 0 <= k < |r| - 1 ==> !StartsWith(r[k], BitsTag)
    ensures |r| < |lines| ==> |r| > 0 && StartsWith(r[|r| - 1], BitsTag)
  {
    if |lines| == 0 then []
    else if StartsWith(lines[0], BitsTag) then [lines[0]]
    else [lines[0]] + HeaderLines(lines[1..])
  }

  datatype BitParse = BitParse(header: string, words: seq<nat>)

  /** The left-aligned last word: input_word <<= 32 - bit_count. */
  function PadWord(pending: nat, count: nat): nat
    requires count <= WordBits
  {
    pending * Pow2(WordBits - count)
  }

  /**
   * stage_bit_parser: the header lines are copied with a "\n" each; the bits
   * of every later line are packed 32 to a word, and a partial last word is
   * shifted to the top and sent as well.
   */
  method BitParser(input: string) returns (r: BitParse)
    ensures var lines := LinesC(input, 0, 256);
      var head := HeaderLines(lines);
      var bits := BitsOf(Concat(lines[|head|..]));
      && r.header == Unlines(head, "\n")
      && r.words == Values(Blocks(bits, WordBits))
        + (if |Tail(bits, WordBits)| > 0 then [PadWord(BinValue(Tail(bits, WordBits)), |Tail(bits, WordBits)|)] else [])
  {
    var lines := LinesC(input, 0, 256);
    var head := HeaderLines(lines);
    var words, pending, count := PackBits(Concat(lines[|head|..]), WordBits);
    BlocksCover(BitsOf(Concat(lines[|head|..])), WordBits);
    if count > 0 {
      words := words + [PadWord(pending, count)];
    }
    r := BitParse(Unlines(head, "\n"), words);
  }

  /** A value shifted left by w - |tail| shows the tail's bits first and zeros after them. */
  lemma PadBits(tail: string, w: nat)
    requires AllBits(tail) && |tail| <= w
    ensures Render(BinValue(tail) * Pow2(w - |tail|), w) == tail + Render(0, w - |tail|)
  {
    var z := Render(0, w - |tail|);
    assert BinValue(z) == 0 by {
      ValueOfRender(0, w - |tail|);
      DivModUnique(0, Pow2(w - |tail|), 0, 0);
    }
    assert BinValue(tail + z) == BinValue(tail) * Pow2(w - |tail|) by {
      BinValueAppend(tail, z);
    }
    assert Render(BinValue(tail + z), |tail + z|) == tail + z by {
      RenderOfValue(tail + z);
    }
  }

  /** The padded last word shows the tail's bits first and zeros after them. */
  lemma PadWordBits(tail: string)
    requires AllBits(tail) && |tail| <= WordBits
    ensures Render(PadWord(BinValue(tail), |tail|), WordBits) == tail + Render(0, WordBits - |tail|)
  {
    PadBits(tail, WordBits);
  }
}
