/**
 * Fixed-width binary text.  Both programs keep every intermediate value as
 * lines of '0'/'1' characters, most significant bit first: 8-bit symbols,
 * 16-bit codewords, 5-bit code lengths and 32-bit words.  This module holds
 * the renderers (write_binary_string, get_binary_string, uint_to_binstr,
 * uint32_to_binstr) and the readers (binstr_to_int, is_binstr,
 * binstr_to_byte).
 */
module BinText {

  function Pow2(n: nat): (r: nat)
    ensures r >= 1
  {
    if n == 0 then 1 else 2 * Pow2(n - 1)
  }

  function Min(a: nat, b: nat): nat { if a <= b then a else b }

  predicate IsBit(c: char) { c == '0' || c == '1' }

  predicate AllBits(s: string) { forall i :: 0 <= i < |s| ==> IsBit(s[i]) }

  function BitChar(one: bool): char { if one then '1' else '0' }

  function BitValue(c: char): nat { if c == '1' then 1 else 0 }

  /**
   * The low `w` bits of `v`, most significant first.  This is the shape
   * shared by every renderer of both programs; the per-character form the C
   * loops use is established by RenderBit.
   */
  function Render(v: nat, w: nat): (s: string)
    ensures |s| == w && AllBits(s)
  {
    if w == 0 then [] else Render(v / 2, w - 1) + [BitChar(v % 2 == 1)]
  }

  /** Value of a string read MSB-first with `v = (v << 1) | bit`. */
  function BinValue(s: string): nat
  {
    if |s| == 0 then 0 else 2 * BinValue(s[..|s| - 1]) + BitValue(s[|s| - 1])
  }

  /** The maximal leading run of '0'/'1' characters. */
  function LeadingBits(s: string): (r: string)
    ensures r <= s && AllBits(r)
    ensures |r| < |s| ==> !IsBit(s[|r|])
  {
    if |s| == 0 || !IsBit(s[0]) then [] else [s[0]] + LeadingBits(s[1..])
  }

  /** binstr_to_int: reads bits while the next character is '0' or '1'. */
  function BinStrToInt(s: string): nat
  {
    BinValue(LeadingBits(s))
  }

  /** is_binstr: false on the empty string, false at the first non-bit. */
  function IsBinStr(s: string): (r: bool)
    ensures r <==> |s| > 0 && AllBits(s)
  {
    |s| > 0 && ScanBits(s)
  }

  function ScanBits(s: string): (r: bool)
    ensures r <==> AllBits(s)
  {
    if |s| == 0 then true
    else if s[0] != '0' && s[0] != '1' then false
    else
      assert forall i :: 1 <= i < |s| ==> s[1..][i - 1] == s[i];
      ScanBits(s[1..])
  }

  /** binstr_to_byte: like binstr_to_int, but looks at no more than 8 characters. */
  function BinStrToByte(s: string): (r: nat)
    ensures r < 256
    ensures r == BinStrToInt(s[..Min(8, |s|)])
  {
    var t := LeadingBits(s[..Min(8, |s|)]);
    BinValueBound(t);
    Pow2Monotone(|t|, 8);
    BinValue(t)
  }

  // ---------------------------------------------------------------------
  // Arithmetic facts about halving and powers of two
  // ---------------------------------------------------------------------

  lemma MulGap(d: int, a: int, b: int)
    requires d > 0 && a > b
    ensures d * a >= d * b + d
  {
    assert d * a == d * b + d * (a - b);
    MulAtLeast(d, a - b);
  }

  lemma {:induction false} MulAtLeast(d: int, k: int)
    requires d > 0 && k >= 1
    ensures d * k >= d
    decreases k
  {
    if k > 1 {
      MulAtLeast(d, k - 1);
      assert d * k == d * (k - 1) + d;
    }
  }

  lemma DivModUnique(v: int, d: int, a: int, r: int)
    requires d > 0 && 0 <= r < d && v == d * a + r
    ensures v / d == a && v % d == r
  {
    var a' := v / d;
    var r' := v % d;
    assert d * a + r == d * a' + r';
    if a > a' {
      MulGap(d, a, a');
      assert false;
    } else if a < a' {
      MulGap(d, a', a);
      assert false;
    }
  }

  lemma Pow2Monotone(a: nat, b: nat)
    requires a <= b
    ensures Pow2(a) <= Pow2(b)
  {
    if a < b {
      Pow2Monotone(a, b - 1);
    }
  }

  /** Shifting right by w+1 is halving and then shifting right by w. */
  lemma HalveSplit(v: nat, w: nat)
    ensures v / Pow2(w + 1) == (v / 2) / Pow2(w)
    ensures v % Pow2(w + 1) == 2 * ((v / 2) % Pow2(w)) + v % 2
  {
    var p := Pow2(w);
    var q := v / 2;
    var a := q / p;
    var b := q % p;
    assert q == p * a + b;
    assert v == 2 * q + v % 2;
    assert v == (2 * p) * a + (2 * b + v % 2);
    DivModUnique(v, 2 * p, a, 2 * b + v % 2);
  }

  lemma {:induction false} Pow2Add(a: nat, b: nat)
    ensures Pow2(a + b) == Pow2(a) * Pow2(b)
  {
    if b > 0 {
      Pow2Add(a, b - 1);
      assert Pow2(a + b) == 2 * Pow2(a + b - 1);
      assert Pow2(a) * Pow2(b) == Pow2(a) * (2 * Pow2(b - 1)) == 2 * (Pow2(a) * Pow2(b - 1));
    }
  }

  /** The widths the two programs use. */
  lemma Pow2Values()
    ensures Pow2(5) == 32 && Pow2(8) == 256 && Pow2(16) == 0x1_0000 && Pow2(24) == 0x100_0000
  {
    Pow2Add(8, 8);
    Pow2Add(16, 8);
  }

  lemma BinValueBound(s: string)
    ensures BinValue(s) < Pow2(|s|)
  {
  }

  // ---------------------------------------------------------------------
  // Renderer / reader properties
  // ---------------------------------------------------------------------

  /**
   * Character i of the rendering is bit (w-1-i) of v, i.e. the C loop
   * `out[w-1-i] = ((val >> i) & 1) ? '1' : '0'` writes the same string.
   */
  lemma {:induction false} RenderBit(v: nat, w: nat, i: nat)
    requires i < w
    ensures Render(v, w)[i] == BitChar((v / Pow2(w - 1 - i)) % 2 == 1)
  {
    if i == w - 1 {
    } else {
      RenderBit(v / 2, w - 1, i);
      HalveSplit(v, w - 2 - i);
    }
  }

  /** Parsing a w-bit rendering gives back v mod 2^w. */
  lemma {:induction false} ValueOfRender(v: nat, w: nat)
    ensures BinValue(Render(v, w)) == v % Pow2(w)
  {
    if w > 0 {
      var s := Render(v, w);
      assert s[..w - 1] == Render(v / 2, w - 1);
      ValueOfRender(v / 2, w - 1);
      HalveSplit(v, w - 1);
    }
  }

  /** Rendering the value of a bit string at its own width gives it back. */
  lemma {:induction false} RenderOfValue(s: string)
    requires AllBits(s)
    ensures Render(BinValue(s), |s|) == s
  {
    if |s| > 0 {
      var init := s[..|s| - 1];
      RenderOfValue(init);
      var v := BinValue(s);
      assert v == 2 * BinValue(init) + BitValue(s[|s| - 1]);
      assert v / 2 == BinValue(init) && v % 2 == BitValue(s[|s| - 1]);
      assert s == init + [s[|s| - 1]];
    }
  }

  /**
   * A bit string rendered at a wider width comes out zero-extended: the
   * extra positions on the left are all '0'.
   */
  lemma {:induction false} RenderWide(s: string, extra: nat)
    requires AllBits(s)
    ensures Render(BinValue(s), |s| + extra) == Render(0, extra) + s
  {
    if |s| == 0 {
      assert Render(0, extra) + s == Render(0, extra);
    } else {
      var init := s[..|s| - 1];
      var v := BinValue(s);
      assert v == 2 * BinValue(init) + BitValue(s[|s| - 1]);
      assert v / 2 == BinValue(init) && v % 2 == BitValue(s[|s| - 1]);
      RenderWide(init, extra);
      assert Render(v, |s| + extra) == Render(BinValue(init), |init| + extra) + [s[|s| - 1]];
      assert s == init + [s[|s| - 1]];
    }
  }

  lemma Double(x: nat, p: nat)
    ensures 2 * (x * p) == x * (2 * p)
  {
  }

  /** Reading a followed by b: a's value moves up by |b| bits. */
  lemma {:induction false} BinValueAppend(a: string, b: string)
    ensures BinValue(a + b) == BinValue(a) * Pow2(|b|) + BinValue(b)
  {
    if |b| == 0 {
      assert a + b == a;
    } else {
      var init := b[..|b| - 1];
      var ab := a + b;
      var p := Pow2(|init|);
      assert BinValue(ab) == 2 * BinValue(a + init) + BitValue(b[|b| - 1]) by {
        assert ab[..|ab| - 1] == a + init;
        assert ab[|ab| - 1] == b[|b| - 1];
      }
      assert BinValue(a + init) == BinValue(a) * p + BinValue(init) by {
        BinValueAppend(a, init);
      }
      assert 2 * (BinValue(a) * p) == BinValue(a) * (2 * p) by {
        Double(BinValue(a), p);
      }
      assert Pow2(|b|) == 2 * p;
    }
  }

  /** The last |b| bits of a + b are b. */
  lemma SuffixValue(a: string, b: string)
    ensures BinValue(a + b) % Pow2(|b|) == BinValue(b)
    ensures BinValue(a + b) / Pow2(|b|) == BinValue(a)
  {
    var d := Pow2(|b|);
    assert BinValue(a + b) == d * BinValue(a) + BinValue(b) by {
      BinValueAppend(a, b);
    }
    assert BinValue(b) < d by {
      BinValueBound(b);
    }
    DivModUnique(BinValue(a + b), d, BinValue(a), BinValue(b));
  }

  /** Only v mod 2^w shows in a w-bit rendering. */
  lemma RenderMod(v: nat, w: nat)
    ensures Render(v % Pow2(w), w) == Render(v, w)
  {
    ValueOfRender(v, w);
    ValueOfRender(v % Pow2(w), w);
    DivModUnique(v % Pow2(w), Pow2(w), 0, v % Pow2(w));
    BinValueInjective(Render(v % Pow2(w), w), Render(v, w));
  }

  /** A narrower rendering is the tail of a wider one. */
  lemma {:induction false} RenderSuffix(v: nat, w: nat, extra: nat)
    ensures Render(v, w + extra)[extra..] == Render(v, w)
  {
    if w > 0 {
      RenderSuffix(v / 2, w - 1, extra);
      var wide := Render(v / 2, w - 1 + extra);
      assert Render(v, w + extra) == wide + [BitChar(v % 2 == 1)];
      assert (wide + [BitChar(v % 2 == 1)])[extra..] == wide[extra..] + [BitChar(v % 2 == 1)];
    }
  }

  /** Zero renders as '0' characters only. */
  lemma {:induction false} RenderZero(w: nat)
    ensures forall i :: 0 <= i < w ==> Render(0, w)[i] == '0'
  {
    if w > 0 {
      RenderZero(w - 1);
    }
  }

  /** Two bit strings of one width with the same value are equal. */
  lemma BinValueInjective(s: string, t: string)
    requires AllBits(s) && AllBits(t) && |s| == |t|
    requires BinValue(s) == BinValue(t)
    ensures s == t
  {
    RenderOfValue(s);
    RenderOfValue(t);
  }

  lemma LeadingBitsOfBits(s: string, rest: string)
    requires AllBits(s)
    requires |rest| == 0 || !IsBit(rest[0])
    ensures LeadingBits(s + rest) == s
  {
    if |s| > 0 {
      assert (s + rest)[1..] == s[1..] + rest;
      LeadingBitsOfBits(s[1..], rest);
    } else {
      assert s + rest == rest;
    }
  }

  /**
   * binstr_to_int applied to a w-bit rendering, followed by the end of the
   * string or any non-bit character, returns v mod 2^w.
   */
  lemma BinStrToIntOfRender(v: nat, w: nat, rest: string)
    requires |rest| == 0 || !IsBit(rest[0])
    ensures BinStrToInt(Render(v, w) + rest) == v % Pow2(w)
  {
    LeadingBitsOfBits(Render(v, w), rest);
    ValueOfRender(v, w);
  }

  /** On a line of exactly eight bits binstr_to_byte and binstr_to_int agree. */
  lemma BinStrToByteOfByteLine(s: string)
    requires |s| == 8 && AllBits(s)
    ensures BinStrToByte(s) == BinValue(s)
  {
    assert s[..8] == s;
    LeadingBitsOfBits(s, []);
    assert s + [] == s;
  }
}
