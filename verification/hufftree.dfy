/**
 * The Huffman code tree of the compression program and its depth-first code
 * assignment (assign_codes).  A HuffNode from the node pool is either a leaf,
 * which carries a symbol 0..255, or a merged node (symbol -1) with two
 * children; the merge loop never builds a node with one child, so the two
 * shapes are the two constructors here.
 */
module HuffTree {
  import opened Wrappers
  import opened BinText

  datatype Tree =
    | Leaf(symbol: nat, freq: int)
    | Node(freq: int, left: Tree, right: Tree)

  /** One huff_table entry written by assign_codes: the symbol and its code text. */
  datatype CodeEntry = CodeEntry(symbol: nat, code: string)

  /** Every merged node's frequency is the sum of its children's. */
  predicate Weighted(t: Tree)
  {
    match t
    case Leaf(_, _) => true
    case Node(f, l, r) => f == l.freq + r.freq && Weighted(l) && Weighted(r)
  }

  /** The leaves, left to right. */
  function LeafList(t: Tree): seq<Tree>
  {
    match t
    case Leaf(_, _) => [t]
    case Node(_, l, r) => LeafList(l) + LeafList(r)
  }

  function Size(t: Tree): nat
  {
    match t
    case Leaf(_, _) => 1
    case Node(_, l, r) => Size(l) + Size(r) + 1
  }

  /** Sum of the frequencies of a sequence of nodes. */
  function SumFreq(s: seq<Tree>): int
  {
    if |s| == 0 then 0 else s[0].freq + SumFreq(s[1..])
  }

  /**
   * The node reached from `t` by reading `path`: '0' goes left, '1' goes
   * right.  This is how the decoder walks the tree, and the reference the
   * code assignment is checked against.
   */
  function Follow(t: Tree, path: string): Option<Tree>
    decreases |path|
  {
    if |path| == 0 then Some(t)
    else match t
      case Leaf(_, _) => None
      case Node(_, l, r) =>
        if path[0] == '0' then Follow(l, path[1..])
        else if path[0] == '1' then Follow(r, path[1..])
        else None
  }

  /**
   * assign_codes(node, prefix): a leaf receives the prefix as its code (and
   * its length as code_len); a merged node hands prefix+"0" to its left and
   * prefix+"1" to its right subtree.  The entries come out in the order the
   * recursion visits the leaves.
   */
  function AssignCodes(t: Tree, prefix: string): (r: seq<CodeEntry>)
    ensures |r| == |LeafList(t)|
  {
    match t
    case Leaf(s, _) => [CodeEntry(s, prefix)]
    case Node(_, l, r) => AssignCodes(l, prefix + "0") + AssignCodes(r, prefix + "1")
  }

  /** Every code handed out below a prefix extends that prefix. */
  lemma {:induction false} AssignPrefix(t: Tree, prefix: string)
    ensures forall i :: 0 <= i < |AssignCodes(t, prefix)| ==> prefix <= AssignCodes(t, prefix)[i].code
  {
    match t
    case Leaf(_, _) =>
    case Node(_, l, r) =>
      var a := AssignCodes(l, prefix + "0");
      var b := AssignCodes(r, prefix + "1");
      AssignPrefix(l, prefix + "0");
      AssignPrefix(r, prefix + "1");
      var ab: seq<CodeEntry> := a + b;
      forall i | 0 <= i < |ab|
        ensures prefix <= ab[i].code
      {
        if i < |a| {
          assert prefix + "0" <= a[i].code;
        } else {
          assert prefix + "1" <= b[i - |a|].code;
        }
      }
  }

  /** A prefix of '0'/'1' characters grows into codes of '0'/'1' characters only. */
  lemma {:induction false} AssignBits(t: Tree, prefix: string)
    requires AllBits(prefix)
    ensures forall i :: 0 <= i < |AssignCodes(t, prefix)| ==> AllBits(AssignCodes(t, prefix)[i].code)
  {
    match t
    case Leaf(_, _) =>
    case Node(_, l, r) =>
      var a := AssignCodes(l, prefix + "0");
      var b := AssignCodes(r, prefix + "1");
      AssignBits(l, prefix + "0");
      AssignBits(r, prefix + "1");
      var ab: seq<CodeEntry> := a + b;
      forall i | 0 <= i < |ab|
        ensures AllBits(ab[i].code)
      {
        if i < |a| {
          assert ab[i] == a[i];
        } else {
          assert ab[i] == b[i - |a|];
        }
      }
  }

  // ---------------------------------------------------------------------
  // Codes are root paths
  // ---------------------------------------------------------------------

  lemma FollowAppend(t: Tree, a: string, b: string)
    requires Follow(t, a).Some?
    ensures Follow(t, a + b) == Follow(Follow(t, a).value, b)
    decreases |a|
  {
    if |a| > 0 {
      assert (a + b)[1..] == a[1..] + b;
      match t
      case Node(_, l, r) =>
        if a[0] == '0' { FollowAppend(l, a[1..], b); } else { FollowAppend(r, a[1..], b); }
    } else {
      assert a + b == b;
    }
  }

  /**
   * Every code is a root path: following the part of the code after the
   * prefix leads from the root to the leaf carrying that symbol, and the
   * path is as long as the leaf is deep.
   */
  lemma {:induction false} CodeIsPath(t: Tree, prefix: string, i: nat)
    requires i < |AssignCodes(t, prefix)|
    ensures var e := AssignCodes(t, prefix)[i];
      && prefix <= e.code
      && Follow(t, e.code[|prefix|..]) == Some(LeafList(t)[i])
      && LeafList(t)[i] == Leaf(e.symbol, LeafList(t)[i].freq)
  {
    var e := AssignCodes(t, prefix)[i];
    AssignPrefix(t, prefix);
    match t
    case Leaf(_, _) =>
      assert e.code[|prefix|..] == [];
    case Node(_, l, r) =>
      var nl := |AssignCodes(l, prefix + "0")|;
      if i < nl {
        CodeIsPath(l, prefix + "0", i);
        assert e == AssignCodes(l, prefix + "0")[i];
        var tail := e.code[|prefix| + 1..];
        assert e.code[|prefix|..] == [e.code[|prefix|]] + tail;
        assert e.code[|prefix|] == (prefix + "0")[|prefix|] == '0';
        assert e.code[|prefix + "0"|..] == tail;
      } else {
        CodeIsPath(r, prefix + "1", i - nl);
        assert e == AssignCodes(r, prefix + "1")[i - nl];
        var tail := e.code[|prefix| + 1..];
        assert e.code[|prefix|..] == [e.code[|prefix|]] + tail;
        assert e.code[|prefix|] == (prefix + "1")[|prefix|] == '1';
        assert e.code[|prefix + "1"|..] == tail;
      }
  }

  /** Going left from a merged node: the entry found below stays the same entry. */
  lemma PathLeft(t: Tree, prefix: string, path: string, j: nat)
    requires t.Node? && |path| > 0 && path[0] == '0'
    requires Follow(t.left, path[1..]).Some? && Follow(t.left, path[1..]).value.Leaf?
    requires j < |AssignCodes(t.left, prefix + "0")|
    requires AssignCodes(t.left, prefix + "0")[j] == CodeEntry(Follow(t.left, path[1..]).value.symbol, prefix + "0" + path[1..])
    ensures Follow(t, path) == Follow(t.left, path[1..])
    ensures j < |AssignCodes(t, prefix)|
    ensures AssignCodes(t, prefix)[j] == CodeEntry(Follow(t, path).value.symbol, prefix + path)
  {
    assert path == "0" + path[1..];
    assert prefix + "0" + path[1..] == prefix + path;
  }

  /** Going right from a merged node: the entry found below moves past the left subtree's entries. */
  lemma EntryRight(f: int, l: Tree, r: Tree, prefix: string, j: nat, e: CodeEntry)
    requires j < |AssignCodes(r, prefix + "1")| && AssignCodes(r, prefix + "1")[j] == e
    ensures |AssignCodes(l, prefix + "0")| + j < |AssignCodes(Node(f, l, r), prefix)|
    ensures AssignCodes(Node(f, l, r), prefix)[|AssignCodes(l, prefix + "0")| + j] == e
  {
    IndexRight(AssignCodes(l, prefix + "0"), AssignCodes(r, prefix + "1"), j);
  }

  lemma IndexRight<T>(a: seq<T>, b: seq<T>, j: nat)
    requires j < |b|
    ensures |a| + j < |a + b| && (a + b)[|a| + j] == b[j]
  {
  }

  lemma ShiftHead(prefix: string, c: char, path: string)
    requires |path| > 0 && path[0] == c
    ensures prefix + [c] + path[1..] == prefix + path
  {
    assert path == [c] + path[1..];
  }

  /**
   * Conversely, every path from the root that ends at a leaf is the code
   * (after the prefix) of exactly that leaf's entry.
   */
  lemma {:induction false} PathIsCode(t: Tree, prefix: string, path: string) returns (i: nat)
    requires Follow(t, path).Some? && Follow(t, path).value.Leaf?
    ensures i < |AssignCodes(t, prefix)|
    ensures AssignCodes(t, prefix)[i] == CodeEntry(Follow(t, path).value.symbol, prefix + path)
    decreases |path|
  {
    match t
    case Leaf(s, _) =>
      i := 0;
    case Node(_, l, r) =>
      if path[0] == '0' {
        i := PathIsCode(l, prefix + "0", path[1..]);
        PathLeft(t, prefix, path, i);
      } else {
        var j := PathIsCode(r, prefix + "1", path[1..]);
        ShiftHead(prefix, '1', path);
        EntryRight(t.freq, l, r, prefix, j, AssignCodes(r, prefix + "1")[j]);
        i := |AssignCodes(l, prefix + "0")| + j;
      }
  }

  // ---------------------------------------------------------------------
  // Shape of the code set
  // ---------------------------------------------------------------------

  /** Below a merged node every code is strictly longer than the prefix. */
  lemma NodeCodesLonger(t: Tree, prefix: string)
    requires t.Node?
    ensures forall e :: e in AssignCodes(t, prefix) ==> |e.code| > |prefix|
  {
    var a := AssignCodes(t.left, prefix + "0");
    var b := AssignCodes(t.right, prefix + "1");
    AssignPrefix(t.left, prefix + "0");
    AssignPrefix(t.right, prefix + "1");
    forall e | e in AssignCodes(t, prefix)
      ensures |e.code| > |prefix|
    {
      if e in a {
        var i :| 0 <= i < |a| && a[i] == e;
        assert prefix + "0" <= e.code;
      } else {
        assert e in b;
        var i :| 0 <= i < |b| && b[i] == e;
        assert prefix + "1" <= e.code;
      }
    }
  }

  /** No code is a prefix of another entry's code. */
  predicate PrefixFree(codes: seq<CodeEntry>)
  {
    forall i, j :: 0 <= i < |codes| && 0 <= j < |codes| && i != j ==> !(codes[i].code <= codes[j].code)
  }

  /** Every code in `codes` carries character `c` at position `k`. */
  predicate MarkedAt(codes: seq<CodeEntry>, k: nat, c: char)
  {
    forall i :: 0 <= i < |codes| ==> k < |codes[i].code| && codes[i].code[k] == c
  }

  /** Two prefix-free code sets told apart at one position stay prefix-free together. */
  lemma PrefixFreeAppend(a: seq<CodeEntry>, b: seq<CodeEntry>, k: nat)
    requires PrefixFree(a) && PrefixFree(b)
    requires MarkedAt(a, k, '0') && MarkedAt(b, k, '1')
    ensures PrefixFree(a + b)
  {
    var c := a + b;
    forall i, j | 0 <= i < |c| && 0 <= j < |c| && i != j
      ensures !(c[i].code <= c[j].code)
    {
      if i < |a| && j < |a| {
        assert c[i] == a[i] && c[j] == a[j];
      } else if i >= |a| && j >= |a| {
        assert c[i] == b[i - |a|] && c[j] == b[j - |a|];
      } else if i < |a| {
        assert c[i].code[k] != c[j].code[k];
      } else {
        assert c[i].code[k] != c[j].code[k];
      }
    }
  }

  lemma CodesMarked(t: Tree, prefix: string, c: char)
    ensures MarkedAt(AssignCodes(t, prefix + [c]), |prefix|, c)
  {
    var codes := AssignCodes(t, prefix + [c]);
    AssignPrefix(t, prefix + [c]);
    forall i | 0 <= i < |codes|
      ensures |prefix| < |codes[i].code| && codes[i].code[|prefix|] == c
    {
      assert prefix + [c] <= codes[i].code;
      assert (prefix + [c])[|prefix|] == c;
    }
  }

  /**
   * The codes of one tree are pairwise prefix-free: the two subtrees of a
   * merged node are told apart at the first character after the prefix.
   */
  lemma {:induction false} CodesPrefixFree(t: Tree, prefix: string)
    ensures PrefixFree(AssignCodes(t, prefix))
  {
    match t
    case Leaf(_, _) =>
    case Node(_, l, r) =>
      CodesPrefixFree(l, prefix + "0");
      CodesPrefixFree(r, prefix + "1");
      CodesMarked(l, prefix, '0');
      CodesMarked(r, prefix, '1');
      PrefixFreeAppend(AssignCodes(l, prefix + "0"), AssignCodes(r, prefix + "1"), |prefix|);
  }

  /** 2^-n as a real. */
  function Weight(n: nat): (w: real)
    ensures w > 0.0
  {
    if n == 0 then 1.0 else Weight(n - 1) / 2.0
  }

  /** The Kraft sum of a code set: the sum of 2^-|code| over its entries. */
  function Kraft(codes: seq<CodeEntry>): real
  {
    if |codes| == 0 then 0.0 else Weight(|codes[0].code|) + Kraft(codes[1..])
  }

  lemma {:induction false} KraftAppend(a: seq<CodeEntry>, b: seq<CodeEntry>)
    ensures Kraft(a + b) == Kraft(a) + Kraft(b)
    decreases |a|
  {
    if |a| == 0 {
      assert a + b == b;
    } else {
      assert (a + b)[1..] == a[1..] + b;
      KraftAppend(a[1..], b);
    }
  }

  /**
   * Kraft equality: since every merged node has two children, the codes
   * below a prefix p fill the code space exactly, their Kraft sum is 2^-|p|.
   */
  lemma {:induction false} KraftEquality(t: Tree, prefix: string)
    ensures Kraft(AssignCodes(t, prefix)) == Weight(|prefix|)
  {
    match t
    case Leaf(_, _) =>
    case Node(_, l, r) =>
      KraftEquality(l, prefix + "0");
      KraftEquality(r, prefix + "1");
      KraftAppend(AssignCodes(l, prefix + "0"), AssignCodes(r, prefix + "1"));
  }

  /** A tree of one leaf gives its symbol the empty code, of length 0. */
  lemma SingleLeafCode(s: nat, f: int)
    ensures AssignCodes(Leaf(s, f), "") == [CodeEntry(s, "")]
    ensures |AssignCodes(Leaf(s, f), "")[0].code| == 0
  {
  }
}
