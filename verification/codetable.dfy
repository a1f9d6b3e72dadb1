/**
 * huff_table as generate_huffman_codes leaves it: assign_codes copies each
 * leaf's code into the slot of the leaf's symbol, so a later entry for the
 * same symbol would overwrite an earlier one.  Slots no leaf reaches are not
 * in the map.
 */
module CodeTable {
  import opened Wrappers
  import opened BinText
  import opened HuffTree
  import opened MinHeap
  import opened Builder

  /** The code slots of huff_table after the entries are copied in order. */
  function Fill(codes: seq<CodeEntry>): map<nat, string>
  {
    if |codes| == 0 then map[]
    else
      var e := codes[|codes| - 1];
      Fill(codes[..|codes| - 1])[e.symbol := e.code]
  }

  /** Every entry's symbol gets a slot. */
  lemma {:induction false} FillHas(codes: seq<CodeEntry>, i: nat)
    requires i < |codes|
    ensures codes[i].symbol in Fill(codes)
  {
    if i < |codes| - 1 {
      FillHas(codes[..|codes| - 1], i);
    }
  }

  /**
   * A filled slot holds the code of the LAST entry for its symbol: strcpy
   * into the same slot keeps only the last copy.
   */
  lemma {:induction false} FillFrom(codes: seq<CodeEntry>, s: nat) returns (i: nat)
    requires s in Fill(codes)
    ensures i < |codes| && codes[i] == CodeEntry(s, Fill(codes)[s])
    ensures forall k :: i < k < |codes| ==> codes[k].symbol != s
  {
    var n := |codes| - 1;
    if codes[n].symbol == s {
      i := n;
    } else {
      i := FillFrom(codes[..n], s);
    }
  }

  /** A filled slot belongs to a seeded symbol, and its code leads to that symbol's leaf. */
  lemma SlotReachesLeaf(ft: seq<int>, root: Tree, s: nat)
    requires multiset(LeafList(root)) == multiset(Seeds(ft, |ft|))
    requires s in Fill(AssignCodes(root, ""))
    ensures s < |ft| && ft[s] > 0
    ensures Follow(root, Fill(AssignCodes(root, ""))[s]) == Some(Leaf(s, ft[s]))
  {
    var codes := AssignCodes(root, "");
    var i := FillFrom(codes, s);
    CodeIsPath(root, "", i);
    assert codes[i].code[|""|..] == Fill(codes)[s];
    assert LeafList(root)[i] in multiset(Seeds(ft, |ft|));
  }

  /** A seeded symbol has a filled slot. */
  lemma SeededHasSlot(ft: seq<int>, root: Tree, s: nat)
    requires multiset(LeafList(root)) == multiset(Seeds(ft, |ft|))
    requires s < |ft| && ft[s] > 0
    ensures s in Fill(AssignCodes(root, ""))
  {
    var leaves := LeafList(root);
    SeedsComplete(ft, |ft|, s);
    assert Leaf(s, ft[s]) in multiset(leaves);
    var i :| 0 <= i < |leaves| && leaves[i] == Leaf(s, ft[s]);
    CodeIsPath(root, "", i);
    FillHas(AssignCodes(root, ""), i);
  }

  /**
   * With the root built from freq_table, a slot is filled exactly for the
   * symbols with a positive frequency, and the code in it leads from the
   * root to that symbol's leaf.
   */
  lemma TableReachesLeaves(ft: seq<int>, root: Tree)
    requires multiset(LeafList(root)) == multiset(Seeds(ft, |ft|))
    ensures var table := Fill(AssignCodes(root, ""));
      forall s: nat :: s in table <==> s < |ft| && ft[s] > 0
    ensures var table := Fill(AssignCodes(root, ""));
      forall s :: s in table ==> Follow(root, table[s]) == Some(Leaf(s, ft[s]))
  {
    var table := Fill(AssignCodes(root, ""));
    forall s | s in table
      ensures s < |ft| && ft[s] > 0 && Follow(root, table[s]) == Some(Leaf(s, ft[s]))
    {
      SlotReachesLeaf(ft, root, s);
    }
    forall s: nat | s < |ft| && ft[s] > 0
      ensures s in table
    {
      SeededHasSlot(ft, root, s);
    }
  }

  /** Slots filled from a prefix-free code list hold no code that is a prefix of another's. */
  lemma TablePrefixFree(codes: seq<CodeEntry>)
    requires PrefixFree(codes)
    ensures var table := Fill(codes);
      forall s1, s2 :: s1 in table && s2 in table && s1 != s2 ==> !(table[s1] <= table[s2])
  {
    var table := Fill(codes);
    forall s1, s2 | s1 in table && s2 in table && s1 != s2
      ensures !(table[s1] <= table[s2])
    {
      var i1 := FillFrom(codes, s1);
      var i2 := FillFrom(codes, s2);
    }
  }

  /** A leaf has one leaf, a merged node at least two. */
  lemma {:induction false} LeafCount(t: Tree)
    ensures |LeafList(t)| >= 1
    ensures t.Leaf? <==> |LeafList(t)| == 1
  {
    match t
    case Leaf(_, _) =>
    case Node(_, l, r) =>
      LeafCount(l);
      LeafCount(r);
  }

  /** The root is a leaf exactly when a single symbol was seeded. */
  lemma RootShape(root: Tree, seeds: seq<Tree>)
    requires multiset(LeafList(root)) == multiset(seeds)
    ensures root.Leaf? <==> |seeds| == 1
  {
    LeafCount(root);
    assert |multiset(LeafList(root))| == |LeafList(root)|;
    assert |multiset(seeds)| == |seeds|;
  }

  /** Below a merged root every code in the table is non-empty. */
  lemma TableCodesLonger(root: Tree)
    requires root.Node?
    ensures var table := Fill(AssignCodes(root, ""));
      forall s :: s in table ==> |table[s]| > 0
  {
    var codes := AssignCodes(root, "");
    NodeCodesLonger(root, "");
    forall s | s in Fill(codes)
      ensures |Fill(codes)[s]| > 0
    {
      var i := FillFrom(codes, s);
      assert codes[i] in codes;
    }
  }

  /** Every slot holds a string of '0'/'1' characters. */
  lemma TableBits(root: Tree)
    ensures var table := Fill(AssignCodes(root, ""));
      forall s :: s in table ==> AllBits(table[s])
  {
    var codes := AssignCodes(root, "");
    AssignBits(root, "");
    forall s | s in Fill(codes)
      ensures AllBits(Fill(codes)[s])
    {
      var i := FillFrom(codes, s);
    }
  }

  /**
   * generate_huffman_codes followed by assign_codes(root, ""): huff_table
   * gets a code exactly for the symbols with a positive frequency, each code
   * is the root path to that symbol's leaf, no code is a prefix of another,
   * and the codes are non-empty as soon as two symbols occur.  With a single
   * symbol its code is the empty string, of length 0; with none, no code is
   * assigned.
   */
  method GenerateHuffmanCodes(ft: seq<int>) returns (root: Option<Tree>, table: map<nat, string>)
    requires |ft| == MaxSymbols
    ensures forall s: nat :: s in table <==> s < |ft| && ft[s] > 0
    ensures root.None? <==> |Seeds(ft, |ft|)| == 0
    ensures root.Some? ==> forall s :: s in table ==> Follow(root.value, table[s]) == Some(Leaf(s, ft[s]))
    ensures forall s1, s2 :: s1 in table && s2 in table && s1 != s2 ==> !(table[s1] <= table[s2])
    ensures forall s :: s in table ==> AllBits(table[s])
    ensures |Seeds(ft, |ft|)| >= 2 ==> forall s :: s in table ==> |table[s]| > 0
    ensures |Seeds(ft, |ft|)| == 1 ==> forall s :: s in table ==> table[s] == ""
  {
    var poolUsed, peak;
    root, poolUsed, peak := GenerateHuffmanTree(ft);
    ghost var seeds := Seeds(ft, |ft|);
    if root.Some? {
      var codes := AssignCodes(root.value, "");
      table := Fill(codes);
      TableReachesLeaves(ft, root.value);
      CodesPrefixFree(root.value, "");
      TablePrefixFree(codes);
      TableBits(root.value);
      RootShape(root.value, seeds);
      if |seeds| >= 2 {
        TableCodesLonger(root.value);
      } else if |seeds| == 1 {
        forall s | s in table
          ensures table[s] == ""
        {
          var i := FillFrom(codes, s);
        }
      }
    } else {
      table := map[];
      forall s: nat | s < |ft| && ft[s] > 0
        ensures false
      {
        SeedsComplete(ft, |ft|, s);
      }
    }
  }
}
