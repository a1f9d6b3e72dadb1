/**
 * generate_huffman_codes: one leaf per symbol with a positive frequency is
 * taken from the node pool and pushed; then the two lightest nodes are
 * popped and replaced by a merged node until one node is left, and the codes
 * are assigned from that root.  The node pool has 2 * MAX_SYMBOLS slots and
 * the heap MAX_SYMBOLS slots; the model counts the slots used.
 */
module Builder {
  import opened Wrappers
  import opened HuffTree
  import opened MinHeap

  const MaxSymbols: nat := 256
  const PoolSlots: nat := 2 * MaxSymbols

  /** The leaves seeded from freq_table[0..n), in ascending symbol order. */
  function Seeds(ft: seq<int>, n: nat): (r: seq<Tree>)
    requires n <= |ft|
    ensures |r| <= n
    ensures forall k :: 0 <= k < |r| ==> r[k].Leaf? && r[k].symbol < n && r[k].freq == ft[r[k].symbol] > 0
  {
    if n == 0 then []
    else Seeds(ft, n - 1) + (if ft[n - 1] > 0 then [Leaf(n - 1, ft[n - 1])] else [])
  }

  /** Every symbol with a positive frequency is seeded, as a leaf of that frequency. */
  lemma {:induction false} SeedsComplete(ft: seq<int>, n: nat, s: nat)
    requires n <= |ft| && s < n && ft[s] > 0
    ensures Leaf(s, ft[s]) in Seeds(ft, n)
  {
    if s < n - 1 {
      SeedsComplete(ft, n - 1, s);
    }
  }

  /** Seeds are in strictly ascending symbol order, so no symbol is seeded twice. */
  lemma {:induction false} SeedsAscending(ft: seq<int>, n: nat)
    requires n <= |ft|
    ensures forall a, b :: 0 <= a < b < |Seeds(ft, n)| ==> Seeds(ft, n)[a].symbol < Seeds(ft, n)[b].symbol
  {
    if n > 0 {
      SeedsAscending(ft, n - 1);
    }
  }

  /** All leaves of a sequence of trees, tree by tree. */
  function Flatten(s: seq<Tree>): seq<Tree>
  {
    if |s| == 0 then [] else LeafList(s[0]) + Flatten(s[1..])
  }

  lemma {:induction false} FlattenAppend(x: seq<Tree>, y: seq<Tree>)
    ensures Flatten(x + y) == Flatten(x) + Flatten(y)
    decreases |x|
  {
    if |x| == 0 {
      assert x + y == y;
    } else {
      assert (x + y)[1..] == x[1..] + y;
      FlattenAppend(x[1..], y);
    }
  }

  lemma {:induction false} SumAppend(x: seq<Tree>, y: seq<Tree>)
    ensures SumFreq(x + y) == SumFreq(x) + SumFreq(y)
    decreases |x|
  {
    if |x| == 0 {
      assert x + y == y;
    } else {
      assert (x + y)[1..] == x[1..] + y;
      SumAppend(x[1..], y);
    }
  }

  lemma SplitAt<T>(b: seq<T>, j: nat)
    requires j < |b|
    ensures b == b[..j] + ([b[j]] + b[j + 1..])
  {
  }

  /** Taking one tree out of a sequence takes out its leaves. */
  lemma RemoveLeaves(b: seq<Tree>, j: nat)
    requires j < |b|
    ensures var rest := b[..j] + b[j + 1..];
      && multiset(b) == multiset(rest) + multiset{b[j]}
      && multiset(Flatten(b)) == multiset(LeafList(b[j])) + multiset(Flatten(rest))
  {
    var x := b[j];
    SplitAt(b, j);
    FlattenAppend(b[..j], [x] + b[j + 1..]);
    FlattenAppend([x], b[j + 1..]);
    FlattenAppend(b[..j], b[j + 1..]);
    assert Flatten([x]) == LeafList(x) by { assert Flatten([x][1..]) == []; }
  }

  /** Taking one tree out of a sequence takes out its frequency. */
  lemma RemoveFreq(b: seq<Tree>, j: nat)
    requires j < |b|
    ensures SumFreq(b) == b[j].freq + SumFreq(b[..j] + b[j + 1..])
  {
    var x := b[j];
    SplitAt(b, j);
    SumAppend(b[..j], [x] + b[j + 1..]);
    SumAppend([x], b[j + 1..]);
    SumAppend(b[..j], b[j + 1..]);
  }

  lemma MultisetCancel<T>(p: multiset<T>, q: multiset<T>, x: T)
    requires p + multiset{x} == q + multiset{x}
    ensures p == q
  {
    forall y
      ensures p[y] == q[y]
    {
      assert (p + multiset{x})[y] == p[y] + multiset{x}[y];
      assert (q + multiset{x})[y] == q[y] + multiset{x}[y];
    }
  }

  /** Matching the head of `a` with an equal element of `b` leaves two permutations. */
  lemma PermTail<T>(a: seq<T>, b: seq<T>, j: nat)
    requires multiset(a) == multiset(b) && |a| > 0 && j < |b| && b[j] == a[0]
    ensures multiset(a[1..]) == multiset(b[..j] + b[j + 1..])
  {
    var x := a[0];
    var rest := b[..j] + b[j + 1..];
    assert a == [x] + a[1..];
    assert b == b[..j] + [x] + b[j + 1..];
    assert multiset(b) == multiset(rest) + multiset{x};
    assert multiset(a) == multiset(a[1..]) + multiset{x};
    MultisetCancel(multiset(a[1..]), multiset(rest), x);
  }

  /** Reordering a sequence of trees keeps its leaves, as a bag. */
  lemma {:induction false} PermLeaves(a: seq<Tree>, b: seq<Tree>)
    requires multiset(a) == multiset(b)
    ensures multiset(Flatten(a)) == multiset(Flatten(b))
    decreases |a|
  {
    if |a| == 0 {
      assert |b| == |multiset(b)| == 0;
    } else {
      var x := a[0];
      var j := IndexOf(b, x);
      var rest := b[..j] + b[j + 1..];
      RemoveLeaves(b, j);
      PermTail(a, b, j);
      PermLeaves(a[1..], rest);
    }
  }

  /** Reordering a sequence of trees keeps its total frequency. */
  lemma {:induction false} PermFreq(a: seq<Tree>, b: seq<Tree>)
    requires multiset(a) == multiset(b)
    ensures SumFreq(a) == SumFreq(b)
    decreases |a|
  {
    if |a| == 0 {
      assert |b| == |multiset(b)| == 0;
    } else {
      var x := a[0];
      var j := IndexOf(b, x);
      var rest := b[..j] + b[j + 1..];
      RemoveFreq(b, j);
      PermTail(a, b, j);
      PermFreq(a[1..], rest);
    }
  }

  function IndexOf(b: seq<Tree>, x: Tree): (j: nat)
    requires x in multiset(b)
    ensures j < |b| && b[j] == x
  {
    if b[0] == x then 0 else 1 + IndexOf(b[1..], x)
  }

  predicate AllWeighted(s: seq<Tree>)
  {
    forall k :: 0 <= k < |s| ==> Weighted(s[k])
  }

  /** A weighted tree's frequency is the sum of its leaves' frequencies. */
  lemma {:induction false} WeightedSum(t: Tree)
    requires Weighted(t)
    ensures t.freq == SumFreq(LeafList(t))
  {
    match t
    case Leaf(_, _) =>
      assert LeafList(t)[1..] == [];
    case Node(_, l, r) =>
      WeightedSum(l);
      WeightedSum(r);
      SumAppend(LeafList(l), LeafList(r));
  }

  lemma FlattenCons(x: Tree, s: seq<Tree>)
    ensures Flatten([x] + s) == LeafList(x) + Flatten(s)
  {
    assert ([x] + s)[1..] == s;
  }

  /** The bag bookkeeping of two pops and a push. */
  lemma PopPopPush<T>(heap: seq<T>, h1: seq<T>, h2: seq<T>, l: T, r: T, h3: seq<T>, m: T)
    requires multiset(h1) + multiset{l} == multiset(heap)
    requires multiset(h2) + multiset{r} == multiset(h1)
    requires multiset(h3) == multiset(h2) + multiset{m}
    ensures multiset(heap) == multiset([l] + ([r] + h2))
    ensures multiset(h3) == multiset([m] + h2)
  {
  }

  lemma Assoc<T>(a: seq<T>, b: seq<T>, c: seq<T>)
    ensures a + (b + c) == (a + b) + c
  {
  }

  /** One merge: the leaves of l :: r :: rest and of merged :: rest agree. */
  lemma MergeKeeps(heap: seq<Tree>, h1: seq<Tree>, h2: seq<Tree>, l: Tree, r: Tree, h3: seq<Tree>)
    requires multiset(h1) + multiset{l} == multiset(heap)
    requires multiset(h2) + multiset{r} == multiset(h1)
    requires multiset(h3) == multiset(h2) + multiset{Node(l.freq + r.freq, l, r)}
    ensures multiset(Flatten(h3)) == multiset(Flatten(heap))
  {
    var m := Node(l.freq + r.freq, l, r);
    var lr := [l] + ([r] + h2);
    var mr := [m] + h2;
    PopPopPush(heap, h1, h2, l, r, h3, m);
    assert multiset(Flatten(heap)) == multiset(Flatten(lr)) by {
      PermLeaves(heap, lr);
    }
    assert multiset(Flatten(h3)) == multiset(Flatten(mr)) by {
      PermLeaves(h3, mr);
    }
    assert Flatten(lr) == Flatten(mr) by {
      FlattenCons(l, [r] + h2);
      FlattenCons(r, h2);
      FlattenCons(m, h2);
      Assoc(LeafList(l), LeafList(r), Flatten(h2));
    }
  }

  /** The merged node is weighted and the rest of the heap came from the old heap. */
  lemma MergeWeighted(heap: seq<Tree>, h1: seq<Tree>, h2: seq<Tree>, l: Tree, r: Tree, h3: seq<Tree>)
    requires AllWeighted(heap)
    requires multiset(h1) + multiset{l} == multiset(heap)
    requires multiset(h2) + multiset{r} == multiset(h1)
    requires multiset(h3) == multiset(h2) + multiset{Node(l.freq + r.freq, l, r)}
    ensures AllWeighted(h3)
  {
    assert l in multiset(heap) && r in multiset(h1) && r in multiset(heap);
    var il :| 0 <= il < |heap| && heap[il] == l;
    var ir :| 0 <= ir < |heap| && heap[ir] == r;
    assert Weighted(Node(l.freq + r.freq, l, r));
    forall k | 0 <= k < |h3|
      ensures Weighted(h3[k])
    {
      var t := h3[k];
      assert t in multiset(h3);
      if t != Node(l.freq + r.freq, l, r) {
        assert t in multiset(h2) && t in multiset(h1) && t in multiset(heap);
        var it :| 0 <= it < |heap| && heap[it] == t;
      }
    }
  }

  /** After symbols 0..i-1: the heap holds exactly their seeds. */
  predicate SeedInv(ft: seq<int>, i: nat, heap: seq<Tree>)
  {
    && i <= |ft|
    && IsHeap(heap)
    && multiset(heap) == multiset(Seeds(ft, i))
    && |heap| == |Seeds(ft, i)|
  }

  lemma SeedSkip(ft: seq<int>, i: nat, heap: seq<Tree>)
    requires SeedInv(ft, i, heap) && i < |ft| && ft[i] <= 0
    ensures SeedInv(ft, i + 1, heap)
  {
    assert Seeds(ft, i + 1) == Seeds(ft, i) + [];
  }

  lemma SeedPush(ft: seq<int>, i: nat, heap: seq<Tree>, h: seq<Tree>)
    requires SeedInv(ft, i, heap) && i < |ft| && ft[i] > 0
    requires IsHeap(h) && |h| == |heap| + 1
    requires multiset(h) == multiset(heap) + multiset{Leaf(i, ft[i])}
    ensures SeedInv(ft, i + 1, h)
  {
    assert Seeds(ft, i + 1) == Seeds(ft, i) + [Leaf(i, ft[i])];
  }

  /** One turn of the seeding loop: symbol i is pushed when its frequency is positive. */
  method SeedOne(ft: seq<int>, i: nat, heap: seq<Tree>) returns (h: seq<Tree>)
    requires SeedInv(ft, i, heap) && i < |ft|
    ensures SeedInv(ft, i + 1, h)
    ensures |h| <= i + 1
  {
    if ft[i] > 0 {
      h := HeapPush(heap, Leaf(i, ft[i]));
      SeedPush(ft, i, heap, h);
    } else {
      h := heap;
      SeedSkip(ft, i, heap);
    }
  }

  /**
   * The seeding loop of generate_huffman_codes: symbols 0..255 in order, a
   * leaf pushed for each positive frequency.
   */
  method SeedHeap(ft: seq<int>) returns (heap: seq<Tree>, peak: nat)
    ensures SeedInv(ft, |ft|, heap) && peak <= |ft|
  {
    heap := [];
    peak := 0;
    var i := 0;
    while i < |ft|
      invariant SeedInv(ft, i, heap) && peak <= i
    {
      heap := SeedOne(ft, i, heap);
      if |heap| > peak {
        peak := |heap|;
      }
      i := i + 1;
    }
  }

  /**
   * One turn of the merge loop: pop the two lightest nodes, push a node
   * whose frequency is their sum.  The leaves under the heap do not change.
   */
  method MergeTwo(heap: seq<Tree>) returns (h3: seq<Tree>, l: Tree, r: Tree)
    requires IsHeap(heap) && AllWeighted(heap) && |heap| >= 2
    ensures IsHeap(h3) && AllWeighted(h3) && |h3| == |heap| - 1
    ensures multiset(Flatten(h3)) == multiset(Flatten(heap))
    ensures Node(l.freq + r.freq, l, r) in h3
    ensures forall j :: 0 <= j < |heap| ==> l.freq <= heap[j].freq
    ensures l in multiset(heap) && r in multiset(heap) - multiset{l}
    ensures forall t :: t in multiset(heap) - multiset{l} ==> r.freq <= t.freq
  {
    var h1, h2;
    l, h1 := HeapPop(heap);
    r, h2 := HeapPop(h1);
    assert multiset(h1) == multiset(heap) - multiset{l};
    assert r == h1[0];
    forall t | t in multiset(heap) - multiset{l}
      ensures r.freq <= t.freq
    {
      assert t in h1;
    }
    var merged := Node(l.freq + r.freq, l, r);
    h3 := HeapPush(h2, merged);
    assert merged in multiset(h3);
    MergeKeeps(heap, h1, h2, l, r, h3);
    MergeWeighted(heap, h1, h2, l, r, h3);
  }

  /** The heap's seeds, as leaves, are weighted and their leaves are themselves. */
  lemma SeedsStart(heap: seq<Tree>, seeds: seq<Tree>)
    requires forall k :: 0 <= k < |seeds| ==> seeds[k].Leaf?
    requires multiset(heap) == multiset(seeds)
    ensures AllWeighted(heap)
    ensures multiset(Flatten(heap)) == multiset(Flatten(seeds)) == multiset(seeds)
  {
    SeedLeaves(seeds);
    PermLeaves(heap, seeds);
    forall k | 0 <= k < |heap|
      ensures Weighted(heap[k])
    {
      assert heap[k] in multiset(seeds);
    }
  }

  /** A single remaining tree holds the heap's leaves. */
  lemma RootLeaves(heap: seq<Tree>)
    requires |heap| == 1
    ensures Flatten(heap) == LeafList(heap[0])
  {
    assert Flatten(heap[1..]) == [];
  }

  /**
   * The merge loop of generate_huffman_codes: while more than one node is
   * left, merge the two lightest.  It ends with no root on an empty heap and
   * otherwise with one weighted tree holding every leaf that was under the
   * heap, after |heap|-1 merges; the heap is never larger than it started.
   */
  method MergeAll(heap0: seq<Tree>) returns (root: Option<Tree>, merges: nat, peak: nat)
    requires IsHeap(heap0) && AllWeighted(heap0)
    ensures root.None? <==> |heap0| == 0
    ensures merges == if |heap0| == 0 then 0 else |heap0| - 1
    ensures root.Some? ==> Weighted(root.value) && multiset(LeafList(root.value)) == multiset(Flatten(heap0))
    ensures peak == |heap0|
  {
    var heap := heap0;
    merges := 0;
    // Each turn pops two nodes and pushes one, so the heap only shrinks.
    peak := |heap|;
    while |heap| > 1
      invariant IsHeap(heap) && AllWeighted(heap)
      invariant multiset(Flatten(heap)) == multiset(Flatten(heap0))
      invariant merges + |heap| == |heap0|
      invariant |heap0| == 0 <==> |heap| == 0
      invariant |heap| <= peak == |heap0|
      decreases |heap|
    {
      var l, r;
      heap, l, r := MergeTwo(heap);
      merges := merges + 1;
    }
    if |heap| == 1 {
      root := Some(heap[0]);
      RootLeaves(heap);
    } else {
      root := None;
    }
  }

  /**
   * generate_huffman_codes up to the root.  With k seeded symbols it ends
   * with no root when k = 0 and otherwise with one weighted root whose
   * leaves are exactly the seeds and whose frequency is their total; it uses
   * 2k-1 pool slots (k leaves and k-1 merged nodes) and the heap never holds
   * more than 256 nodes, neither while seeding nor while merging.
   */
  method GenerateHuffmanTree(ft: seq<int>) returns (root: Option<Tree>, poolUsed: nat, peak: nat)
    requires |ft| == MaxSymbols
    ensures var k := |Seeds(ft, |ft|)|;
      && (root.None? <==> k == 0)
      && poolUsed == (if k == 0 then 0 else 2 * k - 1)
      && poolUsed < PoolSlots
      && peak <= MaxSymbols
    ensures root.Some? ==>
      && Weighted(root.value)
      && multiset(LeafList(root.value)) == multiset(Seeds(ft, |ft|))
      && root.value.freq == SumFreq(Seeds(ft, |ft|))
  {
    var heap, merges, seedPeak, mergePeak;
    heap, seedPeak := SeedHeap(ft);
    ghost var seeds := Seeds(ft, |ft|);
    SeedsStart(heap, seeds);
    root, merges, mergePeak := MergeAll(heap);
    peak := if mergePeak > seedPeak then mergePeak else seedPeak;
    poolUsed := |heap| + merges;
    if root.Some? {
      WeightedSum(root.value);
      PermFreq(LeafList(root.value), seeds);
    }
  }

  /** Seeds are leaves, so their leaves are themselves. */
  lemma {:induction false} SeedLeaves(s: seq<Tree>)
    requires forall k :: 0 <= k < |s| ==> s[k].Leaf?
    ensures Flatten(s) == s
  {
    if |s| > 0 {
      SeedLeaves(s[1..]);
      assert s == [s[0]] + s[1..];
    }
  }
}
