/**
 * The array min-heap of the codebook builder, keyed on node frequency:
 * heap_push sifts a hole up from the new last slot, heap_pop sifts a hole
 * down from the root and drops the old last element into it.  The heap
 * array is a sequence here; only its first `size` slots are ever read in the
 * C code, so the sequence is exactly those slots.
 */
module MinHeap {
  import opened HuffTree

  function Parent(j: nat): nat
    requires j > 0
  {
    (j - 1) / 2
  }

  /** Every node's frequency is at least its parent's. */
  predicate IsHeap(a: seq<Tree>)
  {
    forall j :: 0 < j < |a| ==> a[Parent(j)].freq <= a[j].freq
  }

  lemma ParentOfChild(i: nat)
    ensures Parent(2 * i + 1) == i && Parent(2 * i + 2) == i
  {
  }

  lemma ChildOfParent(j: nat)
    requires j > 0
    ensures j == 2 * Parent(j) + 1 || j == 2 * Parent(j) + 2
  {
  }

  /** The root of a heap holds a minimum frequency. */
  lemma {:induction false} HeapMin(a: seq<Tree>, j: nat)
    requires IsHeap(a) && j < |a|
    ensures a[0].freq <= a[j].freq
    decreases j
  {
    if j > 0 {
      HeapMin(a, Parent(j));
    }
  }

  /**
   * The state of heap_push's loop: the pending node belongs in the hole at
   * i; every slot but the hole is at least its parent; the hole's children
   * are at least the pending node and at least the hole's parent.
   */
  predicate PushInv(a: seq<Tree>, h: seq<Tree>, node: Tree, i: nat)
  {
    && i < |a| && |a| == |h| + 1
    && multiset(a[i := node]) == multiset(h) + multiset{node}
    && (forall j :: 0 < j < |a| && j != i ==> a[Parent(j)].freq <= a[j].freq)
    && (forall j :: 0 < j < |a| && Parent(j) == i ==> node.freq <= a[j].freq)
    && (i > 0 ==> forall j :: 0 < j < |a| && Parent(j) == i ==> a[Parent(i)].freq <= a[j].freq)
  }

  lemma PushStart(h: seq<Tree>, node: Tree)
    requires IsHeap(h)
    ensures PushInv(h + [node], h, node, |h|)
  {
    var a := h + [node];
    assert a[|h| := node] == a;
    forall j | 0 < j < |a| && Parent(j) == |h|
      ensures false
    {
      ChildOfParent(j);
    }
  }

  /** After the move every slot but the new hole p is at least its parent. */
  lemma PushStepOrder(a: seq<Tree>, h: seq<Tree>, node: Tree, i: nat)
    requires PushInv(a, h, node, i) && i > 0 && node.freq < a[Parent(i)].freq
    ensures var b := a[i := a[Parent(i)]];
      forall j :: 0 < j < |b| && j != Parent(i) ==> b[Parent(j)].freq <= b[j].freq
  {
    var p := Parent(i);
    var b := a[i := a[p]];
    forall j | 0 < j < |b| && j != p
      ensures b[Parent(j)].freq <= b[j].freq
    {
      if j == i {
      } else if Parent(j) == i {
      } else {
        assert b[j] == a[j];
      }
    }
  }

  /** After the move the new hole's children are at least the pending node and the hole's parent. */
  lemma PushStepHole(a: seq<Tree>, h: seq<Tree>, node: Tree, i: nat)
    requires PushInv(a, h, node, i) && i > 0 && node.freq < a[Parent(i)].freq
    ensures var p := Parent(i); var b := a[i := a[p]];
      && (forall j :: 0 < j < |b| && Parent(j) == p ==> node.freq <= b[j].freq)
      && (p > 0 ==> forall j :: 0 < j < |b| && Parent(j) == p ==> b[Parent(p)].freq <= b[j].freq)
  {
    var p := Parent(i);
    var b := a[i := a[p]];
    forall j | 0 < j < |b| && Parent(j) == p
      ensures node.freq <= b[j].freq
      ensures p > 0 ==> b[Parent(p)].freq <= b[j].freq
    {
      if j != i {
        assert b[j] == a[j];
      }
    }
  }

  /** One turn of heap_push's loop: the parent's value moves down into the hole. */
  lemma PushStep(a: seq<Tree>, h: seq<Tree>, node: Tree, i: nat)
    requires PushInv(a, h, node, i) && i > 0 && node.freq < a[Parent(i)].freq
    ensures PushInv(a[i := a[Parent(i)]], h, node, Parent(i))
  {
    SwapHole(a, i, Parent(i), node);
    PushStepOrder(a, h, node, i);
    PushStepHole(a, h, node, i);
  }

  lemma PushDone(a: seq<Tree>, h: seq<Tree>, node: Tree, i: nat)
    requires PushInv(a, h, node, i) && (i == 0 || a[Parent(i)].freq <= node.freq)
    ensures IsHeap(a[i := node])
  {
  }

  /**
   * heap_push: the hole starts at the new last slot and moves up while the
   * new node is strictly lighter than the hole's parent.
   */
  method HeapPush(h: seq<Tree>, node: Tree) returns (a: seq<Tree>)
    requires IsHeap(h)
    ensures IsHeap(a)
    ensures |a| == |h| + 1
    ensures multiset(a) == multiset(h) + multiset{node}
  {
    a := h + [node];
    var i: nat := |h|;
    PushStart(h, node);
    while i > 0 && node.freq < a[Parent(i)].freq
      invariant PushInv(a, h, node, i)
      decreases i
    {
      PushStep(a, h, node, i);
      a := a[i := a[Parent(i)]];
      i := Parent(i);
    }
    PushDone(a, h, node, i);
    a := a[i := node];
  }

  /**
   * Moving the value of slot p into the hole at i, and the hole to p, keeps
   * the contents once the pending node is put into the hole.
   */
  lemma SwapHole(a: seq<Tree>, i: nat, p: nat, node: Tree)
    requires i < |a| && p < |a| && i != p
    ensures multiset(a[i := a[p]][p := node]) == multiset(a[i := node])
  {
    var b := a[i := a[p]][p := node];
    var c := a[i := node];
    assert b == c[i := a[p]][p := node];
    assert c[p] == a[p];
  }

  /**
   * The state of heap_pop's loop over the first n slots: `last` belongs in
   * the hole at i; every slot whose parent is not the hole is at least its
   * parent; the hole's children are at least the hole's parent, which is
   * itself no heavier than `last`.
   */
  predicate PopInv(a: seq<Tree>, h: seq<Tree>, res: Tree, last: Tree, i: nat)
  {
    && i < |a|
    && multiset(a[i := last]) + multiset{res} == multiset(h)
    && (forall j :: 0 < j < |a| && Parent(j) != i ==> a[Parent(j)].freq <= a[j].freq)
    && (i > 0 ==> forall j :: 0 < j < |a| && Parent(j) == i ==> a[Parent(i)].freq <= a[j].freq)
    && (i > 0 ==> a[Parent(i)].freq <= last.freq)
  }

  lemma PopStart(h: seq<Tree>)
    requires IsHeap(h) && |h| >= 2
    ensures PopInv(h[..|h| - 1], h, h[0], h[|h| - 1], 0)
  {
    var n := |h| - 1;
    var a := h[..n];
    assert h == [h[0]] + h[1..n] + [h[n]];
    assert a[0 := h[n]] == [h[n]] + h[1..n];
  }

  /** The lighter child of slot i among the first |a| slots (2i+1 < |a|). */
  function Smaller(a: seq<Tree>, i: nat): (s: nat)
    requires 2 * i + 1 < |a|
    ensures s == 2 * i + 1 || (s == 2 * i + 2 && s < |a|)
    ensures forall j :: 0 < j < |a| && Parent(j) == i ==> a[s].freq <= a[j].freq
  {
    ParentOfChild(i);
    forall j | 0 < j < |a| && Parent(j) == i
      ensures j == 2 * i + 1 || j == 2 * i + 2
    {
      ChildOfParent(j);
    }
    if 2 * i + 2 < |a| && a[2 * i + 2].freq < a[2 * i + 1].freq then 2 * i + 2 else 2 * i + 1
  }

  /** One turn of heap_pop's loop: the lighter child moves up into the hole. */
  lemma PopStep(a: seq<Tree>, h: seq<Tree>, res: Tree, last: Tree, i: nat)
    requires PopInv(a, h, res, last, i) && 2 * i + 1 < |a|
    requires a[Smaller(a, i)].freq < last.freq
    ensures PopInv(a[i := a[Smaller(a, i)]], h, res, last, Smaller(a, i))
  {
    var s := Smaller(a, i);
    var b := a[i := a[s]];
    ParentOfChild(i);
    SwapHole(a, i, s, last);
    forall j | 0 < j < |b| && Parent(j) != s
      ensures b[Parent(j)].freq <= b[j].freq
    {
      if j == i {
      } else if Parent(j) == i {
      } else {
        assert b[j] == a[j];
      }
    }
    forall j | 0 < j < |b| && Parent(j) == s
      ensures b[Parent(s)].freq <= b[j].freq
    {
      assert j != i;
      assert b[j] == a[j];
    }
  }

  lemma PopDone(a: seq<Tree>, h: seq<Tree>, res: Tree, last: Tree, i: nat)
    requires PopInv(a, h, res, last, i)
    requires 2 * i + 1 >= |a| || last.freq <= a[Smaller(a, i)].freq
    ensures IsHeap(a[i := last])
  {
    forall j | 0 < j < |a| && Parent(j) == i
      ensures last.freq <= a[j].freq
    {
      ChildOfParent(j);
    }
  }

  /** The root of a heap is no heavier than any element. */
  lemma RootIsMin(h: seq<Tree>)
    requires IsHeap(h) && |h| >= 1
    ensures forall j :: 0 <= j < |h| ==> h[0].freq <= h[j].freq
  {
    forall j | 0 <= j < |h|
      ensures h[0].freq <= h[j].freq
    {
      HeapMin(h, j);
    }
  }

  /**
   * The sift-down loop of heap_pop: `last` moves from the root hole into the
   * lighter child's slot while it is strictly heavier than that child.
   */
  method SiftDown(a0: seq<Tree>, h: seq<Tree>, res: Tree, last: Tree) returns (a: seq<Tree>)
    requires PopInv(a0, h, res, last, 0)
    ensures IsHeap(a) && |a| == |a0|
    ensures multiset(a) + multiset{res} == multiset(h)
  {
    a := a0;
    var n := |a0|;
    var i: nat := 0;
    while 2 * i + 1 < n
      invariant |a| == n && PopInv(a, h, res, last, i)
      decreases n - i
    {
      var smallest := 2 * i + 1;
      if smallest + 1 < n && a[smallest + 1].freq < a[smallest].freq {
        smallest := smallest + 1;
      }
      assert smallest == Smaller(a, i);
      if last.freq <= a[smallest].freq {
        break;
      }
      PopStep(a, h, res, last, i);
      a := a[i := a[smallest]];
      i := smallest;
    }
    PopDone(a, h, res, last, i);
    a := a[i := last];
  }

  /**
   * heap_pop: returns the root; the old last element is sifted down from
   * the root.  Called only on a non-empty heap.
   */
  method HeapPop(h: seq<Tree>) returns (res: Tree, a: seq<Tree>)
    requires IsHeap(h) && |h| >= 1
    ensures res == h[0]
    ensures forall j :: 0 <= j < |h| ==> res.freq <= h[j].freq
    ensures IsHeap(a)
    ensures |a| == |h| - 1
    ensures multiset(a) + multiset{res} == multiset(h)
  {
    res := h[0];
    RootIsMin(h);
    var n := |h| - 1;
    if n == 0 {
      a := [];
      assert h == [res];
      return;
    }
    PopStart(h);
    a := SiftDown(h[..n], h, res, h[n]);
  }
}
