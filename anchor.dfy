// The anchor max-heap of the shadow search (inc/anchor.h): a fixed array of
// 200 anchors with a count, ordered best-first by anchor_compare.
module Anchors {
  import opened Wrappers

  const MAX_ANCHORS: nat := 200

  /** One anchor; the alignment padding byte is not modelled. */
  datatype Anchor = Anchor(row: int, col: int, dir: int,
                           equity: int, score: int, scanOrder: int)

  /** anchor_compare: higher equity first, then the lower scan order. */
  predicate Beats(a: Anchor, b: Anchor)
  {
    if a.equity != b.equity then a.equity > b.equity else a.scanOrder < b.scanOrder
  }

  /** Beats is a strict order, and total on anchors with distinct scan orders. */
  lemma BeatsOrder(a: Anchor, b: Anchor, c: Anchor)
    ensures !Beats(a, a)
    ensures Beats(a, b) ==> !Beats(b, a)
    ensures Beats(a, b) && Beats(b, c) ==> Beats(a, c)
    ensures !Beats(a, b) && !Beats(b, c) ==> !Beats(a, c)
    ensures a.scanOrder != b.scanOrder ==> Beats(a, b) || Beats(b, a)
  {
  }

  // HEAP_PARENT / HEAP_LEFT / HEAP_RIGHT; the parent is only taken of i >= 1.
  function Parent(i: nat): (p: nat)
    requires i >= 1
    ensures p < i
  {
    (i - 1) / 2
  }

  function Left(i: nat): nat { 2 * i + 1 }

  function Right(i: nat): nat { 2 * i + 2 }

  lemma ParentOfChildren(i: nat)
    ensures Parent(Left(i)) == i && Parent(Right(i)) == i
    ensures forall k: nat :: k >= 1 && Parent(k) == i ==> k == Left(i) || k == Right(i)
  {
  }

  /** No element of a[..n] whose parent is at lo or beyond beats that parent. */
  ghost predicate HeapFrom(a: seq<Anchor>, n: nat, lo: nat)
    requires n <= |a|
  {
    forall k :: 0 < k < n && lo <= Parent(k) ==> !Beats(a[k], a[Parent(k)])
  }

  ghost predicate IsHeap(a: seq<Anchor>, n: nat)
    requires n <= |a|
  {
    HeapFrom(a, n, 0)
  }

  /** In a heap no element beats the root. */
  lemma {:induction false} RootIsMax(a: seq<Anchor>, n: nat, k: nat)
    requires n <= |a| && IsHeap(a, n) && k < n
    ensures !Beats(a[k], a[0])
  {
    if k > 0 {
      RootIsMax(a, n, Parent(k));
      BeatsOrder(a[k], a[Parent(k)], a[0]);
    }
  }

  /** No element of a heap, as a multiset, beats the root. */
  lemma RootBeatsAll(a: seq<Anchor>, n: nat)
    requires n <= |a| && IsHeap(a, n) && 0 < n
    ensures forall x :: x in multiset(a[..n]) ==> !Beats(x, a[0])
  {
    forall x | x in multiset(a[..n])
      ensures !Beats(x, a[0])
    {
      var k :| 0 <= k < n && a[..n][k] == x;
      RootIsMax(a, n, k);
    }
  }

  /**
   * Moving the last element to the root removes the root from the multiset
   * and leaves a heap everywhere below the root's children.
   */
  lemma RemoveRoot(a: seq<Anchor>, n: nat)
    requires n <= |a| && IsHeap(a, n) && 0 < n
    ensures multiset(a[0 := a[n - 1]][..n - 1]) == multiset(a[..n]) - multiset{a[0]}
    ensures HeapFrom(a[0 := a[n - 1]], n - 1, 1)
  {
    var b := a[0 := a[n - 1]];
    assert a[..n] == [a[0]] + a[1..n];
    if n > 1 {
      assert b[..n - 1] == [a[n - 1]] + a[1..n - 1];
      assert a[1..n] == a[1..n - 1] + [a[n - 1]];
    } else {
      assert b[..n - 1] == [];
    }
  }

  function Swap(a: seq<Anchor>, i: nat, j: nat): (r: seq<Anchor>)
    requires i < |a| && j < |a|
    ensures |r| == |a| && r[i] == a[j] && r[j] == a[i]
    ensures forall k :: 0 <= k < |a| && k != i && k != j ==> r[k] == a[k]
  {
    a[i := a[j]][j := a[i]]
  }

  lemma SwapPermutes(a: seq<Anchor>, n: nat, i: nat, j: nat)
    requires n <= |a| && i < n && j < n
    ensures multiset(Swap(a, i, j)[..n]) == multiset(a[..n])
  {
    var b := a[..n];
    assert Swap(a, i, j)[..n] == b[i := b[j]][j := b[i]];
  }

  // ----- heapify_down -----

  /**
   * The sift-down invariant with the moving element at i: the heap property
   * holds below lo except between i and its children, and i's children do not
   * beat i's parent.
   */
  ghost predicate DownInv(a: seq<Anchor>, n: nat, lo: nat, i: nat)
    requires n <= |a|
  {
    lo <= i &&
    (forall k :: 0 < k < n && lo <= Parent(k) && Parent(k) != i ==> !Beats(a[k], a[Parent(k)])) &&
    (lo < i ==> (
      lo <= Parent(i) &&
      forall k :: 0 < k < n && Parent(k) == i ==> !Beats(a[k], a[Parent(i)])))
  }

  /** The largest of i and its children, chosen as heapify_down does. */
  ghost predicate IsLargest(a: seq<Anchor>, n: nat, i: nat, largest: nat)
    requires n <= |a| && i < n
  {
    (largest == i || (largest == Left(i) && largest < n) || (largest == Right(i) && largest < n)) &&
    (Left(i) < n ==> !Beats(a[Left(i)], a[largest])) &&
    (Right(i) < n ==> !Beats(a[Right(i)], a[largest]))
  }

  lemma {:induction false} DownStep(a: seq<Anchor>, n: nat, lo: nat, i: nat, largest: nat)
    requires n <= |a| && i < n && DownInv(a, n, lo, i) && IsLargest(a, n, i, largest)
    requires largest != i && Beats(a[largest], a[i])
    ensures DownInv(Swap(a, i, largest), n, lo, largest)
  {
    var b := Swap(a, i, largest);
    ParentOfChildren(i);
    ParentOfChildren(largest);
    forall k | 0 < k < n && lo <= Parent(k) && Parent(k) != largest
      ensures !Beats(b[k], b[Parent(k)])
    {
      if k == largest {
        // b[largest] is the old a[i], beaten by its old child
        BeatsOrder(a[largest], a[i], a[i]);
      } else if Parent(k) == i {
        // the sibling of largest under its new parent
        assert b[k] == a[k] && b[i] == a[largest];
      } else if k == i {
        assert lo < i;
        assert b[i] == a[largest] && b[Parent(i)] == a[Parent(i)];
      } else {
        assert b[k] == a[k] && b[Parent(k)] == a[Parent(k)];
      }
    }
    forall k | 0 < k < n && Parent(k) == largest
      ensures !Beats(b[k], b[Parent(largest)])
    {
      assert b[k] == a[k] && b[i] == a[largest];
    }
  }

  lemma DownDone(a: seq<Anchor>, n: nat, lo: nat, i: nat)
    requires n <= |a| && DownInv(a, n, lo, i)
    requires forall k :: 0 < k < n && Parent(k) == i ==> !Beats(a[k], a[i])
    ensures HeapFrom(a, n, lo)
  {
  }

  // ----- heapify_up -----

  /**
   * The sift-up invariant with the moving element at i: the heap property
   * holds everywhere except between i and its parent, and i's children do not
   * beat i's parent.
   */
  ghost predicate UpInv(a: seq<Anchor>, n: nat, i: nat)
    requires n <= |a|
  {
    i < n &&
    (forall k :: 0 < k < n && k != i ==> !Beats(a[k], a[Parent(k)])) &&
    (0 < i ==> forall k :: 0 < k < n && Parent(k) == i ==> !Beats(a[k], a[Parent(i)]))
  }

  lemma {:induction false} UpStep(a: seq<Anchor>, n: nat, i: nat)
    requires n <= |a| && UpInv(a, n, i) && 0 < i && Beats(a[i], a[Parent(i)])
    ensures UpInv(Swap(a, i, Parent(i)), n, Parent(i))
  {
    var p := Parent(i);
    var b := Swap(a, i, p);
    forall k | 0 < k < n && k != p
      ensures !Beats(b[k], b[Parent(k)])
    {
      if k == i {
        BeatsOrder(a[i], a[p], a[p]);
      } else if Parent(k) == i {
        assert b[k] == a[k] && b[i] == a[p];
      } else if Parent(k) == p {
        // the sibling of i stays below the element that moved up
        BeatsOrder(a[k], a[i], a[p]);
        assert b[k] == a[k] && b[p] == a[i];
      } else {
        assert b[k] == a[k];
      }
    }
    if 0 < p {
      forall k | 0 < k < n && Parent(k) == p
        ensures !Beats(b[k], b[Parent(p)])
      {
        BeatsOrder(a[k], a[p], a[Parent(p)]);
        if k == i {
          assert b[i] == a[p];
        } else {
          assert b[k] == a[k];
        }
      }
    }
  }

  lemma UpDone(a: seq<Anchor>, n: nat, i: nat)
    requires n <= |a| && UpInv(a, n, i)
    requires i == 0 || !Beats(a[i], a[Parent(i)])
    ensures IsHeap(a, n)
  {
  }

  /** A heap: the anchors and their count (AnchorHeap). */
  class AnchorHeap {
    const anchors: array<Anchor>
    var count: nat

    ghost predicate Valid()
      reads this
    {
      anchors.Length == MAX_ANCHORS && count <= MAX_ANCHORS
    }

    /** The anchors currently stored, as a multiset. */
    ghost function Elements(): multiset<Anchor>
      reads this, anchors
      requires Valid()
    {
      multiset(anchors[..count])
    }

    ghost predicate Heap()
      reads this, anchors
      requires Valid()
    {
      IsHeap(anchors[..], count)
    }

    /** anchor_heap_init (the array itself comes with the struct). */
    constructor ()
      ensures Valid() && count == 0 && Elements() == multiset{} && Heap()
    {
      anchors := new Anchor[MAX_ANCHORS](_ => Anchor(0, 0, 0, 0, 0, 0));
      count := 0;
    }

    /** anchor_heap_init on an existing heap. */
    method Init()
      requires Valid()
      modifies this`count
      ensures Valid() && Elements() == multiset{} && Heap()
    {
      count := 0;
    }

    /** anchor_heap_is_empty. */
    function IsEmpty(): (r: bool)
      reads this, anchors
      requires Valid()
      ensures r <==> Elements() == multiset{}
    {
      assert count > 0 ==> anchors[0] in Elements();
      count == 0
    }

    /** anchor_heap_peek: the root, which no stored anchor beats. */
    function Peek(): (r: Option<Anchor>)
      reads this, anchors
      requires Valid() && Heap()
      ensures r.None? <==> count == 0
      ensures r.Some? ==> r.value in Elements()
      ensures r.Some? ==> forall k :: 0 <= k < count ==> !Beats(anchors[k], r.value)
    {
      if count == 0 then None
      else
        assert forall k :: 0 <= k < count ==> !Beats(anchors[k], anchors[0]) by {
          forall k | 0 <= k < count
            ensures !Beats(anchors[k], anchors[0])
          {
            RootIsMax(anchors[..], count, k);
          }
        }
        assert anchors[..count][0] == anchors[0];
        Some(anchors[0])
    }

    /** Exchanges two stored anchors. */
    method Exchange(i: nat, j: nat)
      requires Valid() && i < count && j < count
      modifies anchors
      ensures anchors[..] == Swap(old(anchors[..]), i, j)
      ensures Elements() == old(Elements())
    {
      ghost var a := anchors[..];
      anchors[i], anchors[j] := anchors[j], anchors[i];
      assert anchors[..] == Swap(a, i, j);
      SwapPermutes(a, count, i, j);
    }

    /** anchor_heap_heapify_down from i, for a heap above i's children. */
    method HeapifyDown(i0: nat)
      requires Valid() && HeapFrom(anchors[..], count, i0 + 1)
      modifies anchors
      ensures HeapFrom(anchors[..], count, i0)
      ensures Elements() == old(Elements())
    {
      var i := i0;
      while true
        invariant Valid() && DownInv(anchors[..], count, i0, i)
        invariant Elements() == old(Elements())
        decreases MAX_ANCHORS - i
      {
        var largest := i;
        var left := Left(i);
        var right := Right(i);
        if left < count && Beats(anchors[left], anchors[largest]) {
          largest := left;
        }
        if right < count && Beats(anchors[right], anchors[largest]) {
          largest := right;
        }
        if largest == i {
          ParentOfChildren(i);
          DownDone(anchors[..], count, i0, i);
          return;
        }
        DownStep(anchors[..], count, i0, i, largest);
        Exchange(i, largest);
        i := largest;
      }
    }

    /** anchor_heap_heapify_up from i, for a heap apart from i and its parent. */
    method HeapifyUp(i0: nat)
      requires Valid() && UpInv(anchors[..], count, i0)
      modifies anchors
      ensures Heap() && Elements() == old(Elements())
    {
      var i := i0;
      while i > 0
        invariant Valid() && UpInv(anchors[..], count, i)
        invariant Elements() == old(Elements())
        decreases i
      {
        var parent := Parent(i);
        if !Beats(anchors[i], anchors[parent]) {
          break;
        }
        UpStep(anchors[..], count, i);
        Exchange(i, parent);
        i := parent;
      }
      UpDone(anchors[..], count, i);
    }

    /** anchor_heap_insert: fails on a full heap, otherwise adds the anchor. */
    method Insert(anchor: Anchor) returns (ok: bool)
      requires Valid() && Heap()
      modifies this`count, anchors
      ensures Valid() && Heap()
      ensures ok <==> old(count) < MAX_ANCHORS
      ensures ok ==> count == old(count) + 1 && Elements() == old(Elements()) + multiset{anchor}
      ensures !ok ==> count == old(count) && anchors[..] == old(anchors[..])
    {
      if count >= MAX_ANCHORS {
        return false;
      }
      var i := count;
      ghost var before := anchors[..count];
      anchors[i] := anchor;
      count := count + 1;
      assert anchors[..count] == before + [anchor];
      assert forall k :: 0 < k < i ==> anchors[k] == old(anchors[k]) && anchors[Parent(k)] == old(anchors[Parent(k)]);
      HeapifyUp(i);
      return true;
    }

    /** anchor_heap_extract_max: fails on an empty heap, otherwise removes the root. */
    method ExtractMax() returns (ok: bool, out: Anchor)
      requires Valid() && Heap()
      modifies this`count, anchors
      ensures Valid() && Heap()
      ensures ok <==> old(count) > 0
      ensures !ok ==> count == 0 && anchors[..] == old(anchors[..])
      ensures ok ==> count == old(count) - 1 && Elements() == old(Elements()) - multiset{out}
      ensures ok ==> out in old(Elements())
      ensures ok ==> forall x :: x in old(Elements()) ==> !Beats(x, out)
    {
      if count == 0 {
        return false, anchors[0];
      }
      out := anchors[0];
      ghost var a := anchors[..];
      ghost var n := count;
      RootBeatsAll(a, n);
      RemoveRoot(a, n);
      count := count - 1;
      if count > 0 {
        anchors[0] := anchors[count];
        assert anchors[..] == a[0 := a[n - 1]];
        HeapifyDown(0);
      }
      return true, out;
    }

    /** anchor_heap_build: rearranges the stored anchors into a heap. */
    method Build()
      requires Valid()
      modifies anchors
      ensures Heap() && Elements() == old(Elements())
    {
      if count <= 1 {
        return;
      }
      var i: int := Parent(count - 1);
      while i >= 0
        invariant -1 <= i < count
        invariant Valid() && HeapFrom(anchors[..], count, i + 1)
        invariant Elements() == old(Elements())
        decreases i
      {
        HeapifyDown(i);
        i := i - 1;
      }
    }
  }
}
