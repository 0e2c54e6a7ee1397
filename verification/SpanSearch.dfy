/**
 The search of the coarse allocator's tree of spans, which is ordered by free space and carries in
 every node the largest free block of its subtree.
 */
module SpanSearch {

  import opened Wrappers

  datatype SpanHeader = SpanHeader(address: nat, freeSpace: nat, largestFreeBlock: nat)

  datatype Tree = Leaf | Node(left: Tree, span: SpanHeader, right: Tree, subtreeLargest: nat)

  function Max(a: nat, b: nat): nat { if a >= b then a else b }

  function Largest(t: Tree): nat {
    if t.Leaf? then 0 else t.subtreeLargest
  }

  /** Every node's augmentation is what recomputeAugmentedData gives. */
  predicate Augmented(t: Tree) {
    t.Leaf? || (
      && Augmented(t.left) && Augmented(t.right)
      && t.subtreeLargest == Max(t.span.largestFreeBlock, Max(Largest(t.left), Largest(t.right))))
  }

  function InOrder(t: Tree): seq<SpanHeader> {
    if t.Leaf? then [] else InOrder(t.left) + [t.span] + InOrder(t.right)
  }

  /** The order of the tree: by free space, and among equals by address. */
  predicate Before(a: SpanHeader, b: SpanHeader) {
    if a.freeSpace == b.freeSpace then a.address < b.address else a.freeSpace < b.freeSpace
  }

  ghost predicate Ordered(spans: seq<SpanHeader>) {
    forall i, j :: 0 <= i < j < |spans| ==> Before(spans[i], spans[j])
  }

  // ----- the plain search -----

  /** A scan of the spans in order for the first that has a large enough free block. */
  function FirstFit(spans: seq<SpanHeader>, size: nat): (r: Option<SpanHeader>)
    ensures r.None? <==> forall i :: 0 <= i < |spans| ==> spans[i].largestFreeBlock < size
    ensures r.Some? ==> r.value in spans && r.value.largestFreeBlock >= size
  {
    if spans == [] then None
    else if spans[0].largestFreeBlock >= size then Some(spans[0])
    else FirstFit(spans[1..], size)
  }

  function OrElse(a: Option<SpanHeader>, b: Option<SpanHeader>): Option<SpanHeader> {
    if a.Some? then a else b
  }

  lemma {:induction false} FirstFitAppend(a: seq<SpanHeader>, b: seq<SpanHeader>, size: nat)
    ensures FirstFit(a + b, size) == OrElse(FirstFit(a, size), FirstFit(b, size))
  {
    if a == [] {
      assert a + b == b;
    } else {
      FirstFitAppend(a[1..], b, size);
      assert (a + b)[1..] == a[1..] + b;
    }
  }

  /** In an ordered list the first span that fits precedes every other that fits. */
  lemma {:induction false} FirstFitIsLeast(spans: seq<SpanHeader>, size: nat, i: nat)
    requires Ordered(spans) && i < |spans| && spans[i].largestFreeBlock >= size
    ensures FirstFit(spans, size).Some?
    ensures FirstFit(spans, size).value == spans[i] || Before(FirstFit(spans, size).value, spans[i])
    decreases |spans|
  {
    if spans[0].largestFreeBlock < size {
      FirstFitIsLeast(spans[1..], size, i - 1);
    }
  }

  /** A subtree's largest free block tells whether any of its spans fits. */
  lemma {:induction false} AugmentationTells(t: Tree, size: nat)
    requires Augmented(t)
    ensures size > 0 ==> (FirstFit(InOrder(t), size).Some? <==> Largest(t) >= size)
  {
    if t.Node? {
      AugmentationTells(t.left, size);
      AugmentationTells(t.right, size);
      FitInNode(t, size);
    }
  }

  lemma FitInNode(t: Tree, size: nat)
    requires t.Node?
    ensures FirstFit(InOrder(t), size) ==
      OrElse(FirstFit(InOrder(t.left), size),
             if t.span.largestFreeBlock >= size then Some(t.span) else FirstFit(InOrder(t.right), size))
  {
    FirstFitAppend(InOrder(t.left) + [t.span], InOrder(t.right), size);
    FirstFitAppend(InOrder(t.left), [t.span], size);
  }

  // ----- the search down the tree -----

  /** The descent finds what the scan of all spans finds, and nothing exactly when the scan finds nothing. */
  method FindMostOccupiedSpanFitting(root: Tree, paddedSize: nat) returns (best: Option<SpanHeader>)
    requires Augmented(root) && paddedSize > 0
    ensures best == FirstFit(InOrder(root), paddedSize)
    ensures best.None? <==> forall i :: 0 <= i < |InOrder(root)| ==> InOrder(root)[i].largestFreeBlock < paddedSize
  {
    best := None;
    var current := root;
    while current.Node?
      invariant Augmented(current)
      invariant FirstFit(InOrder(root), paddedSize) == OrElse(FirstFit(InOrder(current), paddedSize), best)
      decreases current
    {
      AugmentationTells(current, paddedSize);
      if current.subtreeLargest < paddedSize {
        break;
      }
      FitInNode(current, paddedSize);
      AugmentationTells(current.left, paddedSize);
      if paddedSize <= current.span.largestFreeBlock {
        best, current := Some(current.span), current.left;
      } else if current.left.Node? && current.left.subtreeLargest >= paddedSize {
        current := current.left;
      } else {
        current := current.right;
      }
    }
  }

  /** When the tree is ordered, the span found comes before every other span that fits. */
  lemma FoundIsMostOccupied(root: Tree, paddedSize: nat, i: nat)
    requires Ordered(InOrder(root)) && i < |InOrder(root)| && InOrder(root)[i].largestFreeBlock >= paddedSize
    ensures var found := FirstFit(InOrder(root), paddedSize);
      found.Some? && found.value.freeSpace <= InOrder(root)[i].freeSpace
  {
    FirstFitIsLeast(InOrder(root), paddedSize, i);
  }
}
