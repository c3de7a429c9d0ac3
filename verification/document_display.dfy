/**
 Whole-document rendering in original source order: the tables the
 reconstruction hands to the callback, each written as in the plain rendering,
 followed by the document's trailing text.
 */
module DocumentDisplay {
  import opened Toml
  import opened Text
  import opened Traversal
  import opened TableDisplay
  import opened Sorting
  import opened OriginalOrder

  /** The walk of a document's root table, starting with an empty path. */
  function DocumentWalk(d: Document): seq<Visit>
  {
    Walk(d.root, [], false)
  }

  /** The walk indices in the order the reconstruction writes them. */
  function WriteOrder(d: Document): (r: seq<nat>)
    ensures Indices(DocumentWalk(d), r)
  {
    ReconstructInPositionOrder(DocumentWalk(d));
    Flatten(Reconstruct(DocumentWalk(d)))
  }

  /** The text written for the tables in original order, then the trailing text. */
  function OriginalOrderText(d: Document): string
  {
    Concat(VisitTexts(Pick(DocumentWalk(d), WriteOrder(d)))) + d.trailing
  }

  /**
   Both renderings of a document end with its trailing text, after whatever the
   tables wrote.
   */
  lemma BothEndWithTrailing(d: Document)
    ensures |DocumentText(d)| >= |d.trailing|
    ensures DocumentText(d)[|DocumentText(d)| - |d.trailing|..] == d.trailing
    ensures |OriginalOrderText(d)| >= |d.trailing|
    ensures OriginalOrderText(d)[|OriginalOrderText(d)| - |d.trailing|..] == d.trailing
  {
  }

  /**
   When no visited table carries a source position the reconstruction makes no
   pass at all, so only the trailing text is written: tables built entirely in
   code vanish from the original-order rendering.
   */
  lemma NoPositionsWritesOnlyTrailing(d: Document)
    requires forall i :: 0 <= i < |DocumentWalk(d)| ==> DocumentWalk(d)[i].table.position.None?
    ensures OriginalOrderText(d) == d.trailing
  {
    var ws := DocumentWalk(d);
    NoPositionsEmpty(ws);
    ReconstructInPositionOrder(ws);
    assert Pick(ws, WriteOrder(d)) == [];
  }

  lemma {:induction false} NoPositionsEmpty(ws: seq<Visit>)
    requires forall i :: 0 <= i < |ws| ==> ws[i].table.position.None?
    ensures PositionsOf(ws) == []
  {
    if |ws| > 0 {
      NoPositionsEmpty(ws[..|ws| - 1]);
    }
  }

  lemma PickRange(ws: seq<Visit>)
    ensures Indices(ws, Range(|ws|))
    ensures Pick(ws, Range(|ws|)) == ws
  {
  }

  /**
   A document whose tables meet their source positions in ascending order during
   the walk, with at least one position, renders identically in original order
   and in plain order.
   */
  lemma UnmutatedRendersAlike(d: Document)
    requires Sorted(PositionsOf(DocumentWalk(d)))
    requires |PositionsOf(DocumentWalk(d))| > 0
    ensures OriginalOrderText(d) == DocumentText(d)
  {
    var ws := DocumentWalk(d);
    ReconstructUnmutated(ws);
    PickRange(ws);
  }

  /**
   With distinct positions and at least one of them, the original-order
   rendering writes every visited table exactly once: its write order is a
   permutation of the walk's indices, and the positioned tables come in
   ascending position order.
   */
  lemma OriginalOrderIsPermutation(d: Document)
    requires DistinctPositions(DocumentWalk(d))
    requires |PositionsOf(DocumentWalk(d))| > 0
    ensures multiset(WriteOrder(d)) == multiset(Range(|DocumentWalk(d)|))
    ensures Sorted(PositionsAt(DocumentWalk(d), WriteOrder(d)))
    ensures multiset(PositionsAt(DocumentWalk(d), WriteOrder(d))) == multiset(PositionsOf(DocumentWalk(d)))
  {
    ReconstructEmitsEachOnce(DocumentWalk(d));
    ReconstructInPositionOrder(DocumentWalk(d));
  }

  /** Writing one more chosen visit appends exactly that visit's text. */
  lemma WrittenSnoc(ws: seq<Visit>, order: seq<nat>, k: nat)
    requires Indices(ws, order) && k < |order|
    ensures Concat(VisitTexts(Pick(ws, order[..k + 1])))
      == Concat(VisitTexts(Pick(ws, order[..k]))) + VisitTable(ws[order[k]])
  {
    var next := VisitTexts(Pick(ws, order[..k + 1]));
    assert next[..k] == VisitTexts(Pick(ws, order[..k]));
  }

  /** The callback loop: each chosen visit's text, in the given order. */
  method WriteVisits(ws: seq<Visit>, order: seq<nat>) returns (s: string)
    requires Indices(ws, order)
    ensures s == Concat(VisitTexts(Pick(ws, order)))
    ensures order == [] ==> s == ""
  {
    s := "";
    var k := 0;
    while k < |order|
      invariant k <= |order|
      invariant s == Concat(VisitTexts(Pick(ws, order[..k])))
    {
      WrittenSnoc(ws, order, k);
      s := s + VisitTable(ws[order[k]]);
      k := k + 1;
    }
    assert order[..k] == order;
  }

  /**
   The renderer as the library runs it: the reconstruction's callback writes each
   table it receives onto the output string, then the trailing text is appended.
   */
  method ToStringInOriginalOrder(d: Document) returns (s: string)
    ensures s == OriginalOrderText(d)
    ensures PositionsOf(DocumentWalk(d)) == [] ==> s == d.trailing
  {
    var ws := DocumentWalk(d);
    var order := VisitInOriginalOrder(ws);
    assert order == WriteOrder(d);
    var body := WriteVisits(ws, order);
    s := body + d.trailing;
  }
}
