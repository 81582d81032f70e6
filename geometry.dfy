/** The rectangle helpers the paginator attaches to `DOMRect` and `Element`,
    written as free functions and methods. Coordinates are real numbers. */
module Geometry {

  /** A `DOMRect`: origin and size in client (viewport) coordinates. */
  datatype DOMRect = DOMRect(x: real, y: real, width: real, height: real)

  /** The plain object `{ x, y, width, height }` handed to the host. */
  datatype RectDictionary = RectDictionary(x: real, y: real, width: real, height: real)

  /** `rect.dictionaryRepresentation()`: a dictionary from which the rectangle
      can be read back. */
  function DictionaryRepresentation(r: DOMRect): (d: RectDictionary)
    ensures RectOfDictionary(d) == r
  {
    RectDictionary(r.x, r.y, r.width, r.height)
  }

  /** The rectangle a dictionary describes. */
  function RectOfDictionary(d: RectDictionary): DOMRect {
    DOMRect(d.x, d.y, d.width, d.height)
  }

  /** The dictionary representation loses nothing: it is a bijection between
      rectangles and dictionaries. */
  lemma DictionaryRepresentationLossless(r: DOMRect, d: RectDictionary)
    ensures RectOfDictionary(DictionaryRepresentation(r)) == r
    ensures DictionaryRepresentation(RectOfDictionary(d)) == d
  {
  }

  /** The specification of `DOMRect.dictionariesForDOMRects`: the dictionary
      of every rectangle, in order. */
  function Dictionaries(rects: seq<DOMRect>): (ds: seq<RectDictionary>)
    ensures |ds| == |rects|
  {
    seq(|rects|, i requires 0 <= i < |rects| => DictionaryRepresentation(rects[i]))
  }

  /** `DOMRect.dictionariesForDOMRects(rects)`: one dictionary per rectangle,
      in the same order, each carrying the four fields of its rectangle. */
  method DictionariesForDOMRects(rects: seq<DOMRect>) returns (dicts: seq<RectDictionary>)
    ensures |dicts| == |rects|
    ensures forall i :: 0 <= i < |rects| ==>
      dicts[i].x == rects[i].x && dicts[i].y == rects[i].y
      && dicts[i].width == rects[i].width && dicts[i].height == rects[i].height
    ensures dicts == Dictionaries(rects)
  {
    dicts := [];
    var index := 0;
    while index < |rects|
      invariant 0 <= index <= |rects|
      invariant dicts == Dictionaries(rects[..index])
    {
      dicts := dicts + [DictionaryRepresentation(rects[index])];
      index := index + 1;
    }
    assert rects[..index] == rects;
  }

  /** `r` in the coordinates of a parent whose bounding rectangle is `parent`:
      moving it back by the parent's origin restores `r`, and the size is
      kept. */
  function Relative(r: DOMRect, parent: DOMRect): (rel: DOMRect)
    ensures Absolute(rel, parent) == r
    ensures rel.width == r.width && rel.height == r.height
  {
    DOMRect(r.x - parent.x, r.y - parent.y, r.width, r.height)
  }

  /** A page-relative rectangle back in client coordinates. */
  function Absolute(r: DOMRect, parent: DOMRect): DOMRect {
    DOMRect(r.x + parent.x, r.y + parent.y, r.width, r.height)
  }

  /** Relativizing is undone by adding the parent's origin back, and keeps
      the size. */
  lemma RelativeAbsolute(r: DOMRect, parent: DOMRect)
    ensures Absolute(Relative(r, parent), parent) == r
    ensures Relative(Absolute(r, parent), parent) == r
    ensures Relative(r, parent).width == r.width && Relative(r, parent).height == r.height
  {
  }

  /** A rectangle at (110, 210) of size 50 by 20 on a page box at (100, 200)
      lies at (10, 10) on the page. */
  lemma RelativeExample()
    ensures Relative(DOMRect(110.0, 210.0, 50.0, 20.0), DOMRect(100.0, 200.0, 600.0, 800.0))
            == DOMRect(10.0, 10.0, 50.0, 20.0)
  {
  }

  /** The specification of `getRelativeClientRects`. */
  function RelativeRects(rects: seq<DOMRect>, parent: DOMRect): (rs: seq<DOMRect>)
    ensures |rs| == |rects|
  {
    seq(|rects|, i requires 0 <= i < |rects| => Relative(rects[i], parent))
  }

  /** `element.getRelativeClientRects(parentElement)`, given the element's
      client rectangles and the parent's bounding rectangle: as many rectangles
      as the element has, in the same order, each moved by the parent's
      origin and of unchanged size. */
  method GetRelativeClientRects(clientRects: seq<DOMRect>, parentRect: DOMRect)
    returns (relativeRects: seq<DOMRect>)
    ensures |relativeRects| == |clientRects|
    ensures forall i :: 0 <= i < |clientRects| ==>
      relativeRects[i].x == clientRects[i].x - parentRect.x
      && relativeRects[i].y == clientRects[i].y - parentRect.y
      && relativeRects[i].width == clientRects[i].width
      && relativeRects[i].height == clientRects[i].height
    ensures relativeRects == RelativeRects(clientRects, parentRect)
  {
    relativeRects := [];
    var index := 0;
    while index < |clientRects|
      invariant 0 <= index <= |clientRects|
      invariant relativeRects == RelativeRects(clientRects[..index], parentRect)
    {
      var rect := clientRects[index];
      var relativeRect := DOMRect(rect.x - parentRect.x, rect.y - parentRect.y, rect.width, rect.height);
      relativeRects := relativeRects + [relativeRect];
      index := index + 1;
    }
    assert clientRects[..index] == clientRects;
  }

  /** Adding the parent's origin back to every relative rectangle gives the
      client rectangles again. */
  lemma {:induction false} RelativeRectsInvertible(rects: seq<DOMRect>, parent: DOMRect)
    ensures forall i :: 0 <= i < |rects| ==> Absolute(RelativeRects(rects, parent)[i], parent) == rects[i]
  {
    forall i | 0 <= i < |rects| ensures Absolute(RelativeRects(rects, parent)[i], parent) == rects[i] {
      RelativeAbsolute(rects[i], parent);
    }
  }
}
