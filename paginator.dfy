/** Describing the elements of the current page, and the page bookkeeping
    behind it.

    The rendered document is given as a value: the spread container (absent
    before the first layout) with one child per page, each child holding the
    page box flagged with `data-vivliostyle-page-box` (or none), and each page
    box holding the elements that `querySelectorAll("[id], [name], a[href]")`
    yields, in document order. */
module Paginator {
  import opened Wrappers
  import opened JSStrings
  import opened Href
  import opened Geometry

  /** An element as the extraction reads it: `tagName`, `id` (the empty string
      when it has none), the `name` and `href` attributes (`None` for `null`),
      `classList` and `getClientRects()`. */
  datatype Element = Element(
    tagName: JSString,
    id: JSString,
    name: Option<JSString>,
    href: Option<JSString>,
    classList: seq<JSString>,
    clientRects: seq<DOMRect>)

  /** The page box: its `getBoundingClientRect()` and its selected descendants. */
  datatype PageBox = PageBox(boundingRect: DOMRect, elements: seq<Element>)

  /** One child of the spread container, with the result of its
      `querySelector("[data-vivliostyle-page-box]")`. */
  datatype PageContainer = PageContainer(pageBox: Option<PageBox>)

  /** The document, with the result of
      `querySelector("[data-vivliostyle-spread-container]")` as the sequence of
      that container's children. */
  datatype Document = Document(spreadContainer: Option<seq<PageContainer>>)

  /** The description of one element handed to the host. */
  datatype Descriptor = Descriptor(
    tag: JSString,
    classNames: seq<JSString>,
    id: JSString,
    name: Option<JSString>,
    href: Option<JSString>,
    rects: seq<RectDictionary>)

  /** `viv-id-`, the prefix of the anchors the renderer creates itself. */
  const VivIdPrefix: JSString := [0x76, 0x69, 0x76, 0x2D, 0x69, 0x64, 0x2D]

  // ---------------------------------------------------------------------------
  // Resolving the current page

  /** `spreadContainer()?.children[index]`: absent when there is no spread
      container or when `index` is not the index of one of its children. */
  function PageContainerAt(doc: Document, index: int): (c: Option<PageContainer>)
    ensures c.Some? <==> doc.spreadContainer.Some? && 0 <= index < |doc.spreadContainer.value|
    ensures c.Some? ==> c.value == doc.spreadContainer.value[index]
  {
    match doc.spreadContainer
    case None => None
    case Some(children) => if 0 <= index < |children| then Some(children[index]) else None
  }

  /** `currentPageContainer()?.querySelector("[data-vivliostyle-page-box]")`
      for the page `index`. */
  function PageBoxAt(doc: Document, index: int): (b: Option<PageBox>)
    ensures b.Some? <==>
      doc.spreadContainer.Some? && 0 <= index < |doc.spreadContainer.value|
      && doc.spreadContainer.value[index].pageBox.Some?
    ensures b.Some? ==> b == doc.spreadContainer.value[index].pageBox
  {
    match PageContainerAt(doc, index)
    case None => None
    case Some(container) => container.pageBox
  }

  // ---------------------------------------------------------------------------
  // The specification of the extraction

  /** Whether the extraction describes `e`: its id is not one of the
      renderer's and it has at least one client rectangle. */
  predicate Kept(e: Element, box: PageBox) {
    !StartsWith(e.id, VivIdPrefix) && |e.clientRects| > 0
  }

  /** The descriptor the extraction builds for `e` on `box`: the lower-cased
      tag, the element's classes, id and name, its demangled href, and one
      dictionary per client rectangle, in order, each the rectangle relative
      to the page box. */
  function DescriptorOf(e: Element, box: PageBox): (d: Descriptor)
    ensures d.tag == ToLowerAscii(e.tagName) && d.classNames == e.classList
    ensures d.id == e.id && d.name == e.name && d.href == Demangle(e.href)
    ensures |d.rects| == |e.clientRects|
    ensures forall i :: 0 <= i < |d.rects| ==>
      RectOfDictionary(d.rects[i]) == Relative(e.clientRects[i], box.boundingRect)
  {
    Descriptor(
      ToLowerAscii(e.tagName),
      e.classList,
      e.id,
      e.name,
      Demangle(e.href),
      Dictionaries(RelativeRects(e.clientRects, box.boundingRect)))
  }

  /** An element is kept exactly when its id lacks the renderer's prefix and
      its descriptor has a rectangle: the test the loop makes. */
  lemma KeptIff(e: Element, box: PageBox)
    ensures Kept(e, box) <==> !StartsWith(e.id, VivIdPrefix) && |DescriptorOf(e, box).rects| > 0
  {
  }

  /** The descriptors of the kept elements among `elements`, in order: at most
      one per element. */
  function Extract(elements: seq<Element>, box: PageBox): (ds: seq<Descriptor>)
    ensures |ds| <= |elements|
    decreases |elements|
  {
    if elements == [] then []
    else
      var last := elements[|elements| - 1];
      Extract(elements[..|elements| - 1], box) + (if Kept(last, box) then [DescriptorOf(last, box)] else [])
  }

  /** The indices of the kept elements, in increasing order. */
  function KeptIndices(elements: seq<Element>, box: PageBox): (ks: seq<nat>)
    ensures |ks| <= |elements|
    decreases |elements|
  {
    if elements == [] then []
    else
      var n := |elements| - 1;
      KeptIndices(elements[..n], box) + (if Kept(elements[n], box) then [n] else [])
  }

  /** The specification of `elementsOfCurrentPage()` for the page `index`:
      no descriptor when the page box cannot be resolved; otherwise at most one
      per selected element, none with a renderer id or without rectangles. */
  function PageDescriptors(doc: Document, index: int): (ds: seq<Descriptor>)
    ensures PageBoxAt(doc, index).None? ==> ds == []
    ensures PageBoxAt(doc, index).Some? ==> |ds| <= |PageBoxAt(doc, index).value.elements|
    ensures forall d :: d in ds ==> !StartsWith(d.id, VivIdPrefix) && |d.rects| > 0
  {
    match PageBoxAt(doc, index)
    case None => []
    case Some(box) =>
      ExtractSound(box.elements, box);
      Extract(box.elements, box)
  }

  /** No descriptor carries a renderer id or an empty list of rectangles. */
  lemma {:induction false} ExtractSound(elements: seq<Element>, box: PageBox)
    ensures forall d :: d in Extract(elements, box) ==> !StartsWith(d.id, VivIdPrefix) && |d.rects| > 0
    decreases |elements|
  {
    if elements != [] {
      ExtractSound(elements[..|elements| - 1], box);
    }
  }

  /** The output is the subsequence of the elements that are kept, each
      described: the kept indices increase, the j-th descriptor describes the
      element at the j-th kept index, and every kept element has its index
      there. */
  lemma {:induction false} ExtractIsFilteredSubsequence(elements: seq<Element>, box: PageBox)
    ensures |KeptIndices(elements, box)| == |Extract(elements, box)|
    ensures forall j :: 0 <= j < |KeptIndices(elements, box)| ==>
      KeptIndices(elements, box)[j] < |elements|
      && Kept(elements[KeptIndices(elements, box)[j]], box)
      && Extract(elements, box)[j] == DescriptorOf(elements[KeptIndices(elements, box)[j]], box)
    ensures forall j, j' :: 0 <= j < j' < |KeptIndices(elements, box)| ==>
      KeptIndices(elements, box)[j] < KeptIndices(elements, box)[j']
    ensures forall i :: 0 <= i < |elements| && Kept(elements[i], box) ==> i in KeptIndices(elements, box)
    decreases |elements|
  {
    if elements != [] {
      var n := |elements| - 1;
      var init := elements[..n];
      ExtractIsFilteredSubsequence(init, box);
      assert forall i :: 0 <= i < n ==> init[i] == elements[i];
    }
    KeptIndicesComplete(elements, box);
  }

  /** Every kept element has its index among the kept indices. */
  lemma {:induction false} KeptIndicesComplete(elements: seq<Element>, box: PageBox)
    ensures forall i :: 0 <= i < |elements| && Kept(elements[i], box) ==> i in KeptIndices(elements, box)
    decreases |elements|
  {
    if elements != [] {
      var n := |elements| - 1;
      var init := elements[..n];
      KeptIndicesComplete(init, box);
      forall i | 0 <= i < |elements| && Kept(elements[i], box) ensures i in KeptIndices(elements, box) {
        if i < n {
          assert init[i] == elements[i];
        }
      }
    }
  }

  /** An element carrying a renderer id is never described, whatever its
      geometry: no descriptor has its id. */
  lemma SyntheticAnchorsOmitted(elements: seq<Element>, box: PageBox, i: nat)
    requires i < |elements| && StartsWith(elements[i].id, VivIdPrefix)
    ensures forall d :: d in Extract(elements, box) ==> d.id != elements[i].id
    ensures i !in KeptIndices(elements, box)
  {
    ExtractSound(elements, box);
    ExtractIsFilteredSubsequence(elements, box);
  }

  /** An element without client rectangles is never described. */
  lemma InvisibleElementsOmitted(elements: seq<Element>, box: PageBox, i: nat)
    requires i < |elements| && |elements[i].clientRects| == 0
    ensures DescriptorOf(elements[i], box) !in Extract(elements, box)
    ensures i !in KeptIndices(elements, box)
  {
    ExtractSound(elements, box);
    ExtractIsFilteredSubsequence(elements, box);
  }

  /** Without a resolvable page box there is nothing to describe; with one,
      the descriptors are those of its kept elements. */
  lemma PageDescriptorsResolution(doc: Document, index: int)
    ensures PageBoxAt(doc, index).None? ==> PageDescriptors(doc, index) == []
    ensures doc.spreadContainer.None? ==> PageDescriptors(doc, index) == []
    ensures doc.spreadContainer.Some? && !(0 <= index < |doc.spreadContainer.value|) ==> PageDescriptors(doc, index) == []
    ensures PageBoxAt(doc, index).Some? ==>
      PageDescriptors(doc, index) == Extract(PageBoxAt(doc, index).value.elements, PageBoxAt(doc, index).value)
  {
  }

  // ---------------------------------------------------------------------------
  // The paginator's state

  /** The state `setupPaginator` keeps: the index of the page last navigated
      to, because the viewer cannot be asked which page it shows. */
  class Session {
    var currentPageIndex: int

    constructor ()
      ensures currentPageIndex == 0
    {
      currentPageIndex := 0;
    }

    /** `showPage(index)`: records `index` as current, without a bounds check. */
    method ShowPage(index: int)
      modifies this
      ensures currentPageIndex == index
    {
      currentPageIndex := index;
    }

    /** `elementsOfCurrentPage()`: the descriptors of the current page. It
        returns nothing when the page box cannot be resolved, and otherwise
        describes, in document order, every selected element whose id does
        not start with `viv-id-` and that has a client rectangle. */
    method ElementsOfCurrentPage(doc: Document) returns (parts: seq<Descriptor>)
      ensures PageBoxAt(doc, currentPageIndex).None? ==> parts == []
      ensures parts == PageDescriptors(doc, currentPageIndex)
      ensures forall d :: d in parts ==> !StartsWith(d.id, VivIdPrefix) && |d.rects| > 0
    {
      var pageBox := PageBoxAt(doc, currentPageIndex);
      if pageBox.None? {
        return [];
      }
      var box := pageBox.value;
      parts := [];
      var elements := box.elements;
      var elementIndex := 0;
      while elementIndex < |elements|
        invariant 0 <= elementIndex <= |elements|
        invariant parts == Extract(elements[..elementIndex], box)
      {
        var element := elements[elementIndex];
        assert elements[..elementIndex + 1][..elementIndex] == elements[..elementIndex];
        var id := element.id;
        if StartsWith(id, VivIdPrefix) {
          elementIndex := elementIndex + 1;
          continue;
        }
        var tag := ToLowerAscii(element.tagName);
        var name := element.name;
        var classNames := element.classList;
        var href := Demangle(element.href);
        var relativeRects := GetRelativeClientRects(element.clientRects, box.boundingRect);
        var rects := DictionariesForDOMRects(relativeRects);
        if |rects| > 0 {
          parts := parts + [Descriptor(tag, classNames, id, name, href, rects)];
        }
        elementIndex := elementIndex + 1;
      }
      assert elements[..elementIndex] == elements;
      ExtractSound(elements, box);
    }
  }
}
