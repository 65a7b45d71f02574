/**
 * `TessParser`: turns an hOCR element tree into `Tess` nodes. Every node
 * is given the page's bbox list, and word nodes are leaves.
 */
module TessParser {
  import opened Utils
  import opened TessTree

  /** hOCR class of the page element. */
  const OCR_PAGE: string := "ocr_page"

  /**
   * An hOCR element: its `class` attribute (None when it has none), the
   * `bbox` entries found in its `title` attribute, in order (None when it
   * has no title), whether it has an `id` attribute, its text (empty when
   * the element has none) and its sub-elements.
   */
  datatype Element = Element(className: Option<string>, title: Option<seq<BBox>>, hasId: bool,
                             text: string, children: seq<Element>)

  /** The three attributes `get_attrs` looks up are all present. */
  predicate HasKeys(el: Element)
  {
    el.className.Some? && el.title.Some? && el.hasId
  }

  /**
   * `get_attrs`, with the title already split into bbox entries: a missing
   * `title`, `class` or `id` attribute is a KeyError.
   */
  function AttrsOf(el: Element): (r: Result<Attrs>)
    ensures r.Ok? <==> HasKeys(el)
    ensures r.Fail? ==> r.error == BadAttribute
    ensures r.Ok? ==> r.value.className == el.className.value && r.value.bounds == el.title.value
                      && r.value.text == el.text
  {
    if el.title.None? || el.className.None? || !el.hasId then Fail(BadAttribute)
    else Ok(Attrs(el.className.value, el.title.value, el.text))
  }

  /** The text a word element contributes: that of its first sub-element, if any. */
  function WordText(el: Element): string
  {
    if |el.children| > 0 then el.children[0].text else el.text
  }

  /**
   * `helper` of `parse_page`, as a value. The class test and `get_attrs`
   * both fail with a KeyError on a missing attribute, so they are one step.
   */
  function Helper(el: Element, pageDim: seq<BBox>): Result<Tess>
    decreases el, 1
  {
    match AttrsOf(el)
    case Fail(e) => Fail(e)
    case Ok(attrs) =>
      if attrs.className == OCRX_WORD then
        MakeTess(attrs.(text := WordText(el)), pageDim)
      else
        match MakeTess(attrs, pageDim)
        case Fail(e) => Fail(e)
        case Ok(node) =>
          match HelperChildren(el, pageDim, |el.children|)
          case Fail(e) => Fail(e)
          case Ok(cs) => Ok(node.(children := cs))
  }

  /** The loop over the first `n` sub-elements; the first failure aborts. */
  function HelperChildren(el: Element, pageDim: seq<BBox>, n: nat): Result<seq<Tess>>
    requires n <= |el.children|
    decreases el, 0, n
  {
    if n == 0 then Ok([])
    else
      match HelperChildren(el, pageDim, n - 1)
      case Fail(e) => Fail(e)
      case Ok(cs) =>
        match Helper(el.children[n - 1], pageDim)
        case Fail(e) => Fail(e)
        case Ok(c) => Ok(cs + [c])
  }

  /**
   * What `TessParser.parse_page` returns: only an `ocr_page` element is
   * accepted, and the bbox entries of its own attributes are the page size
   * given to every node.
   */
  function Page(el: Element): Result<Tess>
  {
    if el.className.None? then Fail(BadAttribute)
    else if el.className.value != OCR_PAGE then Fail(AssertionFailed)
    else
      match AttrsOf(el)
      case Fail(e) => Fail(e)
      case Ok(attrs) => Helper(el, attrs.bounds)
  }

  /** What `TessParser.parse_pages` returns: every page in order; the first failure aborts. */
  function Pages(pages: seq<Element>): Result<seq<Tess>>
  {
    MapAll(pages, Page)
  }

  // ---------------------------------------------------------------------
  // What parsing preserves
  // ---------------------------------------------------------------------

  /**
   * Every element `helper` visits has its three attributes and a bbox
   * (word elements' sub-elements are not visited).
   */
  predicate AllReadable(el: Element)
    decreases el
  {
    HasKeys(el) && |el.title.value| > 0 &&
    (el.className.value != OCRX_WORD ==> forall i :: 0 <= i < |el.children| ==> AllReadable(el.children[i]))
  }

  /**
   * `t` is the node built from `el` on a page of size `w` x `h`: `el` has
   * its attributes, and `t` has the same class, first bbox and text; word nodes are leaves carrying their first
   * sub-element's text, and other nodes have one child per sub-element, in order.
   */
  predicate Mirrors(t: Tess, el: Element, w: int, h: int)
    decreases el
  {
    && HasKeys(el) && |el.title.value| > 0
    && t.tType == el.className.value && t.bounds == el.title.value[0]
    && t.pageWidth as int == w && t.pageHeight as int == h
    && if el.className.value == OCRX_WORD then
         t.text == WordText(el) && t.children == []
       else
         && t.text == el.text
         && |t.children| == |el.children|
         && forall i :: 0 <= i < |el.children| ==> Mirrors(t.children[i], el.children[i], w, h)
  }

  /** The children loop yields one node per sub-element, each `helper` of it. */
  lemma {:induction false} HelperChildrenShape(el: Element, pageDim: seq<BBox>, n: nat, cs: seq<Tess>)
    requires n <= |el.children| && HelperChildren(el, pageDim, n) == Ok(cs)
    ensures |cs| == n
    ensures forall i :: 0 <= i < n ==> Helper(el.children[i], pageDim) == Ok(cs[i])
  {
    if n > 0 {
      var init := HelperChildren(el, pageDim, n - 1).value;
      HelperChildrenShape(el, pageDim, n - 1, init);
      assert cs == init + [Helper(el.children[n - 1], pageDim).value];
    }
  }

  /** The children loop fails exactly when `helper` fails on one of the sub-elements. */
  lemma {:induction false} HelperChildrenFails(el: Element, pageDim: seq<BBox>, n: nat)
    requires n <= |el.children|
    ensures HelperChildren(el, pageDim, n).Fail? <==>
            exists i :: 0 <= i < n && Helper(el.children[i], pageDim).Fail?
  {
    if n > 0 {
      HelperChildrenFails(el, pageDim, n - 1);
    }
  }

  /**
   * `helper` succeeds exactly when the page size is usable and every visited
   * element has its attributes and a bbox; a missing attribute of the
   * element itself is a KeyError.
   */
  lemma {:induction false} HelperSucceedsIff(el: Element, pageDim: seq<BBox>)
    ensures Helper(el, pageDim).Ok? <==> PageDims(pageDim).Ok? && AllReadable(el)
    ensures !HasKeys(el) ==> Helper(el, pageDim) == Fail(BadAttribute)
    decreases el
  {
    if HasKeys(el) && el.className.value != OCRX_WORD && MakeTess(AttrsOf(el).value, pageDim).Ok? {
      HelperChildrenFails(el, pageDim, |el.children|);
      forall i | 0 <= i < |el.children|
        ensures Helper(el.children[i], pageDim).Ok? <==> AllReadable(el.children[i])
      {
        HelperSucceedsIff(el.children[i], pageDim);
      }
    }
  }

  /** A parsed tree mirrors its element tree node for node, all on the page's size. */
  lemma {:induction false} HelperMirrors(el: Element, pageDim: seq<BBox>, t: Tess)
    requires Helper(el, pageDim) == Ok(t)
    ensures |pageDim| > 0 && Mirrors(t, el, pageDim[0].x1, pageDim[0].y1)
    decreases el
  {
    if el.className.value != OCRX_WORD {
      var cs := HelperChildren(el, pageDim, |el.children|).value;
      HelperChildrenShape(el, pageDim, |el.children|, cs);
      forall i | 0 <= i < |el.children|
        ensures Mirrors(t.children[i], el.children[i], pageDim[0].x1, pageDim[0].y1)
      {
        HelperMirrors(el.children[i], pageDim, cs[i]);
      }
    }
  }

  /** A parsed page is the `ocr_page` element mirrored on the size of its own first bbox. */
  lemma PageMirrors(el: Element, t: Tess)
    requires Page(el) == Ok(t)
    ensures el.className == Some(OCR_PAGE) && HasKeys(el) && |el.title.value| > 0
    ensures Mirrors(t, el, el.title.value[0].x1, el.title.value[0].y1)
  {
    HelperMirrors(el, el.title.value, t);
  }

  /**
   * `parse_page` fails exactly on a non-page element, a visited element
   * without its attributes or a bbox, or an unusable page size; a missing
   * class or a page without its attributes is a KeyError, another class
   * fails the assertion.
   */
  lemma PageFails(el: Element)
    ensures Page(el).Fail? <==>
            el.className != Some(OCR_PAGE) || !AllReadable(el) || PageDims(el.title.value).Fail?
    ensures el.className.None? ==> Page(el) == Fail(BadAttribute)
    ensures el.className.Some? && el.className.value != OCR_PAGE ==> Page(el) == Fail(AssertionFailed)
    ensures el.className == Some(OCR_PAGE) && !HasKeys(el) ==> Page(el) == Fail(BadAttribute)
  {
    if el.className == Some(OCR_PAGE) && HasKeys(el) {
      HelperSucceedsIff(el, el.title.value);
    }
  }

  // ---------------------------------------------------------------------
  // The parser as written: a recursive method with a loop over sub-elements
  // ---------------------------------------------------------------------

  /** `helper`: builds the node, then appends the children one by one. */
  method ParseNode(el: Element, pageDim: seq<BBox>) returns (r: Result<Tess>)
    ensures r == Helper(el, pageDim)
    decreases el
  {
    if el.className.None? {
      return Fail(BadAttribute);
    }
    if el.className.value == OCRX_WORD {
      var got := AttrsOf(el);
      if got.Fail? {
        return Fail(got.error);
      }
      var attributes := got.value;
      if |el.children| > 0 {
        attributes := attributes.(text := el.children[0].text);
      }
      return MakeTess(attributes, pageDim);
    }
    var got := AttrsOf(el);
    if got.Fail? {
      return Fail(got.error);
    }
    var made := MakeTess(got.value, pageDim);
    if made.Fail? {
      return Fail(made.error);
    }
    var children: seq<Tess> := [];
    var i := 0;
    while i < |el.children|
      invariant 0 <= i <= |el.children|
      invariant HelperChildren(el, pageDim, i) == Ok(children)
    {
      var child := ParseNode(el.children[i], pageDim);
      if child.Fail? {
        HelperChildrenSticks(el, pageDim, i + 1);
        return Fail(child.error);
      }
      children := children + [child.value];
      i := i + 1;
    }
    return Ok(made.value.(children := children));
  }

  /** Once the children loop has failed, later sub-elements do not change the outcome. */
  lemma {:induction false} HelperChildrenSticks(el: Element, pageDim: seq<BBox>, n: nat)
    requires n <= |el.children| && HelperChildren(el, pageDim, n).Fail?
    ensures HelperChildren(el, pageDim, |el.children|) == HelperChildren(el, pageDim, n)
    decreases |el.children| - n
  {
    if n < |el.children| {
      HelperChildrenSticks(el, pageDim, n + 1);
    }
  }

  /** `TessParser.parse_page`: the page assertion, the page's bboxes, then `helper` on the page element. */
  method ParsePage(el: Element) returns (r: Result<Tess>)
    ensures r == Page(el)
  {
    if el.className.None? {
      return Fail(BadAttribute);
    }
    if el.className.value != OCR_PAGE {
      return Fail(AssertionFailed);
    }
    var got := AttrsOf(el);
    if got.Fail? {
      return Fail(got.error);
    }
    var pageDim := got.value.bounds;
    r := ParseNode(el, pageDim);
  }

  /** `TessParser.parse_pages`: the list comprehension as a loop. */
  method ParsePages(pages: seq<Element>) returns (r: Result<seq<Tess>>)
    ensures r == Pages(pages)
  {
    var parsed: seq<Tess> := [];
    var i := 0;
    while i < |pages|
      invariant 0 <= i <= |pages|
      invariant MapAll(pages[..i], Page) == Ok(parsed)
    {
      var page := ParsePage(pages[i]);
      TakeSnoc(pages, i);
      if page.Fail? {
        MapAllFailureSticks(pages, Page, i + 1);
        return Fail(page.error);
      }
      parsed := parsed + [page.value];
      i := i + 1;
    }
    assert pages[..i] == pages;
    return Ok(parsed);
  }
}
