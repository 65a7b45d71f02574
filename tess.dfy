/**
 * The candidate (Tesseract hOCR) tree: `Tess` nodes built once by the
 * parser and read only afterwards, so they are values here.
 */
module TessTree {
  import opened Utils
  import opened Geometry

  /** hOCR class of a word node. */
  const OCRX_WORD: string := "ocrx_word"

  /** The four numbers of one `bbox x0 y0 x1 y1` entry of an hOCR title. */
  datatype BBox = BBox(x0: nat, y0: nat, x1: nat, y1: nat)

  /**
   * What `get_attrs` extracts from an element: its class, every `bbox`
   * entry of its title, in order, and its text.
   */
  datatype Attrs = Attrs(className: string, bounds: seq<BBox>, text: string)

  /** A candidate node: hOCR class, text, raw pixel bounds, its page's size, children. */
  datatype Tess = Tess(tType: string, text: string, bounds: BBox,
                       pageWidth: Dim, pageHeight: Dim, children: seq<Tess>)

  predicate IsWord(n: Tess) { n.tType == OCRX_WORD }

  /** `get_bounds_from_attrs`: the first bbox entry; `[0]` raises on a title without one. */
  function BoundsFromAttrs(attrs: Attrs): (r: Result<BBox>)
    ensures r.Ok? <==> |attrs.bounds| > 0
    ensures r.Ok? ==> r.value == attrs.bounds[0]
    ensures r.Fail? ==> r.error == IndexError
  {
    if |attrs.bounds| == 0 then Fail(IndexError) else Ok(attrs.bounds[0])
  }

  /**
   * The page size: the last two numbers of the page's first bbox, that is
   * its far corner (x1, y1). A zero side is refused here (see README).
   */
  function PageDims(pageDim: seq<BBox>): (r: Result<(Dim, Dim)>)
    ensures r.Ok? <==> |pageDim| > 0 && pageDim[0].x1 > 0 && pageDim[0].y1 > 0
    ensures r.Ok? ==> r.value.0 as int == pageDim[0].x1 && r.value.1 as int == pageDim[0].y1
  {
    if |pageDim| == 0 then Fail(IndexError)
    else if pageDim[0].x1 == 0 || pageDim[0].y1 == 0 then Fail(ZeroDivision)
    else Ok((pageDim[0].x1, pageDim[0].y1))
  }

  /** `Tess.__init__`: page size first, then own bounds; no children yet. */
  function MakeTess(attrs: Attrs, pageDim: seq<BBox>): (r: Result<Tess>)
    ensures r.Ok? <==> PageDims(pageDim).Ok? && BoundsFromAttrs(attrs).Ok?
    ensures r.Ok? ==> r.value.tType == attrs.className && r.value.text == attrs.text
    ensures r.Ok? ==> r.value.bounds == attrs.bounds[0] && r.value.children == []
    ensures r.Ok? ==> r.value.pageWidth as int == pageDim[0].x1 && r.value.pageHeight as int == pageDim[0].y1
  {
    match PageDims(pageDim)
    case Fail(e) => Fail(e)
    case Ok(dims) =>
      match BoundsFromAttrs(attrs)
      case Fail(e) => Fail(e)
      case Ok(bb) => Ok(Tess(attrs.className, attrs.text, bb, dims.0, dims.1, []))
  }

  /** `Tess.get_bounds`: the node's bbox scaled by its page size to the 0-1000 space. */
  function Bounds(n: Tess): (box: Box)
    ensures WellFormed(box) <==> n.bounds.x0 <= n.bounds.x1 && n.bounds.y0 <= n.bounds.y1
    ensures box.xmin * (n.pageWidth as real) == 1000.0 * (n.bounds.x0 as real)
    ensures box.ymin * (n.pageHeight as real) == 1000.0 * (n.bounds.y0 as real)
    ensures box.xmax * (n.pageWidth as real) == 1000.0 * (n.bounds.x1 as real)
    ensures box.ymax * (n.pageHeight as real) == 1000.0 * (n.bounds.y1 as real)
  {
    NormalizeWellFormed(n.bounds.x0, n.bounds.y0, n.bounds.x1, n.bounds.y1, n.pageWidth, n.pageHeight);
    Normalize(n.bounds.x0, n.bounds.y0, n.bounds.x1, n.bounds.y1, n.pageWidth, n.pageHeight)
  }

  // ---------------------------------------------------------------------
  // Word extraction (`Tess.get_words`)
  // ---------------------------------------------------------------------

  /** Depth-first, left-to-right word nodes; a word node is never entered. */
  function Words(n: Tess): seq<Tess>
    decreases n
  {
    if IsWord(n) then [n] else Flatten(ChildWords(n))
  }

  function ChildWords(n: Tess): (r: seq<seq<Tess>>)
    ensures |r| == |n.children|
    decreases n, 0
  {
    seq(|n.children|, i requires 0 <= i < |n.children| => Words(n.children[i]))
  }

  /** `w` is `n` or lies below it without passing through a word node. */
  ghost predicate Reaches(n: Tess, w: Tess)
    decreases n
  {
    n == w || (!IsWord(n) && exists i :: 0 <= i < |n.children| && Reaches(n.children[i], w))
  }

  /** `get_words` yields exactly the word nodes reachable without entering a word. */
  lemma {:induction false} WordsExactly(n: Tess, w: Tess)
    ensures w in Words(n) <==> IsWord(w) && Reaches(n, w)
    decreases n
  {
    if !IsWord(n) {
      var cw := ChildWords(n);
      InFlatten(cw, w);
      forall i | 0 <= i < |n.children|
        ensures w in cw[i] <==> IsWord(w) && Reaches(n.children[i], w)
      {
        WordsExactly(n.children[i], w);
      }
      if IsWord(w) && Reaches(n, w) && n != w {
        var i :| 0 <= i < |n.children| && Reaches(n.children[i], w);
        assert w in cw[i];
      }
    }
  }

  /** A word node yields itself only, whatever it contains. */
  lemma WordIsLeaf(n: Tess)
    requires IsWord(n)
    ensures Words(n) == [n]
  {
  }

  /** `helper`: appends the words of `n` to the list built so far. */
  method CollectWords(n: Tess, words: seq<Tess>) returns (result: seq<Tess>)
    ensures result == words + Words(n)
    decreases n
  {
    if IsWord(n) {
      result := words + [n];
      return;
    }
    ghost var cw := ChildWords(n);
    result := words;
    var i := 0;
    while i < |n.children|
      invariant 0 <= i <= |n.children|
      invariant result == words + Flatten(cw[..i])
    {
      result := CollectWords(n.children[i], result);
      assert cw[i] == Words(n.children[i]);
      FlattenPrefix(cw, i);
      i := i + 1;
    }
    assert cw[..i] == cw;
    assert Words(n) == Flatten(cw);
  }

  /** `Tess.get_words`. */
  method GetWords(n: Tess) returns (words: seq<Tess>)
    ensures words == Words(n)
    ensures forall w :: w in words <==> IsWord(w) && Reaches(n, w)
  {
    words := CollectWords(n, []);
    forall w ensures w in words <==> IsWord(w) && Reaches(n, w) {
      WordsExactly(n, w);
    }
  }
}
