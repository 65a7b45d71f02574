/**
 * The reference (ABBYY) tree. Its nodes are objects that the parser links
 * together and that `pass_page_dim` and `process` then update in place, so
 * they are modelled by the class `Abby`. Each object keeps a ghost value
 * `model` of the subtree it roots; the scoring engine reads trees only and
 * works on these values (`Node`).
 */
module AbbyTree {
  import opened Utils
  import opened Geometry

  /** Raw pixel bounds left, top, right, bottom. */
  datatype Ltrb = Ltrb(l: int, t: int, r: int, b: int)

  /**
   * What `parse_attrs` can read from an element's attributes: `ltrb` when
   * all of l, t, r, b are present integers, the character text, `pageNum`
   * when the page number is a present integer, and `page` when width and
   * height are present positive integers.
   */
  datatype Attrs = Attrs(ltrb: Option<Ltrb>, text: string, pageNum: Option<int>, page: Option<(Dim, Dim)>)

  /** The value of an `Abby` subtree. */
  datatype Node = Node(kind: AbbyType, hasBounds: bool, l: int, t: int, r: int, b: int,
                       text: string, pageWidth: Dim, pageHeight: Dim, children: seq<Node>)

  predicate IsWord(n: Node) { n.kind == WORD }

  /**
   * `Abby.__init__` and `parse_attrs`: a CHAR or a P with complete l/t/r/b
   * has bounds, a CHAR has text, a PAGE has its number and size (the number
   * is read nowhere else and not kept); the other kinds read nothing. Fields
   * the source leaves unset hold 0, "" and 1 here.
   */
  function Initial(kind: AbbyType, attrs: Attrs): (n: Node)
    requires kind == PAGE ==> attrs.pageNum.Some? && attrs.page.Some?
    ensures n.hasBounds <==> (kind == CHAR || kind == P) && attrs.ltrb.Some?
    ensures n.hasBounds ==> Ltrb(n.l, n.t, n.r, n.b) == attrs.ltrb.value
    ensures n.text == if kind == CHAR then attrs.text else ""
    ensures kind == PAGE ==> (n.pageWidth, n.pageHeight) == attrs.page.value
    ensures n.kind == kind && n.children == []
  {
    var hasBounds := (kind == CHAR || kind == P) && attrs.ltrb.Some?;
    var box := if hasBounds then attrs.ltrb.value else Ltrb(0, 0, 0, 0);
    var dims := if kind == PAGE then attrs.page.value else (1, 1);
    Node(kind, hasBounds, box.l, box.t, box.r, box.b,
         if kind == CHAR then attrs.text else "", dims.0, dims.1, [])
  }

  /** `Abby.get_bounds`: the node's bounds scaled by its page size to the 0-1000 space. */
  function Bounds(n: Node): (box: Box)
    ensures WellFormed(box) <==> n.l <= n.r && n.t <= n.b
    ensures box.xmin * (n.pageWidth as real) == 1000.0 * (n.l as real)
    ensures box.ymin * (n.pageHeight as real) == 1000.0 * (n.t as real)
    ensures box.xmax * (n.pageWidth as real) == 1000.0 * (n.r as real)
    ensures box.ymax * (n.pageHeight as real) == 1000.0 * (n.b as real)
  {
    NormalizeWellFormed(n.l, n.t, n.r, n.b, n.pageWidth, n.pageHeight);
    Normalize(n.l, n.t, n.r, n.b, n.pageWidth, n.pageHeight)
  }

  // ---------------------------------------------------------------------
  // `pass_page_dim`, on values
  // ---------------------------------------------------------------------

  /** Every node of the subtree carries the page size (w, h). */
  function WithPageDim(n: Node, w: Dim, h: Dim): Node
    decreases n
  {
    n.(pageWidth := w, pageHeight := h,
       children := seq(|n.children|, i requires 0 <= i < |n.children| => WithPageDim(n.children[i], w, h)))
  }

  ghost predicate AllDims(n: Node, w: Dim, h: Dim)
    decreases n
  {
    n.pageWidth == w && n.pageHeight == h
    && forall i :: 0 <= i < |n.children| ==> AllDims(n.children[i], w, h)
  }

  /** Equal trees up to the page sizes stored in them. */
  ghost predicate SameExceptDims(a: Node, b: Node)
    decreases a
  {
    a.kind == b.kind && a.hasBounds == b.hasBounds && a.text == b.text
    && a.l == b.l && a.t == b.t && a.r == b.r && a.b == b.b
    && |a.children| == |b.children|
    && forall i :: 0 <= i < |a.children| ==> SameExceptDims(a.children[i], b.children[i])
  }

  /** `pass_page_dim` sets the size on every node and changes nothing else. */
  lemma {:induction false} PassPageDimReachesAll(n: Node, w: Dim, h: Dim)
    ensures AllDims(WithPageDim(n, w, h), w, h)
    ensures SameExceptDims(n, WithPageDim(n, w, h))
    decreases n
  {
    var m := WithPageDim(n, w, h);
    forall i | 0 <= i < |n.children|
      ensures AllDims(m.children[i], w, h) && SameExceptDims(n.children[i], m.children[i])
    {
      PassPageDimReachesAll(n.children[i], w, h);
    }
  }

  // ---------------------------------------------------------------------
  // `process`, on values
  // ---------------------------------------------------------------------

  /** One step of the union: widen `box` to cover child `c`. */
  function Widen(box: Ltrb, c: Node): Ltrb {
    Ltrb(Min(box.l, c.l), Min(box.t, c.t), Max(box.r, c.r), Max(box.b, c.b))
  }

  /** The running min/max of `process`, over the children in order, from `seed`. */
  function Hull(seed: Ltrb, cs: seq<Node>): Ltrb {
    if cs == [] then seed else Widen(Hull(seed, cs[..|cs| - 1]), cs[|cs| - 1])
  }

  lemma HullSnoc(seed: Ltrb, cs: seq<Node>, i: nat)
    requires i < |cs|
    ensures Hull(seed, cs[..i + 1]) == Widen(Hull(seed, cs[..i]), cs[i])
  {
    assert cs[..i + 1][..i] == cs[..i];
  }

  /** `"".join(...)`: the children's texts, concatenated in order. */
  function Texts(cs: seq<Node>): string {
    if cs == [] then "" else Texts(cs[..|cs| - 1]) + cs[|cs| - 1].text
  }

  /** The seed of a boundless node: (page_width, page_height, 0, 0). */
  function Seed(n: Node): Ltrb { Ltrb(n.pageWidth, n.pageHeight, 0, 0) }

  /**
   * `process`: children first, in order; a node without bounds of its own
   * takes the running union of its processed children from `Seed`; a WORD
   * takes its children's concatenated text.
   */
  function Processed(n: Node): Node
    decreases n, 1
  {
    var cs := ProcessedChildren(n);
    var box := if n.hasBounds then Ltrb(n.l, n.t, n.r, n.b) else Hull(Seed(n), cs);
    Node(n.kind, n.hasBounds, box.l, box.t, box.r, box.b,
         if n.kind == WORD then Texts(cs) else n.text, n.pageWidth, n.pageHeight, cs)
  }

  function ProcessedChildren(n: Node): (cs: seq<Node>)
    ensures |cs| == |n.children|
    decreases n, 0
  {
    seq(|n.children|, i requires 0 <= i < |n.children| => Processed(n.children[i]))
  }

  /** A node with bounds of its own keeps them. */
  lemma KeepsOwnBounds(n: Node)
    requires n.hasBounds
    ensures var m := Processed(n); (m.l, m.t, m.r, m.b) == (n.l, n.t, n.r, n.b)
  {
  }

  /**
   * The union is exact: it covers the seed and every child, and each side
   * comes from the seed or from some child.
   */
  lemma {:induction false} HullIsTight(seed: Ltrb, cs: seq<Node>)
    ensures var u := Hull(seed, cs);
      && u.l <= seed.l && u.t <= seed.t && u.r >= seed.r && u.b >= seed.b
      && (forall i :: 0 <= i < |cs| ==> u.l <= cs[i].l && u.t <= cs[i].t && u.r >= cs[i].r && u.b >= cs[i].b)
      && (u.l == seed.l || exists i :: 0 <= i < |cs| && u.l == cs[i].l)
      && (u.t == seed.t || exists i :: 0 <= i < |cs| && u.t == cs[i].t)
      && (u.r == seed.r || exists i :: 0 <= i < |cs| && u.r == cs[i].r)
      && (u.b == seed.b || exists i :: 0 <= i < |cs| && u.b == cs[i].b)
  {
    if cs != [] {
      var init := cs[..|cs| - 1];
      HullIsTight(seed, init);
      var u0 := Hull(seed, init);
      var last := |cs| - 1;
      assert forall i :: 0 <= i < |init| ==> init[i] == cs[i];
      if u0.l != seed.l && Min(u0.l, cs[last].l) == u0.l {
        var i :| 0 <= i < |init| && u0.l == init[i].l;
        assert u0.l == cs[i].l;
      }
      if u0.t != seed.t && Min(u0.t, cs[last].t) == u0.t {
        var i :| 0 <= i < |init| && u0.t == init[i].t;
        assert u0.t == cs[i].t;
      }
      if u0.r != seed.r && Max(u0.r, cs[last].r) == u0.r {
        var i :| 0 <= i < |init| && u0.r == init[i].r;
        assert u0.r == cs[i].r;
      }
      if u0.b != seed.b && Max(u0.b, cs[last].b) == u0.b {
        var i :| 0 <= i < |init| && u0.b == init[i].b;
        assert u0.b == cs[i].b;
      }
    }
  }

  /**
   * A boundless node ends with the union of its processed children and the
   * seed (page_width, page_height, 0, 0).
   */
  lemma BoundlessTakesUnion(n: Node)
    requires !n.hasBounds
    ensures var m := Processed(n);
      && m.l <= n.pageWidth && m.t <= n.pageHeight && m.r >= 0 && m.b >= 0
      && (forall i :: 0 <= i < |m.children| ==>
            m.l <= m.children[i].l && m.t <= m.children[i].t && m.r >= m.children[i].r && m.b >= m.children[i].b)
      && (m.l == n.pageWidth || exists i :: 0 <= i < |m.children| && m.l == m.children[i].l)
      && (m.t == n.pageHeight || exists i :: 0 <= i < |m.children| && m.t == m.children[i].t)
      && (m.r == 0 || exists i :: 0 <= i < |m.children| && m.r == m.children[i].r)
      && (m.b == 0 || exists i :: 0 <= i < |m.children| && m.b == m.children[i].b)
  {
    HullIsTight(Seed(n), ProcessedChildren(n));
  }

  /** A childless node without bounds, such as an empty WORD, ends with l = page_width > r = 0. */
  lemma ChildlessBoundlessIsInverted(n: Node)
    requires !n.hasBounds && n.children == []
    ensures var m := Processed(n); m.l == n.pageWidth && m.t == n.pageHeight && m.r == 0 && m.b == 0
    ensures var m := Processed(n); m.l > m.r && !WellFormed(Bounds(m))
  {
  }

  /** Text of a processed WORD: its children's texts, concatenated in order. */
  lemma {:induction false} WordTextFromChildren(n: Node)
    requires IsWord(n)
    requires forall i :: 0 <= i < |n.children| ==> !IsWord(n.children[i])
    ensures Processed(n).text == Texts(n.children)
  {
    var cs := ProcessedChildren(n);
    forall i | 0 <= i < |cs| ensures cs[i].text == n.children[i].text {
      KeepsTextOfNonWord(n.children[i]);
    }
    TextsPointwise(cs, n.children);
  }

  lemma {:induction false} TextsPointwise(xs: seq<Node>, ys: seq<Node>)
    requires |xs| == |ys| && forall i :: 0 <= i < |xs| ==> xs[i].text == ys[i].text
    ensures Texts(xs) == Texts(ys)
  {
    if xs != [] {
      TextsPointwise(xs[..|xs| - 1], ys[..|ys| - 1]);
    }
  }

  /** `process` never changes the text of a node other than a WORD. */
  lemma KeepsTextOfNonWord(n: Node)
    requires !IsWord(n)
    ensures Processed(n).text == n.text
  {
  }

  /** Processing keeps the kinds, the page sizes and the number of children. */
  lemma KeepsShape(n: Node)
    ensures var m := Processed(n);
      m.kind == n.kind && m.hasBounds == n.hasBounds && m.pageWidth == n.pageWidth
      && m.pageHeight == n.pageHeight && |m.children| == |n.children|
  {
  }

  /** Processing twice gives the same tree as processing once. */
  lemma {:induction false} ProcessedIdempotent(n: Node)
    ensures Processed(Processed(n)) == Processed(n)
    decreases n
  {
    var m := Processed(n);
    var cs := ProcessedChildren(n);
    assert m.children == cs;
    forall i | 0 <= i < |n.children| ensures Processed(m.children[i]) == m.children[i] {
      assert cs[i] == Processed(n.children[i]);
      assert m.children[i] == Processed(n.children[i]);
      ProcessedIdempotent(n.children[i]);
    }
    assert ProcessedChildren(m) == m.children;
  }

  // ---------------------------------------------------------------------
  // `get_words`, on values
  // ---------------------------------------------------------------------

  /** The WORD nodes of the subtree in document order; a WORD is not entered. */
  function Words(n: Node): seq<Node>
    decreases n
  {
    if IsWord(n) then [n] else Flatten(ChildWords(n))
  }

  function ChildWords(n: Node): (r: seq<seq<Node>>)
    ensures |r| == |n.children|
    decreases n, 0
  {
    seq(|n.children|, i requires 0 <= i < |n.children| => Words(n.children[i]))
  }

  /** `w` is `n` or lies below it without passing through a WORD node. */
  ghost predicate Reaches(n: Node, w: Node)
    decreases n
  {
    n == w || (!IsWord(n) && exists i :: 0 <= i < |n.children| && Reaches(n.children[i], w))
  }

  /** `get_words` yields exactly the WORD nodes reachable without entering a WORD. */
  lemma {:induction false} WordsExactly(n: Node, w: Node)
    ensures w in Words(n) <==> IsWord(w) && Reaches(n, w)
    decreases n
  {
    if !IsWord(n) {
      var cw := ChildWords(n);
      InFlatten(cw, w);
      forall i | 0 <= i < |n.children|
        ensures w in cw[i] <==> IsWord(w) && Reaches(n.children[i], w)
      {
        WordsExactly(n.children[i], w);
      }
      if IsWord(w) && Reaches(n, w) && n != w {
        var i :| 0 <= i < |n.children| && Reaches(n.children[i], w);
        assert w in cw[i];
      }
    }
  }

  /** A WORD yields itself only; its CHAR children are never listed. */
  lemma WordIsLeaf(n: Node)
    requires IsWord(n)
    ensures Words(n) == [n]
  {
  }

  /** `helper`: appends the words of `n` to the list built so far. */
  method CollectWords(n: Node, words: seq<Node>) returns (result: seq<Node>)
    ensures result == words + Words(n)
    decreases n
  {
    if IsWord(n) {
      result := words + [n];
      return;
    }
    ghost var cw := ChildWords(n);
    result := words;
    var i := 0;
    while i < |n.children|
      invariant 0 <= i <= |n.children|
      invariant result == words + Flatten(cw[..i])
    {
      result := CollectWords(n.children[i], result);
      assert cw[i] == Words(n.children[i]);
      FlattenPrefix(cw, i);
      i := i + 1;
    }
    assert cw[..i] == cw;
    assert Words(n) == Flatten(cw);
  }

  /** `Abby.get_words`. */
  method GetWords(n: Node) returns (words: seq<Node>)
    ensures words == Words(n)
    ensures forall w :: w in words <==> IsWord(w) && Reaches(n, w)
  {
    words := CollectWords(n, []);
    forall w ensures w in words <==> IsWord(w) && Reaches(n, w) {
      WordsExactly(n, w);
    }
  }

  // ---------------------------------------------------------------------
  // The objects
  // ---------------------------------------------------------------------

  class Abby {
    const kind: AbbyType
    const hasBounds: bool
    var l: int
    var t: int
    var r: int
    var b: int
    var text: string
    var pageWidth: Dim
    var pageHeight: Dim
    var children: seq<Abby>

    /** The value of the subtree rooted here. */
    ghost var model: Node
    /** This object and every object of its subtree. */
    ghost var Repr: set<object>

    /** The fields agree with `model`, and the children own disjoint subtrees. */
    ghost predicate Valid()
      reads this, Repr
      decreases Repr, 1
    {
      && this in Repr
      && model == Node(kind, hasBounds, l, t, r, b, text, pageWidth, pageHeight, model.children)
      && |model.children| == |children|
      && ChildrenValid()
      && (forall i :: 0 <= i < |children| ==> children[i].model == model.children[i])
    }

    ghost predicate ChildrenValid()
      reads this`children, this`Repr, Repr - {this}
      decreases Repr, 0
    {
      && this in Repr
      && (forall i :: 0 <= i < |children| ==>
            && children[i] in Repr && children[i] != this
            && children[i].Repr <= Repr && this !in children[i].Repr
            && children[i].Valid())
      && (forall i, j :: 0 <= i < j < |children| ==> children[i].Repr !! children[j].Repr)
    }

    /** `Abby(attrs, a_type)`. */
    constructor (kind: AbbyType, attrs: Attrs)
      requires kind == PAGE ==> attrs.pageNum.Some? && attrs.page.Some?
      ensures Valid() && fresh(Repr)
      ensures model == Initial(kind, attrs)
    {
      var n := Initial(kind, attrs);
      this.kind := kind;
      hasBounds := n.hasBounds;
      l, t, r, b := n.l, n.t, n.r, n.b;
      text := n.text;
      pageWidth, pageHeight := n.pageWidth, n.pageHeight;
      children := [];
      model := n;
      Repr := {this};
    }

    /** `add_child`: link a separately built subtree as the last child. */
    method AddChild(c: Abby)
      requires Valid() && c.Valid() && Repr !! c.Repr
      modifies this
      ensures Valid()
      ensures Repr == old(Repr) + c.Repr
      ensures model == old(model).(children := old(model).children + [c.model])
    {
      children := children + [c];
      Repr := Repr + c.Repr;
      model := model.(children := model.children + [c.model]);
      assert forall i :: 0 <= i < |children| - 1 ==> children[i] == old(children)[i];
    }

    /** `pass_page_dim`: store the page size in every node of the subtree. */
    method PassPageDim(w: Dim, h: Dim)
      requires Valid()
      modifies Repr
      ensures Valid() && Repr == old(Repr)
      ensures model == WithPageDim(old(model), w, h)
      decreases Repr, 2
    {
      pageWidth, pageHeight := w, h;
      PassPageDimToChildren(w, h);
      model := WithPageDim(model, w, h);
    }

    /** The loop of `pass_page_dim`: each child in turn. */
    method PassPageDimToChildren(w: Dim, h: Dim)
      requires ChildrenValid()
      modifies Repr - {this}
      ensures ChildrenValid()
      ensures forall j :: 0 <= j < |children| ==> children[j].model == WithPageDim(old(children[j].model), w, h)
      decreases Repr, 1
    {
      var i := 0;
      while i < |children|
        invariant 0 <= i <= |children|
        invariant ChildrenValid()
        invariant forall j :: 0 <= j < i ==> children[j].model == WithPageDim(old(children[j].model), w, h)
        invariant forall j :: i <= j < |children| ==> children[j].model == old(children[j].model)
      {
        PassPageDimToChild(i, w, h);
        i := i + 1;
      }
    }

    /** One iteration of `pass_page_dim`'s loop: the call on child `i`. */
    method PassPageDimToChild(i: nat, w: Dim, h: Dim)
      requires ChildrenValid() && i < |children|
      modifies children[i].Repr
      ensures ChildrenValid()
      ensures children[i].model == WithPageDim(old(children[i].model), w, h)
      ensures forall j :: 0 <= j < |children| && j != i ==> children[j].model == old(children[j].model)
      decreases Repr, 0
    {
      children[i].PassPageDim(w, h);
    }

    /**
     * `process`: children first, in order; a node without bounds of its own
     * widens (page_width, page_height, 0, 0) by each processed child; a
     * WORD then takes its characters' concatenated text.
     */
    method Process()
      requires Valid()
      modifies Repr
      ensures Valid() && Repr == old(Repr)
      ensures model == Processed(old(model))
      decreases Repr, 2
    {
      ghost var m0 := model;
      var start := if hasBounds then Ltrb(l, t, r, b) else Ltrb(pageWidth, pageHeight, 0, 0);
      var box := ProcessChildren(start);
      ghost var cs := ProcessedChildren(m0);
      var s := text;
      if kind == WORD {
        s := ChildrenText(cs);
      }
      ghost var m1 := Processed(m0);
      assert m1 == Node(kind, hasBounds, box.l, box.t, box.r, box.b, s, pageWidth, pageHeight, cs);
      SetOwn(box, s);
      model := m1;
    }

    /** The final assignments of `process`: the widened box and the word's text. */
    method SetOwn(box: Ltrb, s: string)
      requires ChildrenValid()
      modifies this`l, this`t, this`r, this`b, this`text
      ensures ChildrenValid()
      ensures Ltrb(l, t, r, b) == box && text == s
      ensures forall j :: 0 <= j < |children| ==> children[j].model == old(children[j].model)
    {
      l, t, r, b, text := box.l, box.t, box.r, box.b, s;
    }

    /**
     * The loop of `process`: process each child, widening `box` by each
     * processed child when this node has no bounds of its own.
     */
    method ProcessChildren(start: Ltrb) returns (box: Ltrb)
      requires ChildrenValid()
      requires |children| == |model.children|
      requires forall j :: 0 <= j < |children| ==> children[j].model == model.children[j]
      modifies Repr - {this}
      ensures ChildrenValid()
      ensures forall j :: 0 <= j < |children| ==> children[j].model == Processed(model.children[j])
      ensures hasBounds ==> box == start
      ensures !hasBounds ==> box == Hull(start, ProcessedChildren(model))
      decreases Repr, 1
    {
      ghost var cs := ProcessedChildren(model);
      box := start;
      var i := 0;
      while i < |children|
        invariant 0 <= i <= |children|
        invariant ChildrenValid()
        invariant forall j :: 0 <= j < i ==> children[j].model == cs[j]
        invariant forall j :: i <= j < |children| ==> children[j].model == model.children[j]
        invariant hasBounds ==> box == start
        invariant !hasBounds ==> box == Hull(start, cs[..i])
      {
        ProcessChild(i);
        if !hasBounds {
          var c := children[i];
          assert c.Valid() && c.model == cs[i];
          assert Ltrb(c.l, c.t, c.r, c.b) == Ltrb(cs[i].l, cs[i].t, cs[i].r, cs[i].b);
          HullSnoc(start, cs, i);
          box := Ltrb(Min(box.l, c.l), Min(box.t, c.t), Max(box.r, c.r), Max(box.b, c.b));
        }
        i := i + 1;
      }
      assert cs[..i] == cs;
    }

    /** One iteration of `process`'s loop: the call on child `i`. */
    method ProcessChild(i: nat)
      requires ChildrenValid() && i < |children|
      modifies children[i].Repr
      ensures ChildrenValid()
      ensures children[i].model == Processed(old(children[i].model))
      ensures forall j :: 0 <= j < |children| && j != i ==> children[j].model == old(children[j].model)
      decreases Repr, 0
    {
      children[i].Process();
    }

    /** `"".join([char.text for char in self.children])`. */
    method ChildrenText(ghost cs: seq<Node>) returns (s: string)
      requires ChildrenValid()
      requires |cs| == |children| && forall j :: 0 <= j < |children| ==> children[j].model == cs[j]
      ensures s == Texts(cs)
    {
      s := "";
      var k := 0;
      while k < |children|
        invariant 0 <= k <= |children|
        invariant s == Texts(cs[..k])
      {
        assert children[k].text == cs[k].text;
        assert cs[..k + 1][..k] == cs[..k];
        s := s + children[k].text;
        k := k + 1;
      }
      assert cs[..k] == cs;
    }
  }
}