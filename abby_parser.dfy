/**
 * `AbbyParser`: turns ABBYY XML elements into `Abby` trees. A text block is
 * read by a three-way state machine over its child elements (line break,
 * separator, character); tables are rows of text blocks; a page keeps its
 * `p` and `table` children, then receives its size and is processed.
 */
module AbbyParser {
  import opened Utils
  import opened AbbyTree

  const BR: string := "br"
  const SPAN: string := "span"
  const PARA: string := "p"
  const CELL: string := "td"
  const TABLE_TAG: string := "table"
  const PAGE_TAG: string := "page"
  const TEXT_BLOCKTYPE: string := "Text"

  /**
   * An ABBYY XML element: tag name, text, what `parse_attrs` can read from
   * its attributes, its `blocktype` attribute if present, its child elements.
   */
  datatype Element = Element(name: string, text: string, attrs: Attrs,
                             blocktype: Option<string>, children: seq<Element>)

  /** No attributes at all: `Abby({}, ...)`. */
  const NO_ATTRS: Attrs := Attrs(None, "", None, None)

  // ---------------------------------------------------------------------
  // `parse_text_block`, on values
  // ---------------------------------------------------------------------

  predicate IsBreak(el: Element) { el.name == BR }
  predicate IsSeparator(el: Element) { !IsBreak(el) && (el.text == " " || el.text == "\n") }
  predicate IsChar(el: Element) { !IsBreak(el) && !IsSeparator(el) && el.name == SPAN }
  predicate IsUnknown(el: Element) { !IsBreak(el) && !IsSeparator(el) && !IsChar(el) }

  /** A character element becomes a CHAR whose text is the element's text. */
  function CharOf(el: Element): (n: Node)
    ensures n.kind == CHAR && n.text == el.text && n.children == []
  {
    Initial(CHAR, el.attrs.(text := el.text))
  }

  function WordOf(chars: seq<Node>): Node { Initial(WORD, NO_ATTRS).(children := chars) }
  function LineOf(words: seq<Node>): Node { Initial(LINE, NO_ATTRS).(children := words) }

  /**
   * The state of the loop: the lines already added to the block, the words
   * of `current_line`, the characters of `current_word`.
   */
  datatype Builder = Builder(lines: seq<Node>, line: seq<Node>, word: seq<Node>)

  const START: Builder := Builder([], [], [])

  /**
   * One element: a line break closes the word into the line and the line
   * into the block; a separator (tested before the tag name) closes the
   * word; a span adds a character; anything else cannot be parsed.
   */
  function Step(b: Builder, el: Element): (r: Result<Builder>)
    ensures r.Fail? <==> IsUnknown(el)
    ensures r.Fail? ==> r.error == CannotParse
  {
    if el.name == BR then Ok(Builder(b.lines + [LineOf(b.line + [WordOf(b.word)])], [], []))
    else if el.text == " " || el.text == "\n" then Ok(Builder(b.lines, b.line + [WordOf(b.word)], []))
    else if el.name == SPAN then Ok(Builder(b.lines, b.line, b.word + [CharOf(el)]))
    else Fail(CannotParse)
  }

  /** The loop over all elements, from `START`; the first failure aborts. */
  function Scan(els: seq<Element>): Result<Builder>
  {
    if els == [] then Ok(START)
    else
      match Scan(els[..|els| - 1])
      case Fail(e) => Fail(e)
      case Ok(b) => Step(b, els[|els| - 1])
  }

  /**
   * `parse_text_block`: a `p` must have blocktype `Text` (a `p` without the
   * attribute raises a KeyError) and otherwise the tag must be `td`. The
   * block holds the closed lines only: the open line and word are dropped.
   */
  function TextBlock(el: Element): Result<Node>
  {
    if el.name == PARA && el.blocktype.None? then Fail(BadAttribute)
    else if !((el.name == PARA && el.blocktype == Some(TEXT_BLOCKTYPE)) || el.name == CELL) then
      Fail(AssertionFailed)
    else
      match Scan(el.children)
      case Fail(e) => Fail(e)
      case Ok(b) => Ok(Initial(P, el.attrs).(children := b.lines))
  }

  // ---------------------------------------------------------------------
  // What the text block state machine does
  // ---------------------------------------------------------------------

  function Breaks(els: seq<Element>): nat {
    if els == [] then 0 else Breaks(els[..|els| - 1]) + (if IsBreak(els[|els| - 1]) then 1 else 0)
  }

  function Separators(els: seq<Element>): nat {
    if els == [] then 0 else Separators(els[..|els| - 1]) + (if IsSeparator(els[|els| - 1]) then 1 else 0)
  }

  /** The CHAR nodes of the character elements, in order. */
  function CharsOf(els: seq<Element>): seq<Node> {
    if els == [] then []
    else CharsOf(els[..|els| - 1]) + (if IsChar(els[|els| - 1]) then [CharOf(els[|els| - 1])] else [])
  }

  /** The characters of a list of words, in order. */
  function WordsChars(words: seq<Node>): seq<Node> {
    if words == [] then [] else WordsChars(words[..|words| - 1]) + words[|words| - 1].children
  }

  /** The characters of a list of lines, in order. */
  function LinesChars(lines: seq<Node>): seq<Node> {
    if lines == [] then [] else LinesChars(lines[..|lines| - 1]) + WordsChars(lines[|lines| - 1].children)
  }

  /** Number of words in a list of lines. */
  function WordCount(lines: seq<Node>): nat {
    if lines == [] then 0 else WordCount(lines[..|lines| - 1]) + |lines[|lines| - 1].children|
  }

  /** Every character held by the builder, closed lines first. */
  function Content(b: Builder): seq<Node> { LinesChars(b.lines) + WordsChars(b.line) + b.word }

  /** Lines are LINEs of WORDs of CHARs. */
  predicate IsWordOfChars(w: Node) {
    w == WordOf(w.children) && forall i :: 0 <= i < |w.children| ==> w.children[i].kind == CHAR
  }
  predicate IsLineOfWords(n: Node) {
    n == LineOf(n.children) && forall i :: 0 <= i < |n.children| ==> IsWordOfChars(n.children[i])
  }
  predicate Layered(b: Builder) {
    && (forall i :: 0 <= i < |b.lines| ==> IsLineOfWords(b.lines[i]))
    && (forall i :: 0 <= i < |b.line| ==> IsWordOfChars(b.line[i]))
    && (forall i :: 0 <= i < |b.word| ==> b.word[i].kind == CHAR)
  }

  lemma DropLast<T>(xs: seq<T>, x: T)
    ensures (xs + [x])[..|xs + [x]| - 1] == xs && (xs + [x])[|xs + [x]| - 1] == x
  {
  }

  /** `Scan` of one element more is one `Step` more. */
  lemma ScanSnoc(els: seq<Element>, el: Element)
    ensures Scan(els + [el]) == match Scan(els) case Fail(e) => Fail(e) case Ok(b) => Step(b, el)
  {
    DropLast(els, el);
  }

  /** The parse fails exactly when some element is neither a break, a separator nor a span. */
  lemma {:induction false} ScanFailsIff(els: seq<Element>)
    ensures Scan(els).Fail? <==> exists k :: 0 <= k < |els| && IsUnknown(els[k])
    ensures Scan(els).Fail? ==> Scan(els).error == CannotParse
  {
    if els != [] {
      var init := els[..|els| - 1];
      ScanFailsIff(init);
      assert els == init + [els[|els| - 1]];
      if exists k :: 0 <= k < |init| && IsUnknown(init[k]) {
        var k :| 0 <= k < |init| && IsUnknown(init[k]);
        assert els[k] == init[k];
      }
      if exists k :: 0 <= k < |els| && IsUnknown(els[k]) {
        var k :| 0 <= k < |els| && IsUnknown(els[k]);
        if k < |init| {
          assert init[k] == els[k];
        }
      }
    }
  }

  /** Once the loop has failed, the elements after do not matter. */
  lemma {:induction false} ScanFailureSticks(els: seq<Element>, n: nat)
    requires n <= |els| && Scan(els[..n]).Fail?
    ensures Scan(els) == Scan(els[..n])
    decreases |els| - n
  {
    if n < |els| {
      TakeSnoc(els, n);
      ScanSnoc(els[..n], els[n]);
      ScanFailureSticks(els, n + 1);
    } else {
      assert els[..n] == els;
    }
  }

  /** Exactly one line per line break; one word per separator or break. */
  lemma {:induction false} ScanCounts(els: seq<Element>, b: Builder)
    requires Scan(els) == Ok(b)
    ensures |b.lines| == Breaks(els)
    ensures WordCount(b.lines) + |b.line| == Breaks(els) + Separators(els)
  {
    if els != [] {
      var init, last := els[..|els| - 1], els[|els| - 1];
      var b0 := Scan(init).value;
      ScanCounts(init, b0);
      if IsBreak(last) {
        DropLast(b0.lines, LineOf(b0.line + [WordOf(b0.word)]));
      }
    }
  }

  lemma WordsCharsSnoc(words: seq<Node>, w: Node)
    ensures WordsChars(words + [w]) == WordsChars(words) + w.children
  {
    DropLast(words, w);
  }

  lemma LinesCharsSnoc(lines: seq<Node>, n: Node)
    ensures LinesChars(lines + [n]) == LinesChars(lines) + WordsChars(n.children)
  {
    DropLast(lines, n);
  }

  /** A line break moves the open word into the open line and that line into the block. */
  lemma BreakKeepsChars(b: Builder)
    ensures Content(Builder(b.lines + [LineOf(b.line + [WordOf(b.word)])], [], [])) == Content(b)
  {
    var w := WordOf(b.word);
    var n := LineOf(b.line + [w]);
    LinesCharsSnoc(b.lines, n);
    WordsCharsSnoc(b.line, w);
    assert LinesChars(b.lines + [n]) == LinesChars(b.lines) + WordsChars(b.line) + b.word;
  }

  /** A separator moves the open word into the open line. */
  lemma SeparatorKeepsChars(b: Builder)
    ensures Content(Builder(b.lines, b.line + [WordOf(b.word)], [])) == Content(b)
  {
    WordsCharsSnoc(b.line, WordOf(b.word));
  }

  /** One step adds the element's character, if it is one, at the end of the content. */
  lemma StepKeepsChars(b: Builder, el: Element)
    requires Step(b, el).Ok?
    ensures Content(Step(b, el).value) == Content(b) + (if IsChar(el) then [CharOf(el)] else [])
  {
    if IsBreak(el) {
      BreakKeepsChars(b);
    } else if IsSeparator(el) {
      SeparatorKeepsChars(b);
    }
  }

  /** No character is lost, duplicated or reordered while the block is read. */
  lemma {:induction false} ScanKeepsChars(els: seq<Element>, b: Builder)
    requires Scan(els) == Ok(b)
    ensures Content(b) == CharsOf(els)
  {
    if els != [] {
      var init := els[..|els| - 1];
      var b0 := Scan(init).value;
      ScanKeepsChars(init, b0);
      StepKeepsChars(b0, els[|els| - 1]);
    }
  }

  /** The block is made of LINEs of WORDs of CHARs. */
  lemma {:induction false} ScanLayered(els: seq<Element>, b: Builder)
    requires Scan(els) == Ok(b)
    ensures Layered(b)
  {
    if els != [] {
      var init := els[..|els| - 1];
      ScanLayered(init, Scan(init).value);
    }
  }

  /** Nothing after the last line break reaches the block. */
  lemma {:induction false} TrailingDropped(els: seq<Element>, tail: seq<Element>)
    requires Scan(els + tail).Ok? && Breaks(tail) == 0
    ensures Scan(els).Ok? && Scan(els + tail).value.lines == Scan(els).value.lines
    decreases |tail|
  {
    if tail == [] {
      assert els + tail == els;
    } else {
      var init, last := tail[..|tail| - 1], tail[|tail| - 1];
      assert els + tail == (els + init) + [last];
      ScanSnoc(els + init, last);
      TrailingDropped(els, init);
    }
  }

  /** Two separators in a row close the open word and then an empty one. */
  lemma ConsecutiveSeparators(els: seq<Element>, s1: Element, s2: Element)
    requires Scan(els).Ok? && IsSeparator(s1) && IsSeparator(s2)
    ensures Scan(els + [s1, s2]).Ok?
    ensures var b, b2 := Scan(els).value, Scan(els + [s1, s2]).value;
      b2.lines == b.lines && b2.line == b.line + [WordOf(b.word), WordOf([])] && b2.word == []
  {
    ScanSnoc(els, s1);
    assert els + [s1, s2] == (els + [s1]) + [s2];
    ScanSnoc(els + [s1], s2);
  }

  /** `Scan` of a prefix, one element more. */
  lemma ScanStep(els: seq<Element>, i: nat)
    requires i < |els|
    ensures Scan(els[..i + 1]) == match Scan(els[..i]) case Fail(e) => Fail(e) case Ok(b) => Step(b, els[i])
  {
    TakeSnoc(els, i);
    ScanSnoc(els[..i], els[i]);
  }

  /**
   * A parsed block holds the characters of its elements in order up to the
   * last line break (a prefix of all of them), and all of them when the
   * block ends with a line break; it has one line per line break.
   */
  lemma TextBlockChars(el: Element, n: Node)
    requires TextBlock(el) == Ok(n)
    ensures n.kind == P && |n.children| == Breaks(el.children)
    ensures forall i :: 0 <= i < |n.children| ==> IsLineOfWords(n.children[i])
    ensures LinesChars(n.children) <= CharsOf(el.children)
    ensures |el.children| > 0 && IsBreak(el.children[|el.children| - 1]) ==>
            LinesChars(n.children) == CharsOf(el.children)
  {
    var b := Scan(el.children).value;
    ScanCounts(el.children, b);
    ScanKeepsChars(el.children, b);
    ScanLayered(el.children, b);
    if |el.children| > 0 && IsBreak(el.children[|el.children| - 1]) {
      assert b.line == [] && b.word == [];
    }
  }

  /** Which elements make a text block fail, and with what. */
  lemma TextBlockFails(el: Element)
    ensures TextBlock(el).Fail? <==>
            (el.name == PARA && el.blocktype != Some(TEXT_BLOCKTYPE)) || (el.name != PARA && el.name != CELL)
            || exists k :: 0 <= k < |el.children| && IsUnknown(el.children[k])
    ensures el.name == PARA && el.blocktype.None? ==> TextBlock(el) == Fail(BadAttribute)
    ensures el.name == CELL || (el.name == PARA && el.blocktype == Some(TEXT_BLOCKTYPE)) ==>
            (TextBlock(el).Fail? ==> TextBlock(el) == Fail(CannotParse))
  {
    ScanFailsIff(el.children);
  }

  // ---------------------------------------------------------------------
  // `parse_table` and `parse_page`, on values
  // ---------------------------------------------------------------------

  /** A table row: one text block per child element, in order. */
  function Row(el: Element): Result<Node>
  {
    match MapAll(el.children, TextBlock)
    case Fail(e) => Fail(e)
    case Ok(bs) => Ok(Initial(T_ROW, NO_ATTRS).(children := bs))
  }

  /** `parse_table`: the rows are the children of the table's first child (its body). */
  function Table(el: Element): Result<Node>
  {
    if |el.children| == 0 then Fail(IndexError)
    else
      match MapAll(el.children[0].children, Row)
      case Fail(e) => Fail(e)
      case Ok(rows) => Ok(Initial(TABLE, NO_ATTRS).(children := rows))
  }

  predicate IsKept(c: Element) { c.name == PARA || c.name == TABLE_TAG }

  /** The children a page reads: its `p` and `table` elements, in order. */
  function Kept(cs: seq<Element>): (r: seq<Element>)
    ensures |r| <= |cs|
  {
    if cs == [] then []
    else Kept(cs[..|cs| - 1]) + (if IsKept(cs[|cs| - 1]) then [cs[|cs| - 1]] else [])
  }

  function PageChild(c: Element): Result<Node>
  {
    if c.name == PARA then TextBlock(c) else Table(c)
  }

  /**
   * `parse_page`: the tag must be `page` and its number and size attributes
   * integers; its blocks are parsed in order, then the size is passed down
   * to every node and the tree is processed.
   */
  function Page(el: Element): Result<Node>
  {
    if el.name != PAGE_TAG then Fail(AssertionFailed)
    else if el.attrs.pageNum.None? || el.attrs.page.None? then Fail(BadAttribute)
    else
      match MapAll(Kept(el.children), PageChild)
      case Fail(e) => Fail(e)
      case Ok(bs) =>
        var n := Initial(PAGE, el.attrs).(children := bs);
        Ok(Processed(WithPageDim(n, n.pageWidth, n.pageHeight)))
  }

  /** `AbbyParser.parse_pages`: every page in order; the first failure aborts. */
  function Pages(pages: seq<Element>): Result<seq<Node>>
  {
    MapAll(pages, Page)
  }

  // ---------------------------------------------------------------------
  // What tables and pages keep
  // ---------------------------------------------------------------------

  /** A row holds one block per child element, each the parse of that element. */
  lemma RowShape(el: Element, n: Node)
    requires Row(el) == Ok(n)
    ensures n.kind == T_ROW && |n.children| == |el.children|
    ensures forall j :: 0 <= j < |el.children| ==> TextBlock(el.children[j]) == Ok(n.children[j])
  {
    MapAllShape(el.children, TextBlock, n.children);
  }

  /** A table holds one row per row element of its body, in order. */
  lemma TableShape(el: Element, n: Node)
    requires Table(el) == Ok(n)
    ensures |el.children| > 0 && n.kind == TABLE && |n.children| == |el.children[0].children|
    ensures forall i :: 0 <= i < |n.children| ==> Row(el.children[0].children[i]) == Ok(n.children[i])
  {
    MapAllShape(el.children[0].children, Row, n.children);
  }

  /** A table fails exactly when it has no body or one of its blocks fails. */
  lemma TableFails(el: Element)
    ensures Table(el).Fail? <==>
      |el.children| == 0 ||
      exists i, j :: 0 <= i < |el.children[0].children| && 0 <= j < |el.children[0].children[i].children|
                     && TextBlock(el.children[0].children[i].children[j]).Fail?
  {
    if |el.children| > 0 {
      var rows := el.children[0].children;
      MapAllFailure(rows, Row);
      forall i | 0 <= i < |rows|
        ensures Row(rows[i]).Fail? <==> exists j :: 0 <= j < |rows[i].children| && TextBlock(rows[i].children[j]).Fail?
      {
        MapAllFailure(rows[i].children, TextBlock);
      }
    }
  }

  /** `Kept` keeps exactly the `p` and `table` elements. */
  lemma {:induction false} KeptExactly(cs: seq<Element>)
    ensures forall c :: c in Kept(cs) <==> c in cs && IsKept(c)
  {
    if cs != [] {
      var init := cs[..|cs| - 1];
      KeptExactly(init);
      assert cs == init + [cs[|cs| - 1]];
    }
  }

  lemma KeptSnoc(xs: seq<Element>, x: Element)
    ensures Kept(xs + [x]) == Kept(xs) + (if IsKept(x) then [x] else [])
  {
    DropLast(xs, x);
  }

  /** Filtering the kept children again changes nothing. */
  lemma {:induction false} KeptIdempotent(cs: seq<Element>)
    ensures Kept(Kept(cs)) == Kept(cs)
  {
    if cs != [] {
      var init, last := cs[..|cs| - 1], cs[|cs| - 1];
      KeptIdempotent(init);
      assert Kept(cs) == Kept(init) + (if IsKept(last) then [last] else []);
      if IsKept(last) {
        KeptSnoc(Kept(init), last);
        assert Kept(Kept(cs)) == Kept(Kept(init)) + [last];
      } else {
        assert Kept(cs) == Kept(init);
      }
    }
  }

  /** A child that parses is a P block or a TABLE. */
  lemma PageChildKind(c: Element, n: Node)
    requires PageChild(c) == Ok(n)
    ensures n.kind == (if c.name == PARA then P else TABLE)
  {
  }

  /** The page size reaches every node through processing too. */
  lemma {:induction false} ProcessedKeepsDims(n: Node, w: Dim, h: Dim)
    requires AllDims(n, w, h)
    ensures AllDims(Processed(n), w, h)
    decreases n
  {
    var cs := ProcessedChildren(n);
    forall i | 0 <= i < |cs| ensures AllDims(cs[i], w, h) {
      ProcessedKeepsDims(n.children[i], w, h);
    }
  }

  /**
   * Passing the size down and processing works child by child, and keeps
   * the kind of the node and of every child.
   */
  lemma {:induction false} FinishKeepsKinds(m: Node, w: Dim, h: Dim)
    ensures var n := Processed(WithPageDim(m, w, h));
      n.kind == m.kind && |n.children| == |m.children| &&
      forall k :: 0 <= k < |m.children| ==>
        n.children[k] == Processed(WithPageDim(m.children[k], w, h)) && n.children[k].kind == m.children[k].kind
  {
    var d := WithPageDim(m, w, h);
    var n := Processed(d);
    forall k | 0 <= k < |m.children| ensures n.children[k].kind == m.children[k].kind {
      assert d.children[k] == WithPageDim(m.children[k], w, h);
      assert n.children[k] == Processed(d.children[k]);
    }
  }

  /** Passing the size down and processing puts the size on every node. */
  lemma FinishSetsDims(m: Node, w: Dim, h: Dim)
    ensures AllDims(Processed(WithPageDim(m, w, h)), w, h)
  {
    PassPageDimReachesAll(m, w, h);
    ProcessedKeepsDims(WithPageDim(m, w, h), w, h);
  }

  /**
   * A parsed page holds one block per `p` or `table` child, in order and of
   * the matching kind, each that child's parsed block with the page's size
   * passed down and processed; every node of it carries the page's size.
   */
  lemma PageShape(el: Element, n: Node)
    requires Page(el) == Ok(n)
    ensures el.name == PAGE_TAG && el.attrs.pageNum.Some? && el.attrs.page.Some?
    ensures n.kind == PAGE && |n.children| == |Kept(el.children)|
    ensures forall k :: 0 <= k < |n.children| ==>
              n.children[k].kind == (if Kept(el.children)[k].name == PARA then P else TABLE)
    ensures forall k :: 0 <= k < |n.children| ==>
              && PageChild(Kept(el.children)[k]).Ok?
              && n.children[k] == Processed(WithPageDim(PageChild(Kept(el.children)[k]).value,
                                                        el.attrs.page.value.0, el.attrs.page.value.1))
    ensures AllDims(n, el.attrs.page.value.0, el.attrs.page.value.1)
  {
    var ks := Kept(el.children);
    var bs := MapAll(ks, PageChild).value;
    MapAllShape(ks, PageChild, bs);
    var m := Initial(PAGE, el.attrs).(children := bs);
    var (w, h) := el.attrs.page.value;
    assert n == Processed(WithPageDim(m, w, h));
    FinishKeepsKinds(m, w, h);
    FinishSetsDims(m, w, h);
    forall k | 0 <= k < |bs| ensures bs[k].kind == (if ks[k].name == PARA then P else TABLE) {
      PageChildKind(ks[k], bs[k]);
    }
  }

  /**
   * A page fails exactly on a wrong tag, an unreadable page number or size,
   * or a failing block; the wrong tag fails the assertion, the unreadable
   * attribute is a KeyError or ValueError.
   */
  lemma PageFails(el: Element)
    ensures Page(el).Fail? <==>
      el.name != PAGE_TAG || el.attrs.pageNum.None? || el.attrs.page.None? ||
      exists k :: 0 <= k < |Kept(el.children)| && PageChild(Kept(el.children)[k]).Fail?
    ensures el.name != PAGE_TAG ==> Page(el) == Fail(AssertionFailed)
    ensures el.name == PAGE_TAG && (el.attrs.pageNum.None? || el.attrs.page.None?) ==> Page(el) == Fail(BadAttribute)
  {
    var ks := Kept(el.children);
    MapAllFailure(ks, PageChild);
    if el.name == PAGE_TAG && el.attrs.pageNum.Some? && el.attrs.page.Some? {
      assert Page(el).Fail? <==> MapAll(ks, PageChild).Fail?;
    }
  }

  /** Children other than `p` and `table` do not change the parsed page. */
  lemma PageIgnoresOtherChildren(el: Element)
    ensures Page(el) == Page(el.(children := Kept(el.children)))
  {
    KeptIdempotent(el.children);
  }

  // ---------------------------------------------------------------------
  // The parser as written: objects linked with `add_child`
  // ---------------------------------------------------------------------

  /**
   * The objects of `parse_text_block` hold the builder `b`: the block is
   * `top` with the closed lines, `current_line` and `current_word` hold the
   * open line and word, and the three own disjoint subtrees.
   */
  ghost predicate Building(textblock: Abby, line: Abby, word: Abby, top: Node, b: Builder)
    reads textblock, line, word, textblock.Repr, line.Repr, word.Repr
  {
    && textblock.Valid() && line.Valid() && word.Valid()
    && textblock.Repr !! line.Repr && textblock.Repr !! word.Repr && line.Repr !! word.Repr
    && textblock.model == top.(children := b.lines)
    && line.model == LineOf(b.line) && word.model == WordOf(b.word)
  }

  /** Line break: the word goes into the line, the line into the block; both start afresh. */
  method BreakLine(textblock: Abby, line: Abby, word: Abby, ghost top: Node, ghost b: Builder)
    returns (line2: Abby, word2: Abby)
    requires Building(textblock, line, word, top, b)
    modifies textblock, line
    ensures Building(textblock, line2, word2, top, Builder(b.lines + [LineOf(b.line + [WordOf(b.word)])], [], []))
    ensures fresh(textblock.Repr + line2.Repr + word2.Repr - old(textblock.Repr + line.Repr + word.Repr))
  {
    line.AddChild(word);
    textblock.AddChild(line);
    word2 := new Abby(WORD, NO_ATTRS);
    line2 := new Abby(LINE, NO_ATTRS);
  }

  /** Separator: the word goes into the line and a new word starts. */
  method EndWord(textblock: Abby, line: Abby, word: Abby, ghost top: Node, ghost b: Builder)
    returns (word2: Abby)
    requires Building(textblock, line, word, top, b)
    modifies line
    ensures Building(textblock, line, word2, top, Builder(b.lines, b.line + [WordOf(b.word)], []))
    ensures fresh(textblock.Repr + line.Repr + word2.Repr - old(textblock.Repr + line.Repr + word.Repr))
  {
    line.AddChild(word);
    word2 := new Abby(WORD, NO_ATTRS);
  }

  /** Character: a new CHAR goes into the word. */
  method AddChar(textblock: Abby, line: Abby, word: Abby, ghost top: Node, ghost b: Builder, e: Element)
    requires Building(textblock, line, word, top, b)
    modifies word
    ensures Building(textblock, line, word, top, Builder(b.lines, b.line, b.word + [CharOf(e)]))
    ensures fresh(textblock.Repr + line.Repr + word.Repr - old(textblock.Repr + line.Repr + word.Repr))
  {
    var c := new Abby(CHAR, e.attrs.(text := e.text));
    word.AddChild(c);
  }

  /** The three objects `parse_text_block` starts with: the block, an empty line and an empty word. */
  method StartBlock(attrs: Attrs) returns (textblock: Abby, line: Abby, word: Abby)
    ensures Building(textblock, line, word, Initial(P, attrs), START)
    ensures fresh(textblock.Repr + line.Repr + word.Repr)
  {
    textblock := new Abby(P, attrs);
    word := new Abby(WORD, NO_ATTRS);
    line := new Abby(LINE, NO_ATTRS);
  }

  /** One element of the loop, on the objects: the step `Step` takes on the builder. */
  method Advance(textblock: Abby, line: Abby, word: Abby, ghost top: Node, ghost b: Builder, e: Element)
    returns (line2: Abby, word2: Abby)
    requires Building(textblock, line, word, top, b) && !IsUnknown(e)
    modifies textblock, line, word
    ensures Step(b, e).Ok? && Building(textblock, line2, word2, top, Step(b, e).value)
    ensures fresh(textblock.Repr + line2.Repr + word2.Repr - old(textblock.Repr + line.Repr + word.Repr))
  {
    if e.name == BR {
      line2, word2 := BreakLine(textblock, line, word, top, b);
    } else if e.text == " " || e.text == "\n" {
      line2 := line;
      word2 := EndWord(textblock, line, word, top, b);
    } else {
      line2, word2 := line, word;
      AddChar(textblock, line, word, top, b, e);
    }
  }

  /**
   * `parse_text_block`: `current_word` collects characters, `current_line`
   * collects words, the block collects lines; the result is the block of
   * `TextBlock`, built from fresh objects.
   */
  method ParseTextBlock(el: Element) returns (r: Result<Abby>)
    ensures r.Fail? <==> TextBlock(el).Fail?
    ensures r.Fail? ==> TextBlock(el) == Fail(r.error)
    ensures r.Ok? ==> r.value.Valid() && fresh(r.value.Repr) && r.value.model == TextBlock(el).value
  {
    if el.name == PARA && el.blocktype.None? {
      return Fail(BadAttribute);
    }
    if !((el.name == PARA && el.blocktype == Some(TEXT_BLOCKTYPE)) || el.name == CELL) {
      return Fail(AssertionFailed);
    }
    var textblock, line, word := StartBlock(el.attrs);
    ghost var top := Initial(P, el.attrs);
    var els := el.children;
    ghost var b := START;
    for i := 0 to |els|
      invariant Scan(els[..i]) == Ok(b)
      invariant Building(textblock, line, word, top, b)
      invariant fresh(textblock.Repr + line.Repr + word.Repr)
    {
      var e := els[i];
      ScanStep(els, i);
      if IsUnknown(e) {
        ScanFailureSticks(els, i + 1);
        return Fail(CannotParse);
      }
      line, word := Advance(textblock, line, word, top, b, e);
      b := Step(b, e).value;
    }
    assert els[..|els|] == els;
    return Ok(textblock);
  }

  /** The inner loop of `parse_table`: a T_ROW holding the row's text blocks in order. */
  method ParseRow(el: Element) returns (r: Result<Abby>)
    ensures r.Fail? <==> Row(el).Fail?
    ensures r.Fail? ==> Row(el) == Fail(r.error)
    ensures r.Ok? ==> r.value.Valid() && fresh(r.value.Repr) && r.value.model == Row(el).value
  {
    var row := new Abby(T_ROW, NO_ATTRS);
    ghost var blocks: seq<Node> := [];
    for j := 0 to |el.children|
      invariant row.Valid() && fresh(row.Repr)
      invariant MapAll(el.children[..j], TextBlock) == Ok(blocks)
      invariant row.model == Initial(T_ROW, NO_ATTRS).(children := blocks)
    {
      var block := ParseTextBlock(el.children[j]);
      MapAllStep(el.children, j, TextBlock, blocks);
      if block.Fail? {
        return Fail(block.error);
      }
      row.AddChild(block.value);
      blocks := blocks + [block.value.model];
    }
    assert el.children[..|el.children|] == el.children;
    return Ok(row);
  }

  /** `parse_table`: a TABLE holding one row per row element of the table's body. */
  method ParseTable(el: Element) returns (r: Result<Abby>)
    ensures r.Fail? <==> Table(el).Fail?
    ensures r.Fail? ==> Table(el) == Fail(r.error)
    ensures r.Ok? ==> r.value.Valid() && fresh(r.value.Repr) && r.value.model == Table(el).value
  {
    if |el.children| == 0 {
      return Fail(IndexError);
    }
    var body := el.children[0];
    var table := new Abby(TABLE, NO_ATTRS);
    ghost var rows: seq<Node> := [];
    for i := 0 to |body.children|
      invariant table.Valid() && fresh(table.Repr)
      invariant MapAll(body.children[..i], Row) == Ok(rows)
      invariant table.model == Initial(TABLE, NO_ATTRS).(children := rows)
    {
      var row := ParseRow(body.children[i]);
      MapAllStep(body.children, i, Row, rows);
      if row.Fail? {
        return Fail(row.error);
      }
      table.AddChild(row.value);
      rows := rows + [row.value.model];
    }
    assert body.children[..|body.children|] == body.children;
    return Ok(table);
  }

  lemma {:induction false} KeptAppend(xs: seq<Element>, ys: seq<Element>)
    ensures Kept(xs + ys) == Kept(xs) + Kept(ys)
    decreases |ys|
  {
    if ys == [] {
      assert xs + ys == xs;
    } else {
      var init, last := ys[..|ys| - 1], ys[|ys| - 1];
      assert xs + ys == (xs + init) + [last];
      KeptSnoc(xs + init, last);
      KeptSnoc(init, last);
      assert ys == init + [last];
      KeptAppend(xs, init);
    }
  }

  /** The kept children among the first `i + 1`. */
  lemma KeptStep(cs: seq<Element>, i: nat)
    requires i < |cs|
    ensures Kept(cs[..i + 1]) == Kept(cs[..i]) + (if IsKept(cs[i]) then [cs[i]] else [])
  {
    TakeSnoc(cs, i);
    KeptSnoc(cs[..i], cs[i]);
  }

  /** The kept children of a list split at `n`. */
  lemma KeptSplit(cs: seq<Element>, n: nat)
    requires n <= |cs|
    ensures Kept(cs) == Kept(cs[..n]) + Kept(cs[n..])
  {
    assert cs == cs[..n] + cs[n..];
    KeptAppend(cs[..n], cs[n..]);
  }

  /** One `p` or `table` child of a page, parsed and added as the page's last block. */
  method AddBlock(page: Abby, c: Element) returns (r: Result<bool>)
    requires page.Valid() && IsKept(c)
    modifies page
    ensures r.Fail? <==> PageChild(c).Fail?
    ensures r.Fail? ==> PageChild(c) == Fail(r.error)
    ensures r.Ok? ==> page.Valid() && fresh(page.Repr - old(page.Repr))
    ensures r.Ok? ==> page.model == old(page.model).(children := old(page.model).children + [PageChild(c).value])
  {
    var block;
    if c.name == PARA {
      block := ParseTextBlock(c);
    } else {
      block := ParseTable(c);
    }
    if block.Fail? {
      return Fail(block.error);
    }
    page.AddChild(block.value);
    return Ok(true);
  }

  /** What one more child does to the results for the kept children so far, `f` being applied to each. */
  lemma KeptMapStep(cs: seq<Element>, i: nat, f: Element -> Result<Node>, blocks: seq<Node>)
    requires i < |cs| && MapAll(Kept(cs[..i]), f) == Ok(blocks)
    ensures !IsKept(cs[i]) ==> MapAll(Kept(cs[..i + 1]), f) == Ok(blocks)
    ensures IsKept(cs[i]) ==>
              MapAll(Kept(cs[..i + 1]), f) ==
              match f(cs[i]) case Fail(e) => Fail(e) case Ok(y) => Ok(blocks + [y])
  {
    KeptStep(cs, i);
    if IsKept(cs[i]) {
      MapAllSnoc(Kept(cs[..i]), cs[i], f);
    } else {
      assert Kept(cs[..i + 1]) == Kept(cs[..i]);
    }
  }

  /** Once a kept child has failed, the children after it do not change the outcome. */
  lemma KeptMapFailureSticks(cs: seq<Element>, n: nat, f: Element -> Result<Node>)
    requires n <= |cs| && MapAll(Kept(cs[..n]), f).Fail?
    ensures MapAll(Kept(cs), f) == MapAll(Kept(cs[..n]), f)
  {
    KeptSplit(cs, n);
    MapAllFailurePrefix(Kept(cs[..n]), Kept(cs[n..]), f);
  }

  /** One turn of the loop of `parse_page`: child `i` is parsed and added when it is a `p` or a `table`. */
  method BlockStep(page: Abby, cs: seq<Element>, i: nat, ghost m: Node, ghost blocks: seq<Node>)
    returns (r: Result<bool>, ghost blocks': seq<Node>)
    requires i < |cs| && page.Valid()
    requires MapAll(Kept(cs[..i]), PageChild) == Ok(blocks) && page.model == m.(children := blocks)
    modifies page
    ensures r.Fail? ==> MapAll(Kept(cs), PageChild) == Fail(r.error)
    ensures r.Ok? ==> page.Valid() && fresh(page.Repr - old(page.Repr))
    ensures r.Ok? ==> MapAll(Kept(cs[..i + 1]), PageChild) == Ok(blocks') && page.model == m.(children := blocks')
  {
    var c := cs[i];
    KeptMapStep(cs, i, PageChild, blocks);
    blocks' := blocks;
    if c.name == PARA || c.name == TABLE_TAG {
      r := AddBlock(page, c);
      if r.Fail? {
        KeptMapFailureSticks(cs, i + 1, PageChild);
        return;
      }
      blocks' := blocks + [PageChild(c).value];
    } else {
      r := Ok(true);
    }
  }

  /** The loop of `parse_page` over the page's children: only `p` and `table` are parsed. */
  method ParseBlocks(page: Abby, cs: seq<Element>) returns (r: Result<bool>)
    requires page.Valid() && page.model.children == []
    modifies page
    ensures r.Fail? <==> MapAll(Kept(cs), PageChild).Fail?
    ensures r.Fail? ==> MapAll(Kept(cs), PageChild) == Fail(r.error)
    ensures r.Ok? ==> page.Valid() && fresh(page.Repr - old(page.Repr))
    ensures r.Ok? ==> page.model == old(page.model).(children := MapAll(Kept(cs), PageChild).value)
  {
    ghost var blocks: seq<Node> := [];
    for i := 0 to |cs|
      invariant page.Valid() && fresh(page.Repr - old(page.Repr))
      invariant MapAll(Kept(cs[..i]), PageChild) == Ok(blocks)
      invariant page.model == old(page.model).(children := blocks)
    {
      var step;
      step, blocks := BlockStep(page, cs, i, old(page.model), blocks);
      if step.Fail? {
        return Fail(step.error);
      }
    }
    assert cs[..|cs|] == cs;
    return Ok(true);
  }

  /** `parse_page`: the page of `Page`, built, sized and processed in place. */
  method ParsePage(el: Element) returns (r: Result<Abby>)
    ensures r.Fail? <==> Page(el).Fail?
    ensures r.Fail? ==> Page(el) == Fail(r.error)
    ensures r.Ok? ==> r.value.Valid() && fresh(r.value.Repr) && r.value.model == Page(el).value
  {
    if el.name != PAGE_TAG {
      return Fail(AssertionFailed);
    }
    if el.attrs.pageNum.None? || el.attrs.page.None? {
      return Fail(BadAttribute);
    }
    var page := new Abby(PAGE, el.attrs);
    var blocks := ParseBlocks(page, el.children);
    if blocks.Fail? {
      return Fail(blocks.error);
    }
    page.PassPageDim(page.pageWidth, page.pageHeight);
    page.Process();
    return Ok(page);
  }

  /** `AbbyParser.parse_pages`: the pages in order; the first failure aborts. */
  method ParsePages(pages: seq<Element>) returns (r: Result<seq<Abby>>)
    ensures r.Fail? <==> Pages(pages).Fail?
    ensures r.Fail? ==> Pages(pages) == Fail(r.error)
    ensures r.Ok? ==> |r.value| == |Pages(pages).value| == |pages|
    ensures r.Ok? ==> forall k :: 0 <= k < |pages| ==>
              r.value[k].Valid() && r.value[k].model == Pages(pages).value[k]
  {
    var parsed: seq<Abby> := [];
    ghost var models: seq<Node> := [];
    for i := 0 to |pages|
      invariant MapAll(pages[..i], Page) == Ok(models)
      invariant |parsed| == |models| == i
      invariant forall k :: 0 <= k < i ==> parsed[k].Valid() && parsed[k].model == models[k]
    {
      var page := ParsePage(pages[i]);
      MapAllStep(pages, i, Page, models);
      if page.Fail? {
        return Fail(page.error);
      }
      parsed := parsed + [page.value];
      models := models + [page.value.model];
    }
    assert pages[..|pages|] == pages;
    MapAllShape(pages, Page, models);
    return Ok(parsed);
  }
}
