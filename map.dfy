/**
 * The scoring engine (`Map`): pairs each reference (ABBYY) word with the
 * overlapping Tesseract word of highest IOU, then tallies a page report.
 * It only reads the two trees, so it works on their values: `Node`
 * snapshots of processed `Abby` pages and `Tess` trees.
 */
module Map {
  import opened Utils
  import opened Geometry
  import AbbyTree
  import TessTree

  type Node = AbbyTree.Node
  type Tess = TessTree.Tess

  /** `Abby.get_bounds` and `Tess.get_bounds`. */
  function ABox(a: Node): Box { AbbyTree.Bounds(a) }
  function TBox(t: Tess): Box { TessTree.Bounds(t) }

  /** `get_IOU(a_word_bounds, t_word_bounds)`. */
  function IouWith(a: Node, t: Tess): Result<real> { GetIOU(ABox(a), TBox(t)) }

  // ---------------------------------------------------------------------
  // `filter_word`
  // ---------------------------------------------------------------------

  /** The state of `filter_word`'s loop: the position of `t_word_top` and `current_highest_IOU`. */
  datatype Choice = Choice(index: nat, iou: real)

  /**
   * `filter_word`'s running maximum over the first `n` candidates: it
   * starts at candidate 0 with IOU 0.0 and moves only on a strictly larger
   * IOU; the first IOU that cannot be computed aborts it.
   */
  function Best(a: Node, ts: seq<Tess>, n: nat): (r: Result<Choice>)
    requires n <= |ts|
    ensures r.Ok? ==> r.value.index == 0 || r.value.index < n
  {
    if n == 0 then Ok(Choice(0, 0.0))
    else
      match Best(a, ts, n - 1)
      case Fail(e) => Fail(e)
      case Ok(c) =>
        match IouWith(a, ts[n - 1])
        case Fail(e) => Fail(e)
        case Ok(v) => if v > c.iou then Ok(Choice(n - 1, v)) else Ok(c)
  }

  /** `filter_word`: the best candidate and its IOU; `t_words[0]` fails on no candidates. */
  function Filter(a: Node, ts: seq<Tess>): Result<(Tess, real)>
  {
    if ts == [] then Fail(IndexError)
    else
      match Best(a, ts, |ts|)
      case Fail(e) => Fail(e)
      case Ok(c) => Ok((ts[c.index], c.iou))
  }

  /** Once the running maximum has failed, later candidates keep the same failure. */
  lemma {:induction false} BestFailureSticks(a: Node, ts: seq<Tess>, n: nat, m: nat)
    requires n <= m <= |ts| && Best(a, ts, n).Fail?
    ensures Best(a, ts, m) == Best(a, ts, n)
    decreases m - n
  {
    if n < m {
      BestFailureSticks(a, ts, n, m - 1);
    }
  }

  /** The running maximum fails exactly when some candidate's IOU cannot be computed. */
  lemma {:induction false} BestFailsIff(a: Node, ts: seq<Tess>, n: nat)
    requires n <= |ts|
    ensures Best(a, ts, n).Fail? <==> exists j :: 0 <= j < n && IouWith(a, ts[j]).Fail?
  {
    if n > 0 {
      BestFailsIff(a, ts, n - 1);
      if Best(a, ts, n).Fail? && Best(a, ts, n - 1).Ok? {
        assert IouWith(a, ts[n - 1]).Fail?;
      }
    }
  }

  /**
   * The choice is a maximum of the candidates' IOUs, never negative, and
   * the FIRST candidate attaining it; when no IOU is positive it stays on
   * candidate 0 with IOU 0.0.
   */
  lemma {:induction false} BestIsFirstMax(a: Node, ts: seq<Tess>, n: nat)
    requires n <= |ts| && Best(a, ts, n).Ok?
    ensures var c := Best(a, ts, n).value;
      && 0.0 <= c.iou
      && (forall j :: 0 <= j < n ==> IouWith(a, ts[j]).Ok? && IouWith(a, ts[j]).value <= c.iou)
      && (c.iou == 0.0 ==> c.index == 0)
      && (c.iou > 0.0 ==> c.index < n && IouWith(a, ts[c.index]) == Ok(c.iou))
      && (forall j :: 0 <= j < c.index ==> IouWith(a, ts[j]).value < c.iou)
  {
    if n > 0 {
      BestIsFirstMax(a, ts, n - 1);
    }
  }

  /**
   * What `filter_word` returns: a candidate of the list, whose IOU no
   * other candidate exceeds; with no positive IOU, the first candidate and 0.0.
   */
  lemma FilterPicksBest(a: Node, ts: seq<Tess>)
    requires Filter(a, ts).Ok?
    ensures var (t, v) := Filter(a, ts).value;
      && t in ts && 0.0 <= v
      && (forall u :: u in ts ==> IouWith(a, u).Ok? && IouWith(a, u).value <= v)
      && (v == 0.0 ==> t == ts[0])
      && (v > 0.0 ==> IouWith(a, t) == Ok(v))
  {
    BestIsFirstMax(a, ts, |ts|);
    forall u | u in ts ensures IouWith(a, u).Ok? && IouWith(a, u).value <= Filter(a, ts).value.1 {
      var j :| 0 <= j < |ts| && ts[j] == u;
    }
  }

  /** On well-formed boxes `filter_word` always succeeds on a non-empty list, with an IOU in [0, 1]. */
  lemma FilterWellFormed(a: Node, ts: seq<Tess>)
    requires ts != [] && WellFormed(ABox(a))
    requires forall t :: t in ts ==> WellFormed(TBox(t))
    ensures Filter(a, ts).Ok?
    ensures 0.0 <= Filter(a, ts).value.1 <= 1.0
  {
    BestFailsIff(a, ts, |ts|);
    assert Best(a, ts, |ts|).Ok?;
    FilterPicksBest(a, ts);
  }

  /** `filter_word`, loop and all. */
  method FilterWord(aWord: Node, tWords: seq<Tess>) returns (r: Result<(Tess, real)>)
    ensures r == Filter(aWord, tWords)
  {
    if |tWords| == 0 {
      return Fail(IndexError);
    }
    var aBox := ABox(aWord);
    var highest := 0.0;
    var top := tWords[0];
    ghost var index := 0;
    var i := 0;
    while i < |tWords|
      invariant 0 <= i <= |tWords|
      invariant Best(aWord, tWords, i) == Ok(Choice(index, highest))
      invariant index < |tWords| && top == tWords[index]
    {
      var iou := GetIOU(aBox, TBox(tWords[i]));
      if iou.Fail? {
        BestFailureSticks(aWord, tWords, i + 1, |tWords|);
        return Fail(iou.error);
      }
      if iou.value > highest {
        highest, top, index := iou.value, tWords[i], i;
      }
      i := i + 1;
    }
    return Ok((top, highest));
  }

  // ---------------------------------------------------------------------
  // `pair_words`
  // ---------------------------------------------------------------------

  /** `overlap(a_word, t_word)`. */
  predicate Overlaps(a: Node, t: Tess) { Overlap(ABox(a), TBox(t)) }

  /** The candidates `pair_words` collects for `a`: the overlapping words, in order. */
  function Candidates(a: Node, ts: seq<Tess>): seq<Tess>
  {
    if ts == [] then []
    else
      var last := ts[|ts| - 1];
      Candidates(a, ts[..|ts| - 1]) + if Overlaps(a, last) then [last] else []
  }

  /** The candidates are exactly the words of `ts` that overlap `a`. */
  lemma {:induction false} CandidatesExactly(a: Node, ts: seq<Tess>, t: Tess)
    ensures t in Candidates(a, ts) <==> t in ts && Overlaps(a, t)
  {
    if ts != [] {
      var last := ts[|ts| - 1];
      CandidatesExactly(a, ts[..|ts| - 1], t);
      assert ts == ts[..|ts| - 1] + [last];
    }
  }

  /** `a` gets an entry in `paired` exactly when some word of `ts` overlaps it. */
  lemma CandidatesNonEmpty(a: Node, ts: seq<Tess>)
    ensures Candidates(a, ts) != [] <==> exists t :: t in ts && Overlaps(a, t)
  {
    if exists t :: t in ts && Overlaps(a, t) {
      var t :| t in ts && Overlaps(a, t);
      CandidatesExactly(a, ts, t);
    }
    if Candidates(a, ts) != [] {
      CandidatesExactly(a, ts, Candidates(a, ts)[0]);
    }
  }

  /** An entry of `paired`: the position of a reference word, the word, its candidates. */
  datatype Entry = Entry(key: nat, ref: Node, cands: seq<Tess>)

  /** A result of `pair_words`: the reference word at `key` with its chosen word and IOU. */
  datatype Pairing = Pairing(key: nat, ref: Node, cand: Tess, iou: real)

  /**
   * `paired` after the first `n` reference words: an entry for each word
   * with at least one overlapping candidate, in the order of `refs`.
   */
  function Pending(refs: seq<Node>, ts: seq<Tess>, n: nat): seq<Entry>
    requires n <= |refs|
  {
    if n == 0 then []
    else
      var cs := Candidates(refs[n - 1], ts);
      Pending(refs, ts, n - 1) + if cs == [] then [] else [Entry(n - 1, refs[n - 1], cs)]
  }

  /** `filter_word` on one entry of `paired`: the entry of `single_paired`. */
  function ChooseOne(e: Entry): Result<Pairing>
  {
    match Filter(e.ref, e.cands)
    case Fail(err) => Fail(err)
    case Ok((t, v)) => Ok(Pairing(e.key, e.ref, t, v))
  }

  /** `single_paired`: `filter_word` on each entry in turn; the first failure aborts. */
  function Choose(es: seq<Entry>): Result<seq<Pairing>>
  {
    MapAll(es, ChooseOne)
  }

  /** What `pair_words(a_words, t_words)` returns. */
  function PairsOf(refs: seq<Node>, ts: seq<Tess>): Result<seq<Pairing>>
  {
    Choose(Pending(refs, ts, |refs|))
  }

  /** Each entry holds a word below `n` with its own non-empty candidates. */
  lemma {:induction false} PendingEntries(refs: seq<Node>, ts: seq<Tess>, n: nat)
    requires n <= |refs|
    ensures forall e :: e in Pending(refs, ts, n) ==>
      && e.key < n && e.ref == refs[e.key]
      && e.cands == Candidates(refs[e.key], ts) && e.cands != []
  {
    if n > 0 {
      PendingEntries(refs, ts, n - 1);
      var es0 := Pending(refs, ts, n - 1);
      var cs := Candidates(refs[n - 1], ts);
      var last: seq<Entry> := if cs == [] then [] else [Entry(n - 1, refs[n - 1], cs)];
      assert Pending(refs, ts, n) == es0 + last;
      forall e: Entry | e in es0 + last
        ensures e.key < n && e.ref == refs[e.key] && e.cands == Candidates(refs[e.key], ts) && e.cands != []
      {
        if e !in es0 {
          assert e in last;
        }
      }
    }
  }

  predicate KeysIncreasing(es: seq<Entry>) {
    forall k, k' :: 0 <= k < k' < |es| ==> es[k].key < es[k'].key
  }

  /** Every key is below `n`. */
  lemma {:induction false} PendingKeysBelow(refs: seq<Node>, ts: seq<Tess>, n: nat)
    requires n <= |refs|
    ensures forall e :: e in Pending(refs, ts, n) ==> e.key < n
  {
    if n > 0 {
      PendingKeysBelow(refs, ts, n - 1);
      var es0 := Pending(refs, ts, n - 1);
      var cs := Candidates(refs[n - 1], ts);
      var last: seq<Entry> := if cs == [] then [] else [Entry(n - 1, refs[n - 1], cs)];
      assert Pending(refs, ts, n) == es0 + last;
      forall e: Entry | e in es0 + last ensures e.key < n {
        if e !in es0 {
          assert e in last;
        }
      }
    }
  }

  /** The keys of the entries are strictly increasing. */
  lemma {:induction false} PendingSorted(refs: seq<Node>, ts: seq<Tess>, n: nat)
    requires n <= |refs|
    ensures KeysIncreasing(Pending(refs, ts, n))
  {
    if n > 0 {
      PendingSorted(refs, ts, n - 1);
      PendingKeysBelow(refs, ts, n - 1);
      var es0 := Pending(refs, ts, n - 1);
      var cs := Candidates(refs[n - 1], ts);
      var last: seq<Entry> := if cs == [] then [] else [Entry(n - 1, refs[n - 1], cs)];
      assert Pending(refs, ts, n) == es0 + last;
      SortedAppend(es0, last, n - 1);
    }
  }

  /** Appending at most one entry, keyed above every key so far, keeps the keys increasing. */
  lemma SortedAppend(es: seq<Entry>, last: seq<Entry>, k: nat)
    requires KeysIncreasing(es) && forall x :: x in es ==> x.key < k
    requires |last| <= 1 && forall x :: x in last ==> x.key == k
    ensures KeysIncreasing(es + last)
  {
    if last != [] {
      SortedSnoc(es, last[0]);
      assert last == [last[0]];
    } else {
      assert es + last == es;
    }
  }

  /** Appending an entry whose key exceeds every key keeps the keys increasing. */
  lemma SortedSnoc(es: seq<Entry>, e: Entry)
    requires KeysIncreasing(es)
    requires forall x :: x in es ==> x.key < e.key
    ensures KeysIncreasing(es + [e])
  {
    var es' := es + [e];
    forall k, k' | 0 <= k < k' < |es'| ensures es'[k].key < es'[k'].key {
      assert es'[k] == es[k] && es[k] in es;
    }
  }

  /** A word has an entry exactly when one of the candidates overlaps it. */
  lemma {:induction false} PendingCovers(refs: seq<Node>, ts: seq<Tess>, n: nat, i: nat)
    requires i < n <= |refs|
    ensures Candidates(refs[i], ts) != [] <==> exists e :: e in Pending(refs, ts, n) && e.key == i
  {
    var es0 := Pending(refs, ts, n - 1);
    var cs := Candidates(refs[n - 1], ts);
    var e' := Entry(n - 1, refs[n - 1], cs);
    var es := Pending(refs, ts, n);
    assert es == es0 + if cs == [] then [] else [e'];
    PendingKeysBelow(refs, ts, n - 1);
    if i < n - 1 {
      PendingCovers(refs, ts, n - 1, i);
      if exists e :: e in es && e.key == i {
        var e :| e in es && e.key == i;
        assert e in es0;
      }
    } else if cs != [] {
      assert e' in es;
    }
  }


  /** Choosing keeps one pairing per entry, in order, each `filter_word` of its entry. */
  lemma ChooseShape(es: seq<Entry>, ps: seq<Pairing>)
    requires Choose(es) == Ok(ps)
    ensures |ps| == |es|
    ensures forall k :: 0 <= k < |es| ==>
      && ps[k].key == es[k].key && ps[k].ref == es[k].ref
      && Filter(es[k].ref, es[k].cands) == Ok((ps[k].cand, ps[k].iou))
  {
    MapAllShape(es, ChooseOne, ps);
  }

  /**
   * What `pair_words` returns: each reference word at most once, in the
   * order of `refs`, paired under its own position.
   */
  lemma PairWordsKeys(refs: seq<Node>, ts: seq<Tess>, ps: seq<Pairing>)
    requires PairsOf(refs, ts) == Ok(ps)
    ensures forall k, k' :: 0 <= k < k' < |ps| ==> ps[k].key < ps[k'].key
    ensures forall k :: 0 <= k < |ps| ==> ps[k].key < |refs| && ps[k].ref == refs[ps[k].key]
  {
    var es := Pending(refs, ts, |refs|);
    PendingEntries(refs, ts, |refs|);
    PendingSorted(refs, ts, |refs|);
    ChooseShape(es, ps);
    assert forall k :: 0 <= k < |es| ==> es[k] in es;
  }

  /**
   * A reference word is listed by `pair_words` exactly when at least one
   * candidate overlaps it: the words overlapping nothing are left out.
   */
  lemma PairWordsCovers(refs: seq<Node>, ts: seq<Tess>, ps: seq<Pairing>, i: nat)
    requires PairsOf(refs, ts) == Ok(ps) && i < |refs|
    ensures (exists t :: t in ts && Overlaps(refs[i], t)) <==> exists k :: 0 <= k < |ps| && ps[k].key == i
  {
    var es := Pending(refs, ts, |refs|);
    ChooseShape(es, ps);
    PendingCovers(refs, ts, |refs|, i);
    CandidatesNonEmpty(refs[i], ts);
    if exists t :: t in ts && Overlaps(refs[i], t) {
      var e :| e in es && e.key == i;
      var k :| 0 <= k < |es| && es[k] == e;
      assert ps[k].key == i;
    }
    if exists k :: 0 <= k < |ps| && ps[k].key == i {
      var k :| 0 <= k < |ps| && ps[k].key == i;
      assert es[k] in es;
    }
  }

  /** Each listed word's chosen candidate overlaps it and no overlapping candidate has a larger IOU. */
  lemma PairWordsChoice(refs: seq<Node>, ts: seq<Tess>, ps: seq<Pairing>, k: nat)
    requires PairsOf(refs, ts) == Ok(ps) && k < |ps|
    ensures ps[k].cand in ts && Overlaps(ps[k].ref, ps[k].cand) && 0.0 <= ps[k].iou
    ensures forall u :: u in ts && Overlaps(ps[k].ref, u) ==>
      IouWith(ps[k].ref, u).Ok? && IouWith(ps[k].ref, u).value <= ps[k].iou
  {
    var es := Pending(refs, ts, |refs|);
    PendingEntries(refs, ts, |refs|);
    ChooseShape(es, ps);
    assert es[k] in es;
    var p := ps[k];
    FilterPicksBest(p.ref, es[k].cands);
    CandidatesExactly(p.ref, ts, p.cand);
    forall u | u in ts && Overlaps(p.ref, u)
      ensures IouWith(p.ref, u).Ok? && IouWith(p.ref, u).value <= p.iou
    {
      CandidatesExactly(p.ref, ts, u);
    }
  }

  /**
   * Nothing stops one candidate from being chosen for several reference
   * words: a lone candidate overlapping every reference word is chosen for
   * each of them.
   */
  lemma SharedCandidate(refs: seq<Node>, t: Tess, ps: seq<Pairing>, i: nat)
    requires PairsOf(refs, [t]) == Ok(ps) && i < |refs|
    requires forall j :: 0 <= j < |refs| ==> Overlaps(refs[j], t)
    ensures exists k :: 0 <= k < |ps| && ps[k].key == i && ps[k].cand == t
  {
    assert t in [t] && Overlaps(refs[i], t);
    PairWordsCovers(refs, [t], ps, i);
    var k :| 0 <= k < |ps| && ps[k].key == i;
    PairWordsChoice(refs, [t], ps, k);
    assert ps[k].cand in [t];
  }

  /** On well-formed boxes `pair_words` never fails, and every IOU lies in [0, 1]. */
  lemma PairWordsWellFormed(refs: seq<Node>, ts: seq<Tess>)
    requires forall a :: a in refs ==> WellFormed(ABox(a))
    requires forall t :: t in ts ==> WellFormed(TBox(t))
    ensures PairsOf(refs, ts).Ok?
    ensures forall p :: p in PairsOf(refs, ts).value ==> 0.0 <= p.iou <= 1.0
  {
    var es := Pending(refs, ts, |refs|);
    PendingEntries(refs, ts, |refs|);
    forall k | 0 <= k < |es| ensures ChooseOne(es[k]).Ok? && 0.0 <= ChooseOne(es[k]).value.iou <= 1.0 {
      assert es[k] in es;
      EntryWellFormed(es[k], ts);
    }
    MapAllFailure(es, ChooseOne);
    var ps := Choose(es).value;
    MapAllShape(es, ChooseOne, ps);
    forall p | p in ps ensures 0.0 <= p.iou <= 1.0 {
      var k :| 0 <= k < |ps| && ps[k] == p;
    }
  }

  lemma EntryWellFormed(e: Entry, ts: seq<Tess>)
    requires e.cands == Candidates(e.ref, ts) && e.cands != [] && WellFormed(ABox(e.ref))
    requires forall t :: t in ts ==> WellFormed(TBox(t))
    ensures ChooseOne(e).Ok? && 0.0 <= ChooseOne(e).value.iou <= 1.0
  {
    CandidatesWellFormed(e.ref, ts);
    FilterWellFormed(e.ref, e.cands);
  }


  lemma CandidatesWellFormed(a: Node, ts: seq<Tess>)
    requires forall t :: t in ts ==> WellFormed(TBox(t))
    ensures forall t :: t in Candidates(a, ts) ==> WellFormed(TBox(t))
  {
    forall t | t in Candidates(a, ts) ensures WellFormed(TBox(t)) {
      CandidatesExactly(a, ts, t);
    }
  }

  /** The inner loop of `pair_words`: the candidates overlapping `a`, in order. */
  method OverlappingWords(a: Node, ts: seq<Tess>) returns (cands: seq<Tess>)
    ensures cands == Candidates(a, ts)
  {
    cands := [];
    var j := 0;
    while j < |ts|
      invariant 0 <= j <= |ts|
      invariant cands == Candidates(a, ts[..j])
    {
      assert ts[..j + 1][..j] == ts[..j];
      if Overlaps(a, ts[j]) {
        cands := cands + [ts[j]];
      }
      j := j + 1;
    }
    assert ts[..j] == ts;
  }

  /**
   * `pair_words`, loops and all. The dictionary `paired` is the list of
   * entries in insertion order; an entry is added once its word's
   * candidates are known rather than at the first one, which leaves the
   * contents and the order of `paired` unchanged.
   */
  method PairWords(refs: seq<Node>, ts: seq<Tess>) returns (r: Result<seq<Pairing>>)
    ensures r == PairsOf(refs, ts)
  {
    var pending := CollectPending(refs, ts);
    r := ChooseAll(pending);
  }

  /** `paired` after one reference word more. */
  lemma PendingStep(refs: seq<Node>, ts: seq<Tess>, i: nat)
    requires i < |refs|
    ensures var cs := Candidates(refs[i], ts);
      Pending(refs, ts, i + 1) == Pending(refs, ts, i) + if cs == [] then [] else [Entry(i, refs[i], cs)]
  {
  }

  /** One iteration of the first loop of `pair_words`: the word's entry, if it overlaps anything. */
  method AddEntry(refs: seq<Node>, ts: seq<Tess>, i: nat, pending: seq<Entry>) returns (r: seq<Entry>)
    requires i < |refs| && pending == Pending(refs, ts, i)
    ensures r == Pending(refs, ts, i + 1)
  {
    var cands := OverlappingWords(refs[i], ts);
    PendingStep(refs, ts, i);
    r := pending;
    if cands != [] {
      r := r + [Entry(i, refs[i], cands)];
    }
  }

  /** The first loop of `pair_words`: `paired`, one entry per word with overlapping candidates. */
  method CollectPending(refs: seq<Node>, ts: seq<Tess>) returns (pending: seq<Entry>)
    ensures pending == Pending(refs, ts, |refs|)
  {
    pending := [];
    var i := 0;
    while i < |refs|
      invariant 0 <= i <= |refs|
      invariant pending == Pending(refs, ts, i)
    {
      pending := AddEntry(refs, ts, i, pending);
      i := i + 1;
    }
  }

  /** The second loop of `pair_words`: `filter_word` on each entry of `paired`, in order. */
  method ChooseAll(pending: seq<Entry>) returns (r: Result<seq<Pairing>>)
    ensures r == Choose(pending)
  {
    var ps: seq<Pairing> := [];
    var k := 0;
    while k < |pending|
      invariant 0 <= k <= |pending|
      invariant Choose(pending[..k]) == Ok(ps)
    {
      var e := pending[k];
      var chosen := FilterWord(e.ref, e.cands);
      MapAllStep(pending, k, ChooseOne, ps);
      if chosen.Fail? {
        return Fail(chosen.error);
      }
      ps := ps + [Pairing(e.key, e.ref, chosen.value.0, chosen.value.1)];
      k := k + 1;
    }
    assert pending[..k] == pending;
    return Ok(ps);
  }

  // ---------------------------------------------------------------------
  // `get_page_info`
  // ---------------------------------------------------------------------

  /** `overlap(block, a_child)`: a Tesseract block against a reference block. */
  predicate BlockOverlaps(block: Tess, aChild: Node) { Overlap(TBox(block), ABox(aChild)) }

  /** A call of `pair_words`: the words of a reference block and of an overlapping Tesseract block. */
  datatype Job = Job(refs: seq<Node>, cands: seq<Tess>)

  /** The jobs of one reference block: one per overlapping Tesseract block, in order. */
  function ChildJobs(aChild: Node, blocks: seq<Tess>): (js: seq<Job>)
    ensures |js| == |Candidates(aChild, blocks)|
  {
    var bs := Candidates(aChild, blocks);
    seq(|bs|, k requires 0 <= k < |bs| => Job(AbbyTree.Words(aChild), TessTree.Words(bs[k])))
  }

  function PageJobLists(aPage: Node, tPage: Tess): (jss: seq<seq<Job>>)
    ensures |jss| == |aPage.children|
  {
    seq(|aPage.children|, i requires 0 <= i < |aPage.children| => ChildJobs(aPage.children[i], tPage.children))
  }

  /** Every `pair_words` call of `get_page_info`, in order. */
  function PageJobs(aPage: Node, tPage: Tess): seq<Job> { Flatten(PageJobLists(aPage, tPage)) }

  function PairJob(j: Job): Result<seq<Pairing>> { PairsOf(j.refs, j.cands) }

  /** `all_paired`; the first failing `pair_words` aborts the page. */
  function AllPaired(aPage: Node, tPage: Tess): Result<seq<seq<Pairing>>>
  {
    MapAll(PageJobs(aPage, tPage), PairJob)
  }

  /** The five running totals of `get_page_info`. */
  datatype Tally = Tally(total: nat, considered: nat, below: nat, iouTotal: real, errorTotal: real)

  /**
   * Counting one pairing: every pairing adds to the total and to the IOU
   * sum; above THRESHOLD it adds `eval(t_word.text, a_word.text) / len(a_word.text)`
   * to the error sum, which fails on an empty reference text; otherwise it
   * is counted as below the threshold.
   */
  function CountPairing(t: Tally, p: Pairing, ed: (string, string) -> nat): Result<Tally>
  {
    var t' := t.(total := t.total + 1, iouTotal := t.iouTotal + p.iou);
    if p.iou > THRESHOLD then
      if |p.ref.text| == 0 then Fail(ZeroDivision)
      else Ok(t'.(considered := t.considered + 1,
                  errorTotal := t.errorTotal + (ed(p.cand.text, p.ref.text) as real) / (|p.ref.text| as real)))
    else Ok(t'.(below := t.below + 1))
  }

  /** The totals over the pairings in order. */
  function TallyOf(ps: seq<Pairing>, ed: (string, string) -> nat): Result<Tally>
  {
    if ps == [] then Ok(Tally(0, 0, 0, 0.0, 0.0))
    else
      match TallyOf(ps[..|ps| - 1], ed)
      case Fail(e) => Fail(e)
      case Ok(t) => CountPairing(t, ps[|ps| - 1], ed)
  }

  /** What `get_page_info` prints, as a value. */
  datatype PageReport = PageReport(totalWords: nat, averageIou: real, averageCer: real, belowThreshold: nat)

  /** The averages: `iou_total / total_words` and `error_rate / total_words_considered`, each failing on 0. */
  function Report(t: Tally): Result<PageReport>
  {
    if t.total == 0 || t.considered == 0 then Fail(ZeroDivision)
    else Ok(PageReport(t.total, t.iouTotal / t.total as real, t.errorTotal / t.considered as real, t.below))
  }

  /** `get_page_info(a_page, t_page)`. */
  function PageInfo(aPage: Node, tPage: Tess, ed: (string, string) -> nat): Result<PageReport>
  {
    if aPage.kind != PAGE then Fail(AssertionFailed)
    else
      match AllPaired(aPage, tPage)
      case Fail(e) => Fail(e)
      case Ok(ap) =>
        match TallyOf(Flatten(ap), ed)
        case Fail(e) => Fail(e)
        case Ok(t) => Report(t)
  }

  /** The number of pairings whose IOU is above THRESHOLD. */
  function CountAbove(ps: seq<Pairing>): nat
  {
    if ps == [] then 0 else CountAbove(ps[..|ps| - 1]) + if ps[|ps| - 1].iou > THRESHOLD then 1 else 0
  }

  function SumIou(ps: seq<Pairing>): real
  {
    if ps == [] then 0.0 else SumIou(ps[..|ps| - 1]) + ps[|ps| - 1].iou
  }

  /**
   * The character error rate of one pairing, `eval(t_word.text, a_word.text)
   * / len(a_word.text)`, when it is above THRESHOLD, and 0 otherwise (an empty
   * reference text above THRESHOLD makes tallying fail, so its 0 is never used).
   */
  function ErrorRate(p: Pairing, ed: (string, string) -> nat): real
  {
    if p.iou > THRESHOLD && |p.ref.text| > 0 then (ed(p.cand.text, p.ref.text) as real) / (|p.ref.text| as real)
    else 0.0
  }

  /** The sum of the error rates of the pairings above THRESHOLD. */
  function SumCer(ps: seq<Pairing>, ed: (string, string) -> nat): real
  {
    if ps == [] then 0.0 else SumCer(ps[..|ps| - 1], ed) + ErrorRate(ps[|ps| - 1], ed)
  }

  /**
   * The totals: every pairing is counted once, either as considered (IOU
   * above THRESHOLD) or as below the threshold; the IOU sum covers all
   * pairings and the error sum, never negative, covers those above THRESHOLD.
   */
  lemma {:induction false} TallyCounts(ps: seq<Pairing>, ed: (string, string) -> nat, t: Tally)
    requires TallyOf(ps, ed) == Ok(t)
    ensures t.total == |ps| && t.considered == CountAbove(ps) && t.below + t.considered == t.total
    ensures t.iouTotal == SumIou(ps) && t.errorTotal == SumCer(ps, ed) && 0.0 <= t.errorTotal
  {
    if ps != [] {
      TallyCounts(ps[..|ps| - 1], ed, TallyOf(ps[..|ps| - 1], ed).value);
    }
  }

  /** Tallying fails, always on a division by zero, exactly when a considered pairing has an empty reference text. */
  lemma {:induction false} TallyFailure(ps: seq<Pairing>, ed: (string, string) -> nat)
    ensures TallyOf(ps, ed).Fail? <==> exists p :: p in ps && p.iou > THRESHOLD && |p.ref.text| == 0
    ensures TallyOf(ps, ed).Fail? ==> TallyOf(ps, ed).error == ZeroDivision
  {
    if ps != [] {
      var init := ps[..|ps| - 1];
      TallyFailure(init, ed);
      assert ps == init + [ps[|ps| - 1]];
    }
  }

  /** Once a prefix fails to tally, the whole sequence fails the same way. */
  lemma {:induction false} TallyFailurePrefix(xs: seq<Pairing>, ys: seq<Pairing>, ed: (string, string) -> nat)
    requires TallyOf(xs, ed).Fail?
    ensures TallyOf(xs + ys, ed) == TallyOf(xs, ed)
    decreases |ys|
  {
    if ys == [] {
      assert xs + ys == xs;
    } else {
      var n := |ys| - 1;
      TallyFailurePrefix(xs, ys[..n], ed);
      assert (xs + ys)[..|xs + ys| - 1] == xs + ys[..n];
    }
  }

  /** With every IOU in [0, 1] the IOU sum lies between 0 and the number of pairings. */
  lemma {:induction false} SumIouBounded(ps: seq<Pairing>)
    requires forall p :: p in ps ==> 0.0 <= p.iou <= 1.0
    ensures 0.0 <= SumIou(ps) <= |ps| as real
  {
    if ps != [] {
      var init := ps[..|ps| - 1];
      assert forall p :: p in init ==> p in ps;
      SumIouBounded(init);
      assert ps[|ps| - 1] in ps;
    }
  }

  /**
   * The report of a page: the number of pairings, of which `belowThreshold`
   * are at or below THRESHOLD and at least one above it; the mean IOU over
   * all pairings; the non-negative mean error rate over those above.
   */
  lemma PageInfoReport(aPage: Node, tPage: Tess, ed: (string, string) -> nat, ap: seq<seq<Pairing>>, rep: PageReport)
    requires AllPaired(aPage, tPage) == Ok(ap) && PageInfo(aPage, tPage, ed) == Ok(rep)
    ensures var ps := Flatten(ap);
      && rep.totalWords == |ps| > 0
      && rep.belowThreshold == |ps| - CountAbove(ps)
      && CountAbove(ps) > 0
      && rep.averageIou == SumIou(ps) / |ps| as real
      && rep.averageCer == SumCer(ps, ed) / CountAbove(ps) as real
      && 0.0 <= rep.averageCer
  {
    var t := TallyOf(Flatten(ap), ed).value;
    TallyCounts(Flatten(ap), ed, t);
  }

  /**
   * `get_page_info` fails on a page that is not a PAGE node, and with a
   * division by zero when no word is paired or none is above THRESHOLD.
   */
  lemma PageInfoFailures(aPage: Node, tPage: Tess, ed: (string, string) -> nat, ap: seq<seq<Pairing>>)
    ensures aPage.kind != PAGE ==> PageInfo(aPage, tPage, ed) == Fail(AssertionFailed)
    ensures aPage.kind == PAGE && AllPaired(aPage, tPage) == Ok(ap) && CountAbove(Flatten(ap)) == 0 ==>
      PageInfo(aPage, tPage, ed) == Fail(ZeroDivision)
  {
    if aPage.kind == PAGE && AllPaired(aPage, tPage) == Ok(ap) && CountAbove(Flatten(ap)) == 0 {
      TallyFailure(Flatten(ap), ed);
      if TallyOf(Flatten(ap), ed).Ok? {
        TallyCounts(Flatten(ap), ed, TallyOf(Flatten(ap), ed).value);
      }
    }
  }

  /** The jobs of a reference block: one per overlapping Tesseract block. */
  lemma ChildJobsExactly(aChild: Node, blocks: seq<Tess>, j: Job)
    ensures j in ChildJobs(aChild, blocks) <==>
      exists b :: b in Candidates(aChild, blocks) && j == Job(AbbyTree.Words(aChild), TessTree.Words(b))
  {
    var bs := Candidates(aChild, blocks);
    var js := ChildJobs(aChild, blocks);
    if j in js {
      var k :| 0 <= k < |js| && js[k] == j;
      assert bs[k] in bs;
    }
    if exists b :: b in bs && j == Job(AbbyTree.Words(aChild), TessTree.Words(b)) {
      var b :| b in bs && j == Job(AbbyTree.Words(aChild), TessTree.Words(b));
      var k :| 0 <= k < |bs| && bs[k] == b;
      assert js[k] == j;
    }
  }

  /**
   * The pairing jobs of a page: exactly one per pair of a reference block
   * and a Tesseract block overlapping it, so a reference word is counted
   * once for every Tesseract block its own block overlaps.
   */
  lemma PageJobsExactly(aPage: Node, tPage: Tess, j: Job)
    ensures j in PageJobs(aPage, tPage) <==>
      exists i :: 0 <= i < |aPage.children| && j in ChildJobs(aPage.children[i], tPage.children)
  {
    var jss := PageJobLists(aPage, tPage);
    InFlatten(jss, j);
    if j in PageJobs(aPage, tPage) {
      var i :| 0 <= i < |jss| && j in jss[i];
      assert jss[i] == ChildJobs(aPage.children[i], tPage.children);
    }
    if exists i :: 0 <= i < |aPage.children| && j in ChildJobs(aPage.children[i], tPage.children) {
      var i :| 0 <= i < |aPage.children| && j in ChildJobs(aPage.children[i], tPage.children);
      assert jss[i] == ChildJobs(aPage.children[i], tPage.children);
    }
  }

  /**
   * On well-formed word boxes a page never fails in pairing, and its mean
   * IOU lies in [0, 1]. A page holding an empty WORD (a separator followed
   * by a line break leaves one) is outside this hypothesis: that WORD's
   * processed box is inverted, (1000, 1000, 0, 0) once scaled.
   */
  lemma PageAverageIouInRange(aPage: Node, tPage: Tess, ed: (string, string) -> nat)
    requires forall j :: j in PageJobs(aPage, tPage) ==>
      (forall a :: a in j.refs ==> WellFormed(ABox(a))) && (forall t :: t in j.cands ==> WellFormed(TBox(t)))
    ensures AllPaired(aPage, tPage).Ok?
    ensures PageInfo(aPage, tPage, ed).Ok? ==> 0.0 <= PageInfo(aPage, tPage, ed).value.averageIou <= 1.0
  {
    var js := PageJobs(aPage, tPage);
    forall k | 0 <= k < |js| ensures PairJob(js[k]).Ok? {
      assert js[k] in js;
      PairWordsWellFormed(js[k].refs, js[k].cands);
    }
    MapAllFailure(js, PairJob);
    var ap := AllPaired(aPage, tPage).value;
    MapAllShape(js, PairJob, ap);
    var ps := Flatten(ap);
    forall p | p in ps ensures 0.0 <= p.iou <= 1.0 {
      InFlatten(ap, p);
      var k :| 0 <= k < |ap| && p in ap[k];
      assert js[k] in js;
      PairWordsWellFormed(js[k].refs, js[k].cands);
    }
    if PageInfo(aPage, tPage, ed).Ok? {
      PageInfoReport(aPage, tPage, ed, ap, PageInfo(aPage, tPage, ed).value);
      SumIouBounded(ps);
      DivInUnitRange(SumIou(ps), |ps| as real);
    }
  }

  /** `filter(lambda block: overlap(block, a_child), t_page.children)`. */
  method OverlappingBlocks(aChild: Node, blocks: seq<Tess>) returns (bs: seq<Tess>)
    ensures bs == Candidates(aChild, blocks)
  {
    bs := [];
    var j := 0;
    while j < |blocks|
      invariant 0 <= j <= |blocks|
      invariant bs == Candidates(aChild, blocks[..j])
    {
      assert blocks[..j + 1][..j] == blocks[..j];
      OverlapSymmetric(TBox(blocks[j]), ABox(aChild));
      if BlockOverlaps(blocks[j], aChild) {
        bs := bs + [blocks[j]];
      }
      j := j + 1;
    }
    assert blocks[..j] == blocks;
  }

  /** The first loop of `get_page_info`: `pair_words` on every reference block and overlapping Tesseract block. */
  method PairPage(aPage: Node, tPage: Tess) returns (r: Result<seq<seq<Pairing>>>)
    ensures r == AllPaired(aPage, tPage)
  {
    ghost var jss := PageJobLists(aPage, tPage);
    var all: seq<seq<Pairing>> := [];
    var i := 0;
    while i < |aPage.children|
      invariant 0 <= i <= |aPage.children|
      invariant MapAll(Flatten(jss[..i]), PairJob) == Ok(all)
    {
      var paired := PairChild(aPage.children[i], tPage.children);
      assert jss[i] == ChildJobs(aPage.children[i], tPage.children);
      MapAllAppend(Flatten(jss[..i]), jss[i], PairJob);
      FlattenPrefix(jss, i);
      if paired.Fail? {
        FlattenSplit(jss, i);
        MapAllFailurePrefix(Flatten(jss[..i + 1]), Flatten(jss[i + 1..]), PairJob);
        return Fail(paired.error);
      }
      all := all + paired.value;
      i := i + 1;
    }
    assert jss[..i] == jss;
    return Ok(all);
  }

  /** One iteration of that loop: the words of one reference block paired against each overlapping Tesseract block. */
  method PairChild(aChild: Node, blocks: seq<Tess>) returns (r: Result<seq<seq<Pairing>>>)
    ensures r == MapAll(ChildJobs(aChild, blocks), PairJob)
  {
    var aWords := AbbyTree.GetWords(aChild);
    var overlapping := OverlappingBlocks(aChild, blocks);
    ghost var js := ChildJobs(aChild, blocks);
    var all: seq<seq<Pairing>> := [];
    var k := 0;
    while k < |overlapping|
      invariant 0 <= k <= |overlapping|
      invariant MapAll(js[..k], PairJob) == Ok(all)
    {
      var tWords := TessTree.GetWords(overlapping[k]);
      var paired := PairWords(aWords, tWords);
      assert js[k] == Job(aWords, tWords);
      TakeSnoc(js, k);
      if paired.Fail? {
        MapAllFailureSticks(js, PairJob, k + 1);
        return Fail(paired.error);
      }
      all := all + [paired.value];
      k := k + 1;
    }
    assert js[..k] == js;
    return Ok(all);
  }

  /** Tallying one more pairing of a block counts it into the totals so far. */
  lemma TallyStep(seen: seq<Pairing>, pairs: seq<Pairing>, k: nat, ed: (string, string) -> nat)
    requires k < |pairs| && TallyOf(seen + pairs[..k], ed).Ok?
    ensures TallyOf(seen + pairs[..k + 1], ed) == CountPairing(TallyOf(seen + pairs[..k], ed).value, pairs[k], ed)
  {
    assert (seen + pairs[..k + 1])[..|seen| + k] == seen + pairs[..k];
  }

  /**
   * The inner loop of `get_page_info` over the pairings of one block, from
   * the running totals `t` of the pairings `seen` before it.
   */
  method TallyBlock(pairs: seq<Pairing>, ed: (string, string) -> nat, t: Tally, ghost seen: seq<Pairing>)
    returns (r: Result<Tally>)
    requires TallyOf(seen, ed) == Ok(t)
    ensures r == TallyOf(seen + pairs, ed)
  {
    var totalWords, considered, notOverlapping := t.total, t.considered, t.below;
    var iouTotal, errorRate := t.iouTotal, t.errorTotal;
    var k := 0;
    assert seen + pairs[..0] == seen;
    while k < |pairs|
      invariant 0 <= k <= |pairs|
      invariant TallyOf(seen + pairs[..k], ed) == Ok(Tally(totalWords, considered, notOverlapping, iouTotal, errorRate))
    {
      var p := pairs[k];
      TallyStep(seen, pairs, k, ed);
      totalWords := totalWords + 1;
      iouTotal := iouTotal + p.iou;
      if p.iou > THRESHOLD {
        if |p.ref.text| == 0 {
          PairingFailure(seen, pairs, k, ed);
          return Fail(ZeroDivision);
        }
        errorRate := errorRate + (ed(p.cand.text, p.ref.text) as real) / (|p.ref.text| as real);
        considered := considered + 1;
      } else {
        notOverlapping := notOverlapping + 1;
      }
      k := k + 1;
    }
    assert pairs[..k] == pairs;
    return Ok(Tally(totalWords, considered, notOverlapping, iouTotal, errorRate));
  }

  /** A pairing that fails to count decides the totals of its block, whatever pairings come after it. */
  lemma PairingFailure(seen: seq<Pairing>, pairs: seq<Pairing>, k: nat, ed: (string, string) -> nat)
    requires k < |pairs| && TallyOf(seen + pairs[..k + 1], ed).Fail?
    ensures TallyOf(seen + pairs, ed) == TallyOf(seen + pairs[..k + 1], ed)
  {
    var head, rest := seen + pairs[..k + 1], pairs[k + 1..];
    assert pairs == pairs[..k + 1] + rest;
    assert seen + pairs == head + rest;
    TallyFailurePrefix(head, rest, ed);
  }

  /** `get_page_info`'s nested loop: the totals over all pairings, block by block, in order. */
  method TallyPairs(all: seq<seq<Pairing>>, ed: (string, string) -> nat) returns (r: Result<Tally>)
    ensures r == TallyOf(Flatten(all), ed)
  {
    var totals := Tally(0, 0, 0, 0.0, 0.0);
    var i := 0;
    while i < |all|
      invariant 0 <= i <= |all|
      invariant TallyOf(Flatten(all[..i]), ed) == Ok(totals)
    {
      var counted := TallyBlock(all[i], ed, totals, Flatten(all[..i]));
      FlattenPrefix(all, i);
      if counted.Fail? {
        BlockFailure(all, i, ed);
        return counted;
      }
      totals := counted.value;
      i := i + 1;
    }
    assert all[..i] == all;
    return Ok(totals);
  }

  /** A block that fails to count decides the totals, whatever blocks come after it. */
  lemma BlockFailure(all: seq<seq<Pairing>>, i: nat, ed: (string, string) -> nat)
    requires i < |all| && TallyOf(Flatten(all[..i + 1]), ed).Fail?
    ensures TallyOf(Flatten(all), ed) == TallyOf(Flatten(all[..i + 1]), ed)
  {
    assert all == all[..i + 1] + all[i + 1..];
    FlattenAppend(all[..i + 1], all[i + 1..]);
    TallyFailurePrefix(Flatten(all[..i + 1]), Flatten(all[i + 1..]), ed);
  }

  /** `get_page_info`: the report that the source prints, or the exception it raises. */
  method GetPageInfo(aPage: Node, tPage: Tess, ed: (string, string) -> nat) returns (r: Result<PageReport>)
    ensures r == PageInfo(aPage, tPage, ed)
  {
    if aPage.kind != PAGE {
      return Fail(AssertionFailed);
    }
    var allPaired := PairPage(aPage, tPage);
    if allPaired.Fail? {
      return Fail(allPaired.error);
    }
    var tally := TallyPairs(allPaired.value, ed);
    if tally.Fail? {
      return Fail(tally.error);
    }
    var t := tally.value;
    if t.total == 0 || t.considered == 0 {
      return Fail(ZeroDivision);
    }
    return Ok(PageReport(t.total, t.iouTotal / t.total as real, t.errorTotal / t.considered as real, t.below));
  }

  // ---------------------------------------------------------------------
  // `compare`
  // ---------------------------------------------------------------------

  /** `zip(a_doc, t_doc)`: the pages paired by position, up to the shorter document. */
  function Zip(aDoc: seq<Node>, tDoc: seq<Tess>): (z: seq<(Node, Tess)>)
    ensures |z| == Min(|aDoc|, |tDoc|)
    ensures forall i :: 0 <= i < |z| ==> z[i] == (aDoc[i], tDoc[i])
  {
    seq(Min(|aDoc|, |tDoc|), i requires 0 <= i < Min(|aDoc|, |tDoc|) => (aDoc[i], tDoc[i]))
  }

  /** `compare`: `get_page_info` on each pair of pages in turn; the first failing page aborts. */
  function CompareDocs(aDoc: seq<Node>, tDoc: seq<Tess>, ed: (string, string) -> nat): Result<seq<PageReport>>
  {
    MapAll(Zip(aDoc, tDoc), (pp: (Node, Tess)) => PageInfo(pp.0, pp.1, ed))
  }

  /** What `compare` yields: one report per page pair, up to the shorter document, each that of `get_page_info`. */
  lemma CompareReports(aDoc: seq<Node>, tDoc: seq<Tess>, ed: (string, string) -> nat, reports: seq<PageReport>)
    requires CompareDocs(aDoc, tDoc, ed) == Ok(reports)
    ensures |reports| == Min(|aDoc|, |tDoc|)
    ensures forall i :: 0 <= i < |reports| ==> PageInfo(aDoc[i], tDoc[i], ed) == Ok(reports[i])
  {
    var z := Zip(aDoc, tDoc);
    var f := (pp: (Node, Tess)) => PageInfo(pp.0, pp.1, ed);
    MapAllShape(z, f, reports);
    forall i | 0 <= i < |reports| ensures PageInfo(aDoc[i], tDoc[i], ed) == Ok(reports[i]) {
      assert f(z[i]) == Ok(reports[i]);
    }
  }

  /** A failing `compare` fails with the error of the first failing page, every earlier page succeeding. */
  lemma CompareFirstFailure(aDoc: seq<Node>, tDoc: seq<Tess>, ed: (string, string) -> nat, e: Error)
    requires CompareDocs(aDoc, tDoc, ed) == Fail(e)
    ensures exists i :: 0 <= i < Min(|aDoc|, |tDoc|) && PageInfo(aDoc[i], tDoc[i], ed) == Fail(e)
                        && forall j :: 0 <= j < i ==> PageInfo(aDoc[j], tDoc[j], ed).Ok?
  {
    var z := Zip(aDoc, tDoc);
    var f := (pp: (Node, Tess)) => PageInfo(pp.0, pp.1, ed);
    MapAllFailure(z, f);
    var k :| 0 <= k < |z| && f(z[k]) == Fail(e) && forall j :: 0 <= j < k ==> f(z[j]).Ok?;
    assert PageInfo(aDoc[k], tDoc[k], ed) == Fail(e);
    forall j | 0 <= j < k ensures PageInfo(aDoc[j], tDoc[j], ed).Ok? {
      assert f(z[j]).Ok?;
    }
  }

  /** Pages beyond the shorter document are ignored. */
  lemma CompareIgnoresExtraPages(aDoc: seq<Node>, tDoc: seq<Tess>, ed: (string, string) -> nat)
    ensures var m := Min(|aDoc|, |tDoc|);
      CompareDocs(aDoc, tDoc, ed) == CompareDocs(aDoc[..m], tDoc[..m], ed)
  {
    var m := Min(|aDoc|, |tDoc|);
    assert Zip(aDoc, tDoc) == Zip(aDoc[..m], tDoc[..m]);
  }

  /** `compare`, loop and all. */
  method Compare(aDoc: seq<Node>, tDoc: seq<Tess>, ed: (string, string) -> nat) returns (r: Result<seq<PageReport>>)
    ensures r == CompareDocs(aDoc, tDoc, ed)
  {
    ghost var z := Zip(aDoc, tDoc);
    ghost var f := (pp: (Node, Tess)) => PageInfo(pp.0, pp.1, ed);
    var reports: seq<PageReport> := [];
    var i := 0;
    while i < Min(|aDoc|, |tDoc|)
      invariant 0 <= i <= Min(|aDoc|, |tDoc|)
      invariant MapAll(z[..i], f) == Ok(reports)
    {
      var info := GetPageInfo(aDoc[i], tDoc[i], ed);
      assert f(z[i]) == info;
      MapAllStep(z, i, f, reports);
      if info.Fail? {
        return Fail(info.error);
      }
      reports := reports + [info.value];
      i := i + 1;
    }
    assert z[..i] == z;
    return Ok(reports);
  }
}
