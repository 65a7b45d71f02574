/** Shared constants and types of the evaluation engine (Evaluation/utils.py). */
module Utils {

  /** IOU above which a reference word's character error rate is counted. */
  const THRESHOLD: real := 0.3

  /** Node kinds of the reference (ABBYY) tree. */
  datatype AbbyType = PAGE | TABLE | T_ROW | P | LINE | WORD | CHAR

  /** A page dimension. Page sizes are divisors of every normalised coordinate. */
  type Dim = x: int | 0 < x witness 1

  /** The ways the engine stops with an exception. */
  datatype Error =
    | ZeroDivision     // a division whose divisor is zero
    | IndexError       // `[0]` on an empty list
    | AssertionFailed  // an `assert` on the input shape
    | CannotParse      // `raise(...)` on an element of unknown kind
    | BadAttribute     // a required attribute missing (KeyError) or not an integer (ValueError)

  datatype Result<T> = Ok(value: T) | Fail(error: Error)

  datatype Option<T> = None | Some(value: T)

  function Min(a: int, b: int): int { if a <= b then a else b }
  function Max(a: int, b: int): int { if a >= b then a else b }
  function RMin(a: real, b: real): real { if a <= b then a else b }
  function RMax(a: real, b: real): real { if a >= b then a else b }

  /** Concatenation of a list of lists, in order. */
  function Flatten<T>(ss: seq<seq<T>>): seq<T>
  {
    if ss == [] then [] else Flatten(ss[..|ss| - 1]) + ss[|ss| - 1]
  }

  /** An element is in the concatenation exactly when it is in one of the lists. */
  lemma {:induction false} InFlatten<T>(ss: seq<seq<T>>, x: T)
    ensures x in Flatten(ss) <==> exists i :: 0 <= i < |ss| && x in ss[i]
  {
    if ss != [] {
      var n := |ss| - 1;
      var init := ss[..n];
      InFlatten(init, x);
      assert Flatten(ss) == Flatten(init) + ss[n];
      if x in Flatten(init) {
        var i :| 0 <= i < |init| && x in init[i];
        assert x in ss[i];
      } else if x in ss[n] {
      } else {
        forall i | 0 <= i < |ss| ensures x !in ss[i] {
          if i < n { assert ss[i] == init[i]; }
        }
      }
    }
  }

  /** The length of the concatenation is the sum of the lengths. */
  function SumLengths<T>(ss: seq<seq<T>>): nat {
    if ss == [] then 0 else SumLengths(ss[..|ss| - 1]) + |ss[|ss| - 1]|
  }

  lemma {:induction false} FlattenLength<T>(ss: seq<seq<T>>)
    ensures |Flatten(ss)| == SumLengths(ss)
  {
    if ss != [] {
      FlattenLength(ss[..|ss| - 1]);
    }
  }

  /** Taking one more list of the prefix appends that list. */
  lemma FlattenPrefix<T>(ss: seq<seq<T>>, i: nat)
    requires i < |ss|
    ensures Flatten(ss[..i + 1]) == Flatten(ss[..i]) + ss[i]
  {
    assert ss[..i + 1][..i] == ss[..i];
  }

  /** A prefix one longer is the prefix and the next element. */
  lemma TakeSnoc<T>(s: seq<T>, k: nat)
    requires k < |s|
    ensures s[..k + 1] == s[..k] + [s[k]]
  {
  }

  /** Concatenation distributes over appending lists of lists. */
  lemma {:induction false} FlattenAppend<T>(ss: seq<seq<T>>, tt: seq<seq<T>>)
    ensures Flatten(ss + tt) == Flatten(ss) + Flatten(tt)
    decreases |tt|
  {
    if tt == [] {
      assert ss + tt == ss;
    } else {
      var n := |tt| - 1;
      FlattenAppend(ss, tt[..n]);
      assert (ss + tt)[..|ss + tt| - 1] == ss + tt[..n];
      assert Flatten(ss + tt) == Flatten(ss + tt[..n]) + tt[n];
      assert Flatten(tt) == Flatten(tt[..n]) + tt[n];
    }
  }

  /** The concatenation around the list at position `i`. */
  lemma FlattenSplit<T>(ss: seq<seq<T>>, i: nat)
    requires i < |ss|
    ensures Flatten(ss) == Flatten(ss[..i]) + ss[i] + Flatten(ss[i + 1..])
  {
    assert ss == ss[..i + 1] + ss[i + 1..];
    FlattenAppend(ss[..i + 1], ss[i + 1..]);
    FlattenPrefix(ss, i);
  }

  /**
   * A Python loop that applies `f` to each element in turn and lets an
   * exception escape: the results in order, or the error of the first
   * element on which `f` fails.
   */
  function MapAll<A, B>(xs: seq<A>, f: A -> Result<B>): Result<seq<B>>
  {
    if xs == [] then Ok([])
    else
      match MapAll(xs[..|xs| - 1], f)
      case Fail(e) => Fail(e)
      case Ok(ys) =>
        match f(xs[|xs| - 1])
        case Fail(e) => Fail(e)
        case Ok(y) => Ok(ys + [y])
  }

  /** One element more is one application of `f` more. */
  lemma MapAllSnoc<A, B>(xs: seq<A>, x: A, f: A -> Result<B>)
    ensures MapAll(xs + [x], f) ==
      match MapAll(xs, f)
      case Fail(e) => Fail(e)
      case Ok(ys) => (match f(x) case Fail(e) => Fail(e) case Ok(y) => Ok(ys + [y]))
  {
    assert (xs + [x])[..|xs|] == xs;
  }

  /** The loop of `MapAll` after `i` elements, one element more. */
  lemma MapAllStep<A, B>(xs: seq<A>, i: nat, f: A -> Result<B>, ys: seq<B>)
    requires i < |xs| && MapAll(xs[..i], f) == Ok(ys)
    ensures f(xs[i]).Ok? ==> MapAll(xs[..i + 1], f) == Ok(ys + [f(xs[i]).value])
    ensures f(xs[i]).Fail? ==> MapAll(xs, f) == Fail(f(xs[i]).error)
  {
    TakeSnoc(xs, i);
    MapAllSnoc(xs[..i], xs[i], f);
    if f(xs[i]).Fail? {
      MapAllFailureSticks(xs, f, i + 1);
    }
  }

  /** On success there is one result per element, each the result of `f` on it. */
  lemma {:induction false} MapAllShape<A, B>(xs: seq<A>, f: A -> Result<B>, ys: seq<B>)
    requires MapAll(xs, f) == Ok(ys)
    ensures |ys| == |xs|
    ensures forall k :: 0 <= k < |xs| ==> f(xs[k]) == Ok(ys[k])
  {
    if xs != [] {
      var n := |xs| - 1;
      var ys0 := MapAll(xs[..n], f).value;
      MapAllShape(xs[..n], f, ys0);
      assert ys == ys0 + [ys[n]];
      forall k | 0 <= k < n ensures f(xs[k]) == Ok(ys[k]) {
        assert xs[..n][k] == xs[k];
      }
    }
  }

  /**
   * `MapAll` fails exactly when `f` fails on some element, and then with
   * the error of the first such element.
   */
  lemma {:induction false} MapAllFailure<A, B>(xs: seq<A>, f: A -> Result<B>)
    ensures MapAll(xs, f).Fail? <==> exists k :: 0 <= k < |xs| && f(xs[k]).Fail?
    ensures MapAll(xs, f).Fail? ==> exists k :: 0 <= k < |xs| && f(xs[k]) == Fail(MapAll(xs, f).error)
                                                && forall j :: 0 <= j < k ==> f(xs[j]).Ok?
  {
    if xs != [] {
      var n := |xs| - 1;
      var init := xs[..n];
      MapAllFailure(init, f);
      forall k | 0 <= k < n ensures init[k] == xs[k] { }
      if MapAll(init, f).Ok? {
        MapAllShape(init, f, MapAll(init, f).value);
      }
    }
  }

  /** Once a prefix has failed, the whole sequence fails with the same error. */
  lemma {:induction false} MapAllFailureSticks<A, B>(xs: seq<A>, f: A -> Result<B>, n: nat)
    requires n <= |xs| && MapAll(xs[..n], f).Fail?
    ensures MapAll(xs, f) == MapAll(xs[..n], f)
    decreases |xs| - n
  {
    if n < |xs| {
      assert xs[..n + 1][..n] == xs[..n];
      MapAllFailureSticks(xs, f, n + 1);
    } else {
      assert xs[..n] == xs;
    }
  }

  /** A failing prefix decides the result whatever follows it. */
  lemma MapAllFailurePrefix<A, B>(xs: seq<A>, ys: seq<A>, f: A -> Result<B>)
    requires MapAll(xs, f).Fail?
    ensures MapAll(xs + ys, f) == MapAll(xs, f)
  {
    assert (xs + ys)[..|xs|] == xs;
    MapAllFailureSticks(xs + ys, f, |xs|);
  }

  /** Applying in order to `xs + zs`: first `xs`, then, if that succeeded, `zs`. */
  lemma {:induction false} MapAllAppend<A, B>(xs: seq<A>, zs: seq<A>, f: A -> Result<B>)
    ensures MapAll(xs + zs, f) ==
      match MapAll(xs, f)
      case Fail(e) => Fail(e)
      case Ok(ys) =>
        match MapAll(zs, f)
        case Fail(e) => Fail(e)
        case Ok(ws) => Ok(ys + ws)
    decreases |zs|
  {
    if zs == [] {
      assert xs + zs == xs;
      if MapAll(xs, f).Ok? {
        assert MapAll(xs, f).value + [] == MapAll(xs, f).value;
      }
    } else {
      var n := |zs| - 1;
      MapAllAppend(xs, zs[..n], f);
      assert (xs + zs)[..|xs + zs| - 1] == xs + zs[..n];
      assert (xs + zs)[|xs + zs| - 1] == zs[n];
      if MapAll(xs, f).Ok? && MapAll(zs[..n], f).Ok? && f(zs[n]).Ok? {
        var ys, ws := MapAll(xs, f).value, MapAll(zs[..n], f).value;
        assert ys + ws + [f(zs[n]).value] == ys + (ws + [f(zs[n]).value]);
      }
    }
  }
}
