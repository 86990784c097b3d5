/**
 * `previous_and_next` from utils.py (copied verbatim into main.py): the
 * iterable is teed, `None` is chained in front of one copy, and the two
 * copies are zipped, giving `(None, xs[0]), (xs[0], xs[1]), ...`.
 * The lazy iterators are modelled as finite sequences.
 */
module Utils {
  import opened Wrappers

  /** Python's `zip` of two sequences: stops at the end of the shorter one. */
  function Zip<A, B>(xs: seq<A>, ys: seq<B>): (r: seq<(A, B)>)
    ensures |r| == if |xs| <= |ys| then |xs| else |ys|
  {
    if xs == [] || ys == [] then [] else [(xs[0], ys[0])] + Zip(xs[1..], ys[1..])
  }

  /** Each element wrapped as a present value (the teed copy `prevs`). */
  function Somes<T>(xs: seq<T>): (r: seq<Option<T>>)
    ensures |r| == |xs|
    ensures forall k :: 0 <= k < |xs| ==> r[k] == Some(xs[k])
  {
    if xs == [] then [] else [Some(xs[0])] + Somes(xs[1..])
  }

  /** `zip(chain([None], prevs), items)`. */
  function PreviousAndNext<T>(xs: seq<T>): (r: seq<(Option<T>, T)>)
    ensures |r| == |xs|
  {
    Zip([None] + Somes(xs), xs)
  }

  lemma {:induction false} ZipAt<A, B>(xs: seq<A>, ys: seq<B>, k: nat)
    requires k < |xs| && k < |ys|
    ensures Zip(xs, ys)[k] == (xs[k], ys[k])
    decreases k
  {
    if k > 0 {
      ZipAt(xs[1..], ys[1..], k - 1);
    }
  }

  /** Pair `k` is `(None, xs[0])` at the front and `(xs[k-1], xs[k])` after it. */
  lemma PreviousAndNextAt<T>(xs: seq<T>, k: nat)
    requires k < |xs|
    ensures PreviousAndNext(xs)[k] == (if k == 0 then None else Some(xs[k - 1]), xs[k])
  {
    ZipAt([None] + Somes(xs), xs, k);
  }

  function Firsts<A, B>(ps: seq<(A, B)>): (r: seq<A>)
    ensures |r| == |ps|
  {
    seq(|ps|, k requires 0 <= k < |ps| => ps[k].0)
  }

  function Seconds<A, B>(ps: seq<(A, B)>): (r: seq<B>)
    ensures |r| == |ps|
  {
    seq(|ps|, k requires 0 <= k < |ps| => ps[k].1)
  }

  /** The second components are the input, in order. */
  lemma SecondsAreInput<T>(xs: seq<T>)
    ensures Seconds(PreviousAndNext(xs)) == xs
  {
    forall k | 0 <= k < |xs|
      ensures Seconds(PreviousAndNext(xs))[k] == xs[k]
    {
      PreviousAndNextAt(xs, k);
    }
  }

  /** The first components are `None` and then every input element but the last. */
  lemma FirstsAreShiftedInput<T>(xs: seq<T>)
    requires |xs| > 0
    ensures Firsts(PreviousAndNext(xs)) == [None] + Somes(xs[..|xs| - 1])
  {
    var f := Firsts(PreviousAndNext(xs));
    var g := [None] + Somes(xs[..|xs| - 1]);
    forall k | 0 <= k < |xs|
      ensures f[k] == g[k]
    {
      PreviousAndNextAt(xs, k);
    }
  }
}
