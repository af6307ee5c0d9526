/** Small shared vocabulary: optional values and the "first five" cut used by both dashboards. */
module Common {

  /** A value that may be absent (JavaScript `null` / `undefined`). */
  datatype Option<+T> = None | Some(value: T)

  function Min(a: int, b: int): (m: int)
    ensures m <= a && m <= b
    ensures m == a || m == b
  {
    if a <= b then a else b
  }

  /** `xs.slice(0, 5)`: the first five elements, or all of them when there are fewer. */
  function TopFive<T>(xs: seq<T>): (r: seq<T>)
    ensures |r| == Min(5, |xs|)
    ensures |r| <= 5
    ensures forall i :: 0 <= i < |r| ==> r[i] == xs[i]
  {
    xs[..Min(5, |xs|)]
  }

  /** A non-empty sequence is its first element followed by the rest. */
  lemma HeadTail<T>(xs: seq<T>)
    requires xs != []
    ensures xs == [xs[0]] + xs[1..]
  {
  }

  /** A sequence is its prefix up to `k` followed by the rest. */
  lemma PrefixThenSuffix<T>(xs: seq<T>, k: nat)
    requires k <= |xs|
    ensures xs == xs[..k] + xs[k..]
  {
  }

  /** A non-empty sequence is its front followed by its last element. */
  lemma InitLast<T>(xs: seq<T>)
    requires xs != []
    ensures xs == xs[..|xs| - 1] + [xs[|xs| - 1]]
  {
  }
}
