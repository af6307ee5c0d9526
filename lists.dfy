/**
 * The array methods the pages chain on their lists, `map` and `filter`, written
 * out on sequences, with `filter(p).length` as the count the stats cards show.
 */
module Lists {

  /** `xs.map(f)`. */
  function Map<T, U>(xs: seq<T>, f: T -> U): (r: seq<U>)
    ensures |r| == |xs|
  {
    if xs == [] then [] else [f(xs[0])] + Map(xs[1..], f)
  }

  /** Each element is mapped in place. */
  lemma {:induction false} MapAt<T, U>(xs: seq<T>, f: T -> U)
    ensures forall k :: 0 <= k < |xs| ==> Map(xs, f)[k] == f(xs[k])
  {
    if xs != [] {
      MapAt(xs[1..], f);
    }
  }

  /** Mapping distributes over concatenation. */
  lemma {:induction false} MapAppend<T, U>(xs: seq<T>, ys: seq<T>, f: T -> U)
    ensures Map(xs + ys, f) == Map(xs, f) + Map(ys, f)
  {
    if xs == [] {
      assert xs + ys == ys;
    } else {
      var zs := xs + ys;
      assert zs[0] == xs[0];
      assert zs[1..] == xs[1..] + ys;
      MapAppend(xs[1..], ys, f);
      var a, b := Map(xs[1..], f), Map(ys, f);
      calc {
        Map(zs, f);
        [f(xs[0])] + Map(zs[1..], f);
        [f(xs[0])] + (a + b);
        { assert [f(xs[0])] + (a + b) == ([f(xs[0])] + a) + b; }
        ([f(xs[0])] + a) + b;
      }
    }
  }

  /** `xs.filter(keep)`: the elements that pass, in their order. */
  function Filter<T>(xs: seq<T>, keep: T -> bool): (r: seq<T>)
    ensures |r| <= |xs|
  {
    if xs == [] then []
    else if keep(xs[0]) then [xs[0]] + Filter(xs[1..], keep)
    else Filter(xs[1..], keep)
  }

  /** Every element kept passes the test and is one of the input elements. */
  lemma {:induction false} FilterKeeps<T>(xs: seq<T>, keep: T -> bool)
    ensures forall i :: 0 <= i < |Filter(xs, keep)| ==> keep(Filter(xs, keep)[i]) && Filter(xs, keep)[i] in xs
  {
    if xs != [] {
      FilterKeeps(xs[1..], keep);
      var r, rest := Filter(xs, keep), Filter(xs[1..], keep);
      forall i | 0 <= i < |r| ensures keep(r[i]) && r[i] in xs {
        if keep(xs[0]) && i == 0 {
          assert r[0] == xs[0];
        } else {
          var k := if keep(xs[0]) then i - 1 else i;
          assert r[i] == rest[k];
          assert rest[k] in xs[1..];
          var j :| 0 <= j < |xs| - 1 && xs[1..][j] == rest[k];
          assert xs[j + 1] == r[i];
        }
      }
    }
  }

  /** Filtering distributes over concatenation. */
  lemma {:induction false} FilterAppend<T>(xs: seq<T>, ys: seq<T>, keep: T -> bool)
    ensures Filter(xs + ys, keep) == Filter(xs, keep) + Filter(ys, keep)
  {
    if xs == [] {
      assert xs + ys == ys;
    } else {
      var zs := xs + ys;
      assert zs[0] == xs[0];
      assert zs[1..] == xs[1..] + ys;
      FilterAppend(xs[1..], ys, keep);
      var a, b := Filter(xs[1..], keep), Filter(ys, keep);
      if keep(xs[0]) {
        calc {
          Filter(zs, keep);
          [xs[0]] + Filter(zs[1..], keep);
          [xs[0]] + (a + b);
          { assert [xs[0]] + (a + b) == ([xs[0]] + a) + b; }
          ([xs[0]] + a) + b;
        }
      }
    }
  }

  /** A list whose every element passes is kept whole. */
  lemma {:induction false} FilterAll<T>(xs: seq<T>, keep: T -> bool)
    requires forall i :: 0 <= i < |xs| ==> keep(xs[i])
    ensures Filter(xs, keep) == xs
  {
    if xs != [] {
      FilterAll(xs[1..], keep);
      assert xs == [xs[0]] + xs[1..];
    }
  }

  /** A list none of whose elements passes is filtered to nothing. */
  lemma {:induction false} FilterNone<T>(xs: seq<T>, keep: T -> bool)
    requires forall i :: 0 <= i < |xs| ==> !keep(xs[i])
    ensures Filter(xs, keep) == []
  {
    if xs != [] {
      FilterNone(xs[1..], keep);
    }
  }

  /** `xs.filter(p).length`. */
  function Count<T>(xs: seq<T>, p: T -> bool): (n: nat)
    ensures n <= |xs|
  {
    |Filter(xs, p)|
  }

  /** Counting adds up over concatenation. */
  lemma CountAppend<T>(xs: seq<T>, ys: seq<T>, p: T -> bool)
    ensures Count(xs + ys, p) == Count(xs, p) + Count(ys, p)
  {
    FilterAppend(xs, ys, p);
  }

  /** Two filters that no element passes both of count at most the whole list together. */
  lemma {:induction false} CountDisjoint<T>(xs: seq<T>, p: T -> bool, q: T -> bool)
    requires forall x :: p(x) ==> !q(x)
    ensures Count(xs, p) + Count(xs, q) <= |xs|
  {
    if xs != [] {
      CountDisjoint(xs[1..], p, q);
    }
  }
}
