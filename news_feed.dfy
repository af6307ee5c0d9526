/**
 * The news panel shared by both dashboards: `news.sort(...)` newest first on
 * `event_time || created_at`, the first five kept, and the impact badge colour.
 */
module NewsFeed {
  import opened Common
  import opened Text
  import opened Api

  /**
   * A news entry. Times are the already-parsed timestamps; `eventTime` is `None` when
   * `event_time` is missing, null or empty, so that `event_time || created_at` falls back.
   */
  datatype NewsItem = NewsItem(title: string, eventTime: Option<int>, createdAt: int, impact: Option<string>)

  /** The date the comparator reads: `event_time`, else `created_at`. */
  function SortKey(n: NewsItem): int
  {
    match n.eventTime
    case Some(t) => t
    case None => n.createdAt
  }

  /** Non-increasing in the sort key: newest first. */
  predicate NewestFirst(s: seq<NewsItem>)
  {
    forall i, j :: 0 <= i < j < |s| ==> SortKey(s[i]) >= SortKey(s[j])
  }

  /**
   * Places `x` after every element of the sorted `s` whose key is at least its own,
   * so that among equal keys the earlier element stays first.
   */
  function Insert(s: seq<NewsItem>, x: NewsItem): (r: seq<NewsItem>)
    ensures |r| == |s| + 1
  {
    if s == [] || SortKey(s[|s| - 1]) >= SortKey(x) then s + [x]
    else Insert(s[..|s| - 1], x) + [s[|s| - 1]]
  }

  /**
   * The order `Array.prototype.sort` produces with the comparator
   * `dateB - dateA`: the sort is stable, so the result is the newest-first order
   * with ties kept in their original order, built here by insertion.
   */
  function SortNewestFirst(s: seq<NewsItem>): (r: seq<NewsItem>)
    ensures |r| == |s|
  {
    if s == [] then [] else Insert(SortNewestFirst(s[..|s| - 1]), s[|s| - 1])
  }

  lemma {:induction false} InsertPermutes(s: seq<NewsItem>, x: NewsItem)
    ensures multiset(Insert(s, x)) == multiset(s) + multiset{x}
  {
    if !(s == [] || SortKey(s[|s| - 1]) >= SortKey(x)) {
      InsertPermutes(s[..|s| - 1], x);
      InitLast(s);
    }
  }

  lemma {:induction false} InsertKeepsOrder(s: seq<NewsItem>, x: NewsItem)
    requires NewestFirst(s)
    ensures NewestFirst(Insert(s, x))
  {
    if !(s == [] || SortKey(s[|s| - 1]) >= SortKey(x)) {
      var init := s[..|s| - 1];
      InsertKeepsOrder(init, x);
      InsertPermutes(init, x);
      var r := Insert(init, x);
      forall i | 0 <= i < |r| ensures SortKey(r[i]) >= SortKey(s[|s| - 1]) {
        assert r[i] in multiset(init) + multiset{x};
        if r[i] in multiset(init) {
          var j :| 0 <= j < |init| && init[j] == r[i];
        }
      }
    }
  }

  /** The sorted news is newest first. */
  lemma {:induction false} SortIsNewestFirst(s: seq<NewsItem>)
    ensures NewestFirst(SortNewestFirst(s))
  {
    if s != [] {
      SortIsNewestFirst(s[..|s| - 1]);
      InsertKeepsOrder(SortNewestFirst(s[..|s| - 1]), s[|s| - 1]);
    }
  }

  /** The sorted news is a permutation of the fetched news: nothing invented, nothing lost. */
  lemma {:induction false} SortPermutes(s: seq<NewsItem>)
    ensures multiset(SortNewestFirst(s)) == multiset(s)
  {
    if s != [] {
      SortPermutes(s[..|s| - 1]);
      InsertPermutes(SortNewestFirst(s[..|s| - 1]), s[|s| - 1]);
      InitLast(s);
    }
  }

  /**
   * `news.sort(...)`, in place on the fetched array: insertion sort, each element in
   * turn moved left into the sorted prefix before it.
   */
  method SortInPlace(a: array<NewsItem>)
    modifies a
    ensures a[..] == SortNewestFirst(old(a[..]))
  {
    ghost var orig := a[..];
    var i := 0;
    while i < a.Length
      invariant 0 <= i <= a.Length
      invariant a[..i] == SortNewestFirst(orig[..i])
      invariant a[i..] == orig[i..]
    {
      InsertIntoPrefix(a, i);
      assert orig[..i + 1] == orig[..i] + [orig[i]];
      i := i + 1;
    }
    assert orig[..a.Length] == orig;
  }

  /**
   * Moves `a[i]` left past the elements of the sorted prefix `a[..i]` that are strictly
   * older than it, shifting them one place right.
   */
  method InsertIntoPrefix(a: array<NewsItem>, i: nat)
    requires i < a.Length
    modifies a
    ensures a[..i + 1] == Insert(old(a[..i]), old(a[i]))
    ensures a[i + 1..] == old(a[i + 1..])
  {
    var x := a[i];
    ghost var sorted := a[..i];
    var j := i;
    while j > 0 && SortKey(a[j - 1]) < SortKey(x)
      invariant 0 <= j <= i
      invariant forall k :: 0 <= k < j ==> a[k] == sorted[k]
      invariant forall k :: j < k <= i ==> a[k] == sorted[k - 1]
      invariant forall k :: i < k < a.Length ==> a[k] == old(a[k])
      invariant forall k :: j <= k < i ==> SortKey(sorted[k]) < SortKey(x)
    {
      a[j] := a[j - 1];
      j := j - 1;
    }
    a[j] := x;
    PlacedBetween(a[..i + 1], sorted, j, x);
    InsertAt(sorted, j, x);
  }

  /**
   * A list that agrees with `s` before `j`, holds `x` at `j` and holds `s` shifted one
   * place right after `j` is `s` with `x` inserted at `j`.
   */
  lemma PlacedBetween<T>(b: seq<T>, s: seq<T>, j: nat, x: T)
    requires |b| == |s| + 1 && j <= |s|
    requires forall k :: 0 <= k < j ==> b[k] == s[k]
    requires b[j] == x
    requires forall k :: j < k < |b| ==> b[k] == s[k - 1]
    ensures b == s[..j] + [x] + s[j..]
  {
    var c := s[..j] + [x] + s[j..];
    forall k | 0 <= k < |b| ensures b[k] == c[k] {
      if k > j {
        assert c[k] == s[j..][k - j - 1];
      }
    }
  }

  /** Inserting at `j` before the last element, then putting the last element back. */
  lemma InsertBeforeLast<T>(s: seq<T>, j: nat, x: T)
    requires j < |s|
    ensures var init := s[..|s| - 1];
      (init[..j] + [x] + init[j..]) + [s[|s| - 1]] == s[..j] + [x] + s[j..]
  {
    var init := s[..|s| - 1];
    assert init[..j] == s[..j];
    assert s[j..] == init[j..] + [s[|s| - 1]];
  }

  /**
   * `Insert` puts `x` at the place `j` where everything before is at least as new and
   * everything after is strictly older.
   */
  lemma {:induction false} InsertAt(s: seq<NewsItem>, j: nat, x: NewsItem)
    requires j <= |s| && (j == 0 || SortKey(s[j - 1]) >= SortKey(x))
    requires forall k :: j <= k < |s| ==> SortKey(s[k]) < SortKey(x)
    ensures Insert(s, x) == s[..j] + [x] + s[j..]
  {
    if j < |s| {
      InsertAt(s[..|s| - 1], j, x);
      InsertBeforeLast(s, j, x);
    } else {
      assert s[..j] == s;
    }
  }

  /**
   * `data?.news || data || []` after `.catch(() => ({ news: [] }))`, as both
   * dashboards read the news: a failed request gives no news; `None` when the body is
   * an object without `news`, on which `.sort` throws.
   */
  function NewsOf(newsData: Fetched<ListBody<NewsItem>>): (r: Option<seq<NewsItem>>)
    ensures newsData.Rejected? ==> r == Some([])
    ensures newsData.Resolved? ==> r == KeyOrSelf(newsData.body)
  {
    KeyOrSelf(CatchWith(newsData, Object(Some([]))))
  }

  /** The five newest entries: the first five of the sorted news. */
  function UpcomingNews(news: seq<NewsItem>): (r: seq<NewsItem>)
    ensures |r| == Min(5, |news|)
  {
    TopFive(SortNewestFirst(news))
  }

  /**
   * What the panel shows: at most five entries (fewer only when fewer were fetched),
   * newest first, each taken from the fetched news without duplication, and none
   * older than any fetched entry that was left out.
   */
  lemma UpcomingNewsIsTopFive(news: seq<NewsItem>)
    ensures var r := UpcomingNews(news);
      |r| == Min(5, |news|) && NewestFirst(r) && multiset(r) <= multiset(news) &&
      forall x, i :: x in multiset(news) - multiset(r) && 0 <= i < |r| ==> SortKey(x) <= SortKey(r[i])
  {
    var s := SortNewestFirst(news);
    SortIsNewestFirst(news);
    SortPermutes(news);
    assert |s| == |news| by {
      assert |multiset(s)| == |multiset(news)|;
    }
    SortedPrefixIsTop(s, Min(5, |news|));
  }

  /** A prefix of a newest-first list is newest first, and no entry after it is newer than any in it. */
  lemma SortedPrefixIsTop(s: seq<NewsItem>, k: nat)
    requires NewestFirst(s) && k <= |s|
    ensures NewestFirst(s[..k]) && multiset(s[..k]) <= multiset(s)
    ensures forall x, i :: x in multiset(s) - multiset(s[..k]) && 0 <= i < k ==> SortKey(x) <= SortKey(s[i])
  {
    assert s == s[..k] + s[k..];
    assert multiset(s) == multiset(s[..k]) + multiset(s[k..]);
    forall x, i | x in multiset(s) - multiset(s[..k]) && 0 <= i < k ensures SortKey(x) <= SortKey(s[i]) {
      assert x in s[k..];
    }
  }

  /** The badge classes for each impact level. */
  const HighColor := "bg-red-100 text-red-700"
  const MediumColor := "bg-yellow-100 text-yellow-700"
  const LowColor := "bg-green-100 text-green-700"
  const DefaultColor := "bg-gray-100 text-gray-700"

  /**
   * `getImpactColor(impact)`: `high`, `medium` and `low` in any letter case get red,
   * yellow and green; every other value, a missing one included, gets gray.
   */
  function ImpactColor(impact: Option<string>): (c: string)
    ensures c == HighColor <==> impact.Some? && EqualsIgnoringCase(impact.value, "high")
    ensures c == MediumColor <==> impact.Some? && EqualsIgnoringCase(impact.value, "medium")
    ensures c == LowColor <==> impact.Some? && EqualsIgnoringCase(impact.value, "low")
    ensures c == DefaultColor <==>
      impact.None? || !(EqualsIgnoringCase(impact.value, "high") ||
      EqualsIgnoringCase(impact.value, "medium") || EqualsIgnoringCase(impact.value, "low"))
  {
    match impact
    case None => DefaultColor
    case Some(s) =>
      ToLowerIsEqualsIgnoringCase(s, "high");
      ToLowerIsEqualsIgnoringCase(s, "medium");
      ToLowerIsEqualsIgnoringCase(s, "low");
      var lower := ToLower(s);
      if lower == "high" then HighColor
      else if lower == "medium" then MediumColor
      else if lower == "low" then LowColor
      else DefaultColor
  }

  /** Two spellings of the same level in different letter cases get the same colour. */
  lemma {:induction false} ImpactColorIgnoresCase(a: string, b: string)
    requires ToLower(a) == ToLower(b)
    ensures ImpactColor(Some(a)) == ImpactColor(Some(b))
  {
  }
}
