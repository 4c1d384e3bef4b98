/** The URL record of URLReport.java, its normaliser, the two hit-count
    comparators and the order in which DateNode.printURLStats drains its
    priority queue. */
module URLs {
  import opened Options
  import opened JavaString

  /** SORT_DESCENDING: which comparator printURLStats uses. */
  const SortDescending: bool := true

  /** A URL object as the aggregator uses it: the raw (trimmed) string and
      its hit count. */
  datatype URL = URL(urlString: string, hitCount: int)

  // ---------------------------------------------------------------------
  // normalizeURL

  /** URL.normalizeURL as written: lower-case, then substring(8) after a
      leading "http://" and substring(5) after a leading "www.". A
      substring past the end throws, which is `None` here. */
  function NormalizeURL(urlString: string): (r: Option<string>)
    ensures var lower := ToLower(urlString);
      r.None? <==> lower == "http://" || lower == "www."
                   || (|lower| == 12 && lower[..7] == "http://" && lower[8..] == "www.")
    ensures r.Some? ==> |r.value| <= |urlString|
    ensures r.Some? ==> r.value == ToLower(urlString)[|urlString| - |r.value|..]
    ensures r.Some? ==> |urlString| - |r.value| in {0, 5, 8, 13}
    ensures var lower := ToLower(urlString);
      !StartsWith(lower, "http://") && !StartsWith(lower, "www.") ==> r == Some(lower)
    ensures var lower := ToLower(urlString);
      !StartsWith(lower, "http://") && StartsWith(lower, "www.") && |lower| >= 5 ==> r == Some(lower[5..])
    ensures var lower := ToLower(urlString);
      StartsWith(lower, "http://") && |lower| >= 8 && !StartsWith(lower[8..], "www.") ==> r == Some(lower[8..])
    ensures var lower := ToLower(urlString);
      StartsWith(lower, "http://") && |lower| >= 13 && StartsWith(lower[8..], "www.") ==> r == Some(lower[13..])
  {
    var lower := ToLower(urlString);
    var afterScheme := if StartsWith(lower, "http://") then Substring(lower, 8) else Some(lower);
    match afterScheme
    case None => None
    case Some(rest) =>
      if StartsWith(rest, "www.") then Substring(rest, 5) else Some(rest)
  }

  /** What the comment on normalizeURL promises: drop a leading "http://"
      (7 characters) and then a leading "www." (4 characters). Never fails. */
  function NormalizeURLIntended(urlString: string): (r: string)
    ensures |r| <= |urlString| && r == ToLower(urlString)[|urlString| - |r|..]
  {
    var lower := ToLower(urlString);
    var afterScheme := if StartsWith(lower, "http://") then lower[7..] else lower;
    if StartsWith(afterScheme, "www.") then afterScheme[4..] else afterScheme
  }

  /** With the intended normaliser, a host reads the same with or without a
      leading "http://", "www." or both, in any letter case. */
  lemma NormalizeURLIntendedIgnoresPrefixes(host: string)
    requires !StartsWith(ToLower(host), "http://") && !StartsWith(ToLower(host), "www.")
    ensures NormalizeURLIntended(host) == ToLower(host)
    ensures NormalizeURLIntended("www." + host) == ToLower(host)
    ensures NormalizeURLIntended("http://" + host) == ToLower(host)
    ensures NormalizeURLIntended("http://www." + host) == ToLower(host)
  {
    IntendedAfterWww(host);
    IntendedAfterScheme(host);
    IntendedAfterSchemeAndWww(host);
  }

  lemma IntendedAfterWww(host: string)
    ensures NormalizeURLIntended("www." + host) == ToLower(host)
  {
    ToLowerAppend("www.", host);
    assert ToLower("www.") == "www.";
    var lower := "www." + ToLower(host);
    assert lower[0] == 'w' && !StartsWith(lower, "http://");
    assert lower[..4] == "www." && lower[4..] == ToLower(host);
  }

  lemma IntendedAfterScheme(host: string)
    requires !StartsWith(ToLower(host), "www.")
    ensures NormalizeURLIntended("http://" + host) == ToLower(host)
  {
    ToLowerAppend("http://", host);
    assert ToLower("http://") == "http://";
    var lower := "http://" + ToLower(host);
    assert lower[..7] == "http://" && lower[7..] == ToLower(host);
  }

  lemma IntendedAfterSchemeAndWww(host: string)
    ensures NormalizeURLIntended("http://www." + host) == ToLower(host)
  {
    ToLowerAppend("http://www.", host);
    assert ToLower("http://www.") == "http://www.";
    var lower := "http://www." + ToLower(host);
    assert lower[..7] == "http://";
    var rest := lower[7..];
    assert rest == "www." + ToLower(host);
    assert rest[..4] == "www." && rest[4..] == ToLower(host);
  }

  /** As written, normalizeURL removes one character too many after each
      prefix: "http://example.com" and "example.com" normalise differently,
      and the host's first letter is lost. */
  lemma NormalizeURLDropsOneTooMany(host: string)
    requires |host| > 0
    requires !StartsWith(ToLower(host), "http://") && !StartsWith(ToLower(host), "www.")
    requires !StartsWith(ToLower(host)[1..], "www.")
    ensures NormalizeURL(host) == Some(ToLower(host))
    ensures NormalizeURL("http://" + host) == Some(ToLower(host)[1..])
    ensures NormalizeURL("www." + host) == Some(ToLower(host)[1..])
    ensures NormalizeURL("http://" + host) != Some(NormalizeURLIntended("http://" + host))
  {
    NormalizeURLIntendedIgnoresPrefixes(host);
    NormalizeURLAfterScheme(host);
    NormalizeURLAfterWww(host);
    var h := ToLower(host);
    assert |h[1..]| < |h|;
  }

  lemma NormalizeURLAfterScheme(host: string)
    requires |host| > 0 && !StartsWith(ToLower(host)[1..], "www.")
    ensures NormalizeURL("http://" + host) == Some(ToLower(host)[1..])
  {
    ToLowerAppend("http://", host);
    assert ToLower("http://") == "http://";
    var h := ToLower(host);
    var lower := "http://" + h;
    assert lower[..7] == "http://";
    var rest := lower[8..];
    assert rest == h[1..];
  }

  lemma NormalizeURLAfterWww(host: string)
    requires |host| > 0
    ensures NormalizeURL("www." + host) == Some(ToLower(host)[1..])
  {
    ToLowerAppend("www.", host);
    assert ToLower("www.") == "www.";
    var h := ToLower(host);
    var lower := "www." + h;
    assert lower[0] == 'w';
    assert !StartsWith(lower, "http://");
    assert lower[..4] == "www.";
    assert lower[5..] == h[1..];
  }

  /** As written, normalizeURL throws for the bare prefixes. */
  lemma NormalizeURLThrowsOnBarePrefix()
    ensures NormalizeURL("www.") == None
    ensures NormalizeURL("HTTP://") == None
    ensures NormalizeURL("http://xwww.") == None
    ensures NormalizeURLIntended("www.") == ""
  {
    assert ToLower("www.") == "www.";
    assert ToLower("HTTP://") == "http://";
    assert ToLower("http://xwww.") == "http://xwww.";
  }

  /** The URL constructor: count 1; it throws when normalizeURL throws. */
  function NewURL(urlString: string): (r: Option<URL>)
    ensures r.Some? <==> NormalizeURL(urlString).Some?
    ensures r.Some? ==> r.value.urlString == urlString && r.value.hitCount == 1
  {
    if NormalizeURL(urlString).Some? then Some(URL(urlString, 1)) else None
  }

  // ---------------------------------------------------------------------
  // Comparators

  /** URLComparatorDescending.compare. */
  function CompareDescending(a: URL, b: URL): (c: int)
    ensures a.hitCount > b.hitCount ==> c < 0
    ensures a.hitCount < b.hitCount ==> c > 0
    ensures a.hitCount == b.hitCount ==> c == CompareStrings(a.urlString, b.urlString)
    ensures c == 0 <==> a == b
  {
    CompareStringsZero(a.urlString, b.urlString);
    if a.hitCount < b.hitCount then 1
    else if a.hitCount > b.hitCount then -1
    else CompareStrings(a.urlString, b.urlString)
  }

  /** URLComparatorAscending.compare. */
  function CompareAscending(a: URL, b: URL): (c: int)
    ensures a.hitCount < b.hitCount ==> c < 0
    ensures a.hitCount > b.hitCount ==> c > 0
    ensures a.hitCount == b.hitCount ==> c == CompareStrings(a.urlString, b.urlString)
    ensures c == 0 <==> a == b
  {
    CompareStringsZero(a.urlString, b.urlString);
    if a.hitCount < b.hitCount then -1
    else if a.hitCount > b.hitCount then 1
    else CompareStrings(a.urlString, b.urlString)
  }

  /** The ascending comparator is the descending one with the count order reversed. */
  lemma CompareAscendingIsReversedCount(a: URL, b: URL)
    ensures CompareAscending(a, b)
         == CompareDescending(a.(hitCount := -a.hitCount), b.(hitCount := -b.hitCount))
  {
  }

  lemma CompareDescendingAntisymmetric(a: URL, b: URL)
    ensures CompareDescending(a, b) == -CompareDescending(b, a)
  {
    CompareStringsAntisymmetric(a.urlString, b.urlString);
  }

  lemma CompareAscendingAntisymmetric(a: URL, b: URL)
    ensures CompareAscending(a, b) == -CompareAscending(b, a)
  {
    CompareStringsAntisymmetric(a.urlString, b.urlString);
  }

  lemma CompareDescendingTransitive(a: URL, b: URL, c: URL)
    ensures CompareDescending(a, b) <= 0 && CompareDescending(b, c) <= 0 ==> CompareDescending(a, c) <= 0
  {
    CompareStringsTransitive(a.urlString, b.urlString, c.urlString);
  }

  lemma CompareAscendingTransitive(a: URL, b: URL, c: URL)
    ensures CompareAscending(a, b) <= 0 && CompareAscending(b, c) <= 0 ==> CompareAscending(a, c) <= 0
  {
    CompareStringsTransitive(a.urlString, b.urlString, c.urlString);
  }

  /** The comparator printURLStats hands to its priority queue: with
      SORT_DESCENDING the higher count comes first, otherwise the lower one;
      equal counts fall back to the string order either way. */
  function SelectedCompare(a: URL, b: URL): (c: int)
    ensures SortDescending ==> (a.hitCount > b.hitCount ==> c < 0) && (a.hitCount < b.hitCount ==> c > 0)
    ensures !SortDescending ==> (a.hitCount < b.hitCount ==> c < 0) && (a.hitCount > b.hitCount ==> c > 0)
    ensures a.hitCount == b.hitCount ==> c == CompareStrings(a.urlString, b.urlString)
  {
    if SortDescending then CompareDescending(a, b) else CompareAscending(a, b)
  }

  /** The selected comparator is a strict total order on URL values. */
  lemma SelectedCompareIsTotalOrder(a: URL, b: URL, c: URL)
    ensures SelectedCompare(a, b) == 0 <==> a == b
    ensures SelectedCompare(a, b) == -SelectedCompare(b, a)
    ensures SelectedCompare(a, b) <= 0 && SelectedCompare(b, c) <= 0 ==> SelectedCompare(a, c) <= 0
  {
    CompareDescendingAntisymmetric(a, b);
    CompareAscendingAntisymmetric(a, b);
    CompareDescendingTransitive(a, b, c);
    CompareAscendingTransitive(a, b, c);
  }

  // ---------------------------------------------------------------------
  // printURLStats: the order in which the priority queue is drained

  /** `emitted` lists every URL of `urlMap` exactly once (each key's own
      record, no other), in strictly increasing comparator order. */
  ghost predicate SortedListing(urlMap: map<string, URL>, emitted: seq<URL>) {
    (forall u :: u in urlMap ==> urlMap[u] in emitted) &&
    (forall i :: 0 <= i < |emitted| ==>
       emitted[i].urlString in urlMap && urlMap[emitted[i].urlString] == emitted[i]) &&
    (forall i, j :: 0 <= i < j < |emitted| ==> SelectedCompare(emitted[i], emitted[j]) < 0)
  }

  /** PriorityQueue.poll's choice: the position of the least element. */
  method LeastIndex(pool: seq<URL>) returns (m: nat)
    requires |pool| > 0
    ensures m < |pool|
    ensures forall j :: 0 <= j < |pool| ==> SelectedCompare(pool[m], pool[j]) <= 0
  {
    m := 0;
    var i := 1;
    SelectedCompareIsTotalOrder(pool[0], pool[0], pool[0]);
    while i < |pool|
      invariant 0 <= m < i <= |pool|
      invariant forall j :: 0 <= j < i ==> SelectedCompare(pool[m], pool[j]) <= 0
    {
      SelectedCompareIsTotalOrder(pool[i], pool[m], pool[i]);
      if SelectedCompare(pool[i], pool[m]) < 0 {
        forall j | 0 <= j < i
          ensures SelectedCompare(pool[i], pool[j]) <= 0
        {
          SelectedCompareIsTotalOrder(pool[i], pool[m], pool[j]);
        }
        m := i;
      }
      i := i + 1;
    }
  }

  /** Under the descending comparator, a sorted listing never shows a URL
      with more hits after one with fewer. */
  lemma SortedListingHitsDescend(urlMap: map<string, URL>, emitted: seq<URL>, i: int, j: int)
    requires SortDescending
    requires SortedListing(urlMap, emitted)
    requires 0 <= i < j < |emitted|
    ensures emitted[i].hitCount >= emitted[j].hitCount
  {
    assert SelectedCompare(emitted[i], emitted[j]) < 0;
  }

  /** URLs with the same count are listed in String.compareTo order. */
  lemma SortedListingTiesByString(urlMap: map<string, URL>, emitted: seq<URL>, i: int, j: int)
    requires SortedListing(urlMap, emitted)
    requires 0 <= i < j < |emitted| && emitted[i].hitCount == emitted[j].hitCount
    ensures CompareStrings(emitted[i].urlString, emitted[j].urlString) < 0
  {
    assert SelectedCompare(emitted[i], emitted[j]) < 0;
  }

  /** The listing is determined by the map alone: the iteration order of
      the hash map that fills the priority queue does not show. */
  lemma {:induction false} SortedListingUnique(urlMap: map<string, URL>, r1: seq<URL>, r2: seq<URL>)
    requires SortedListing(urlMap, r1) && SortedListing(urlMap, r2)
    ensures r1 == r2
  {
    StrictlySortedUnique(r1, r2);
  }

  lemma {:induction false} StrictlySortedUnique(r1: seq<URL>, r2: seq<URL>)
    requires forall i, j :: 0 <= i < j < |r1| ==> SelectedCompare(r1[i], r1[j]) < 0
    requires forall i, j :: 0 <= i < j < |r2| ==> SelectedCompare(r2[i], r2[j]) < 0
    requires forall x :: x in r1 <==> x in r2
    ensures r1 == r2
    decreases |r1|
  {
    if |r1| > 0 { assert r1[0] in r2; }
    if |r2| > 0 { assert r2[0] in r1; }
    if |r1| > 0 && |r2| > 0 {
      assert r1[0] in r2;
      assert r2[0] in r1;
      HeadIsLeast(r1);
      HeadIsLeast(r2);
      SelectedCompareIsTotalOrder(r1[0], r2[0], r1[0]);
      assert r1[0] == r2[0];
      TailIncluded(r1, r2);
      TailIncluded(r2, r1);
      StrictlySortedUnique(r1[1..], r2[1..]);
      assert r1 == [r1[0]] + r1[1..] && r2 == [r2[0]] + r2[1..];
    }
  }

  /** Past a common least element, what one sorted sequence holds the other
      holds too. */
  lemma TailIncluded(r1: seq<URL>, r2: seq<URL>)
    requires |r1| > 0 && |r2| > 0 && r1[0] == r2[0]
    requires forall i, j :: 0 <= i < j < |r1| ==> SelectedCompare(r1[i], r1[j]) < 0
    requires forall x :: x in r1 ==> x in r2
    ensures forall x :: x in r1[1..] ==> x in r2[1..]
  {
    forall x | x in r1[1..]
      ensures x in r2[1..]
    {
      var k :| 1 <= k < |r1| && r1[k] == x;
      assert SelectedCompare(r1[0], r1[k]) < 0;
      SelectedCompareIsTotalOrder(r1[0], x, x);
      assert x in r2 && x != r2[0];
      var k2 :| 0 <= k2 < |r2| && r2[k2] == x;
      assert r2[1..][k2 - 1] == x;
    }
  }

  /** The first element of a strictly sorted sequence is its least. */
  lemma HeadIsLeast(r: seq<URL>)
    requires |r| > 0
    requires forall i, j :: 0 <= i < j < |r| ==> SelectedCompare(r[i], r[j]) < 0
    ensures forall x :: x in r ==> SelectedCompare(r[0], x) <= 0
  {
    forall x | x in r
      ensures SelectedCompare(r[0], x) <= 0
    {
      SelectedCompareIsTotalOrder(r[0], x, x);
    }
  }

  /** Removing one element of a sequence without repetitions leaves the
      others, still without repetitions. */
  lemma RemoveDistinct(pool: seq<URL>, m: nat)
    requires m < |pool|
    requires forall i, j :: 0 <= i < j < |pool| ==> pool[i] != pool[j]
    ensures var r := pool[..m] + pool[m + 1..];
      (forall x :: x in r <==> x in pool && x != pool[m]) &&
      (forall i, j :: 0 <= i < j < |r| ==> r[i] != r[j])
  {
    var r := pool[..m] + pool[m + 1..];
    assert forall k :: 0 <= k < |r| ==> r[k] == if k < m then pool[k] else pool[k + 1];
    forall x | x in pool && x != pool[m]
      ensures x in r
    {
      var k :| 0 <= k < |pool| && pool[k] == x;
      if k < m {
        assert r[k] == x;
      } else {
        assert r[k - 1] == x;
      }
    }
  }

  /** Draining a priority queue: repeatedly poll its least element. The
      result holds the queue's elements, each once, in strictly increasing
      comparator order. */
  method DrainQueue(queue: seq<URL>) returns (emitted: seq<URL>)
    requires forall i, j :: 0 <= i < j < |queue| ==> queue[i] != queue[j]
    ensures forall x :: x in emitted <==> x in queue
    ensures forall i, j :: 0 <= i < j < |emitted| ==> SelectedCompare(emitted[i], emitted[j]) < 0
  {
    var pool := queue;
    emitted := [];
    while |pool| > 0
      invariant forall x :: x in queue <==> x in pool || x in emitted
      invariant forall i, j :: 0 <= i < j < |pool| ==> pool[i] != pool[j]
      invariant forall i, j :: 0 <= i < |emitted| && 0 <= j < |pool| ==>
        SelectedCompare(emitted[i], pool[j]) < 0
      invariant forall i, j :: 0 <= i < j < |emitted| ==> SelectedCompare(emitted[i], emitted[j]) < 0
      decreases |pool|
    {
      var m := LeastIndex(pool);
      var least := pool[m];
      forall j | 0 <= j < |pool| && j != m
        ensures SelectedCompare(least, pool[j]) < 0
      {
        SelectedCompareIsTotalOrder(least, pool[j], least);
      }
      var remaining := pool[..m] + pool[m + 1..];
      RemoveDistinct(pool, m);
      emitted := emitted + [least];
      pool := remaining;
    }
  }
}
