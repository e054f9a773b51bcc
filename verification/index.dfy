/** The question list of the index page: published questions only, newest
    first, at most five of them. */
module Index {
  import opened Wrappers
  import opened Models

  /** How many questions the index page lists. */
  const PageSize: nat := 5

  /** Non-increasing publication dates. */
  predicate NewestFirst(qs: seq<Question>)
  {
    forall i, j :: 0 <= i < j < |qs| ==> qs[i].pubDate >= qs[j].pubDate
  }

  /** The rows whose publication date is not after `now`, in table order. */
  function Published(qs: seq<Question>, now: Instant): (r: seq<Question>)
    ensures forall q :: q in r <==> q in qs && IsPublished(q, now)
    ensures multiset(r) <= multiset(qs)
    decreases |qs|
  {
    if |qs| == 0 then []
    else
      assert qs == [qs[0]] + qs[1..];
      if IsPublished(qs[0], now) then [qs[0]] + Published(qs[1..], now)
      else Published(qs[1..], now)
  }

  /** Place `q` into a newest-first list, ahead of every question that is
      not newer than it. */
  function Insert(q: Question, sorted: seq<Question>): (r: seq<Question>)
    requires NewestFirst(sorted)
    ensures NewestFirst(r)
    ensures multiset(r) == multiset(sorted) + multiset{q}
    ensures forall x :: x in r ==> x == q || x in sorted
    decreases |sorted|
  {
    if |sorted| == 0 || q.pubDate >= sorted[0].pubDate then
      PrependNewest(q, sorted);
      [q] + sorted
    else
      var head, tail := sorted[0], sorted[1..];
      var rest := Insert(q, tail);
      assert sorted == [head] + tail;
      assert multiset(sorted) == multiset{head} + multiset(tail);
      assert multiset([head] + rest) == multiset{head} + multiset(rest);
      forall x | x in rest
        ensures x.pubDate <= head.pubDate
      {
        if x != q {
          var j :| 0 <= j < |tail| && tail[j] == x;
          assert sorted[j + 1] == x;
        }
      }
      PrependNewest(head, rest);
      [head] + rest
  }

  /** A question no older than anything in a newest-first list may lead it. */
  lemma PrependNewest(head: Question, rest: seq<Question>)
    requires NewestFirst(rest)
    requires forall x :: x in rest ==> x.pubDate <= head.pubDate
    ensures NewestFirst([head] + rest)
  {
    var s := [head] + rest;
    forall i, j | 0 <= i < j < |s|
      ensures s[i].pubDate >= s[j].pubDate
    {
      assert s[j] == rest[j - 1];
      if i > 0 {
        assert s[i] == rest[i - 1];
      }
    }
  }

  /** The ordering step: the same questions, newest first. The database is
      free to order questions with equal dates either way, so no property
      below depends on how ties fall. */
  function SortNewestFirst(qs: seq<Question>): (r: seq<Question>)
    ensures NewestFirst(r)
    ensures multiset(r) == multiset(qs)
    decreases |qs|
  {
    if |qs| == 0 then []
    else
      assert qs == [qs[0]] + qs[1..];
      Insert(qs[0], SortNewestFirst(qs[1..]))
  }

  function Min(a: int, b: int): int
  {
    if a <= b then a else b
  }

  /** The first `k` entries of a newest-first list are newest first, and
      anything in the list newer than one of them is among them. */
  lemma TopOfNewestFirst(sorted: seq<Question>, k: nat)
    requires NewestFirst(sorted) && k <= |sorted|
    ensures NewestFirst(sorted[..k])
    ensures multiset(sorted[..k]) <= multiset(sorted)
    ensures forall q, i :: q in sorted && 0 <= i < k && sorted[i].pubDate < q.pubDate ==> q in sorted[..k]
  {
    assert sorted == sorted[..k] + sorted[k..];
    forall q, i | q in sorted && 0 <= i < k && sorted[i].pubDate < q.pubDate
      ensures q in sorted[..k]
    {
      var j :| 0 <= j < |sorted| && sorted[j] == q;
      assert j < k;
      assert sorted[..k][j] == q;
    }
  }

  /** The index page's question list at instant `now`: filter, order by
      publication date descending, keep the first five. */
  function LatestQuestions(qs: seq<Question>, now: Instant): (r: seq<Question>)
    ensures |r| == Min(PageSize, |Published(qs, now)|)
    ensures forall i :: 0 <= i < |r| ==> IsPublished(r[i], now)
    ensures NewestFirst(r)
    ensures multiset(r) <= multiset(qs)
    ensures forall q, i :: q in qs && IsPublished(q, now) && 0 <= i < |r| && r[i].pubDate < q.pubDate ==> q in r
    ensures |Published(qs, now)| <= PageSize ==> forall q :: q in qs && IsPublished(q, now) ==> q in r
  {
    var published := Published(qs, now);
    var sorted := SortNewestFirst(published);
    var k := Min(PageSize, |published|);
    PageOfSorted(qs, now, published, sorted, k);
    sorted[..k]
  }

  lemma PageOfSorted(qs: seq<Question>, now: Instant, published: seq<Question>, sorted: seq<Question>, k: nat)
    requires forall q :: q in published <==> q in qs && IsPublished(q, now)
    requires multiset(published) <= multiset(qs)
    requires NewestFirst(sorted) && multiset(sorted) == multiset(published)
    requires k == Min(PageSize, |published|)
    ensures k <= |sorted|
    ensures forall i :: 0 <= i < k ==> IsPublished(sorted[i], now)
    ensures NewestFirst(sorted[..k])
    ensures multiset(sorted[..k]) <= multiset(qs)
    ensures forall q, i :: q in qs && IsPublished(q, now) && 0 <= i < k && sorted[i].pubDate < q.pubDate ==> q in sorted[..k]
    ensures |published| <= PageSize ==> forall q :: q in qs && IsPublished(q, now) ==> q in sorted[..k]
  {
    assert |sorted| == |published| by {
      assert |multiset(sorted)| == |multiset(published)|;
    }
    TopOfNewestFirst(sorted, k);
    forall i | 0 <= i < k
      ensures IsPublished(sorted[i], now)
    {
      assert sorted[i] in multiset(published);
    }
    forall q | q in qs && IsPublished(q, now)
      ensures q in sorted
    {
      assert q in multiset(sorted);
    }
    if |published| <= PageSize {
      assert sorted[..k] == sorted;
    }
  }

  /** A page holds at most five questions. */
  lemma PageIsBounded(qs: seq<Question>, now: Instant)
    ensures |LatestQuestions(qs, now)| <= PageSize
  {
  }

  /** A question published in the future never appears on the page. */
  lemma FutureQuestionsHidden(qs: seq<Question>, now: Instant, q: Question)
    requires q.pubDate > now
    ensures q !in LatestQuestions(qs, now)
  {
  }

  /** An empty table lists nothing. */
  lemma EmptyIndex(now: Instant)
    ensures LatestQuestions([], now) == []
  {
  }

  /** A past and a future question: only the past one is listed. */
  lemma FutureAndPastIndex(now: Instant, past: Question, future: Question)
    requires past.pubDate == now - 5 * Day && future.pubDate == now + 3 * Day
    ensures LatestQuestions([past, future], now) == [past]
  {
    var published := Published([past, future], now);
    assert published == [past] by {
      assert [past, future][1..] == [future];
      assert Published([future], now) == Published([], now);
    }
    assert SortNewestFirst([past]) == [past] by {
      assert [past][1..] == [];
    }
  }

  /** Two past questions are listed newest first. */
  lemma TwoPastQuestionsIndex(now: Instant, first: Question, second: Question)
    requires first.pubDate == now - 5 * Day && second.pubDate == now - 4 * Day
    ensures LatestQuestions([first, second], now) == [second, first]
  {
    var both := [first, second];
    assert both[1..] == [second];
    assert [second][1..] == [];
    assert Published([second], now) == [second];
    assert Published(both, now) == both;
    assert SortNewestFirst([second]) == [second];
    assert Insert(first, []) == [first];
    assert Insert(first, [second]) == [second, first];
    assert SortNewestFirst(both) == [second, first];
  }
}
