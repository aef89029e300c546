/**
 * The read-only views of the polls application: the index listing, the
 * detail page and the results page. Each is a query over the stored
 * questions; `now` stands for the server clock at the time of the request.
 */
module Views {

  import opened Wrappers
  import opened Models

  /** The index page shows at most this many questions. */
  const PageSize: nat := 5

  /** Newest first: publication timestamps never increase along the sequence. */
  ghost predicate NewestFirstOrder(s: seq<Question>)
  {
    forall i, j :: 0 <= i < j < |s| ==> s[i].pubDate >= s[j].pubDate
  }

  /** The questions published at or before `now`, in store order. */
  function PublishedBy(qs: seq<Question>, now: int): (r: seq<Question>)
    ensures forall q :: q in r <==> q in qs && q.pubDate <= now
    ensures forall q :: multiset(r)[q] == if q.pubDate <= now then multiset(qs)[q] else 0
    ensures |r| <= |qs|
  {
    if qs == [] then []
    else
      assert qs == [qs[0]] + qs[1..];
      if qs[0].pubDate <= now then [qs[0]] + PublishedBy(qs[1..], now)
      else PublishedBy(qs[1..], now)
  }

  /** The questions published strictly before `now`, in store order. */
  function PublishedBefore(qs: seq<Question>, now: int): (r: seq<Question>)
    ensures forall q :: q in r <==> q in qs && q.pubDate < now
    ensures forall q :: multiset(r)[q] == if q.pubDate < now then multiset(qs)[q] else 0
    ensures |r| <= |qs|
  {
    if qs == [] then []
    else
      assert qs == [qs[0]] + qs[1..];
      if qs[0].pubDate < now then [qs[0]] + PublishedBefore(qs[1..], now)
      else PublishedBefore(qs[1..], now)
  }

  /**
   * Places `q` into a newest-first sequence, ahead of every question that is
   * not newer than it and behind every question that is.
   */
  function InsertByDate(q: Question, s: seq<Question>): (r: seq<Question>)
    ensures |r| == |s| + 1
  {
    if s == [] || q.pubDate >= s[0].pubDate then [q] + s
    else [s[0]] + InsertByDate(q, s[1..])
  }

  /** Inserting adds exactly `q` and keeps a newest-first sequence newest first. */
  lemma {:induction false} InsertByDateSound(q: Question, s: seq<Question>)
    ensures multiset(InsertByDate(q, s)) == multiset(s) + multiset{q}
    ensures NewestFirstOrder(s) ==> NewestFirstOrder(InsertByDate(q, s))
  {
    if s != [] && q.pubDate < s[0].pubDate {
      var t := InsertByDate(q, s[1..]);
      InsertByDateSound(q, s[1..]);
      assert s == [s[0]] + s[1..];
      assert InsertByDate(q, s) == [s[0]] + t;
      if NewestFirstOrder(s) {
        InsertKeepsHead(q, s, t);
      }
    }
  }

  /** The head of a newest-first sequence stays ahead of the rest after an older question joins it. */
  lemma InsertKeepsHead(q: Question, s: seq<Question>, t: seq<Question>)
    requires s != [] && q.pubDate < s[0].pubDate
    requires NewestFirstOrder(s) && NewestFirstOrder(t)
    requires multiset(t) == multiset(s[1..]) + multiset{q}
    ensures NewestFirstOrder([s[0]] + t)
  {
    forall k | 0 <= k < |t| ensures s[0].pubDate >= t[k].pubDate {
      assert t[k] in multiset(t);
      if t[k] != q {
        assert t[k] in s[1..];
      }
    }
  }

  /**
   * The questions ordered by publication timestamp, newest first; questions
   * with equal timestamps keep their store order.
   */
  function NewestFirst(s: seq<Question>): (r: seq<Question>)
    ensures |r| == |s|
  {
    if s == [] then [] else InsertByDate(s[0], NewestFirst(s[1..]))
  }

  /** Sorting reorders the questions without adding or dropping any, and yields newest first. */
  lemma {:induction false} NewestFirstSound(s: seq<Question>)
    ensures multiset(NewestFirst(s)) == multiset(s)
    ensures NewestFirstOrder(NewestFirst(s))
  {
    if s != [] {
      NewestFirstSound(s[1..]);
      InsertByDateSound(s[0], NewestFirst(s[1..]));
      assert s == [s[0]] + s[1..];
    }
  }

  /** The eligible questions in listing order, before the page cut. */
  function Ranked(qs: seq<Question>, now: int): (r: seq<Question>)
    ensures multiset(r) == multiset(PublishedBy(qs, now))
    ensures forall q :: q in r <==> q in qs && q.pubDate <= now
    ensures NewestFirstOrder(r)
  {
    var r := NewestFirst(PublishedBy(qs, now));
    NewestFirstSound(PublishedBy(qs, now));
    assert forall q :: q in r <==> q in multiset(r);
    r
  }

  /**
   * The index listing: the published questions, newest first, cut to the
   * first `PageSize` of them; no question appears more often than it is
   * stored.
   */
  function Index(qs: seq<Question>, now: int): (r: seq<Question>)
    ensures |r| <= PageSize
    ensures forall q :: q in r ==> q in qs && q.pubDate <= now
    ensures NewestFirstOrder(r)
    ensures multiset(r) <= multiset(PublishedBy(qs, now))
  {
    var ranked := Ranked(qs, now);
    if |ranked| <= PageSize then ranked
    else
      assert ranked == ranked[..PageSize] + ranked[PageSize..];
      ranked[..PageSize]
  }

  /**
   * The detail page: the question with primary key `id` among those
   * published strictly before `now`; None stands for the 404 response.
   */
  function Detail(qs: seq<Question>, id: int, now: int): (r: Option<Question>)
    ensures r.Some? ==> r.value in qs && r.value.id == id && r.value.pubDate < now
    ensures r.None? <==> forall q :: q in qs && q.id == id ==> q.pubDate >= now
  {
    FindQuestion(PublishedBefore(qs, now), id)
  }

  /**
   * The results page: the question with primary key `id`, whatever its
   * publication timestamp; None stands for the 404 response.
   */
  function Results(qs: seq<Question>, id: int): (r: Option<Question>)
    ensures r.Some? ==> r.value in qs && r.value.id == id
    ensures r.None? <==> forall q :: q in qs ==> q.id != id
  {
    FindQuestion(qs, id)
  }

  /**
   * A published question missing from the listing is no newer than any
   * listed one, and it is missing only because the page is full.
   */
  lemma IndexKeepsNewest(qs: seq<Question>, now: int, q: Question)
    requires q in qs && q.pubDate <= now
    requires q !in Index(qs, now)
    ensures |Index(qs, now)| == PageSize
    ensures forall p :: p in Index(qs, now) ==> q.pubDate <= p.pubDate
  {
    var ranked := Ranked(qs, now);
    var j :| 0 <= j < |ranked| && ranked[j] == q;
    assert PageSize <= j;
    forall p | p in Index(qs, now) ensures q.pubDate <= p.pubDate {
      var i :| 0 <= i < PageSize && ranked[..PageSize][i] == p;
      assert ranked[i] == p;
    }
  }

  /**
   * With at most `PageSize` published questions the listing shows every one
   * of them, each as often as it is stored.
   */
  lemma IndexShowsAllWhenFew(qs: seq<Question>, now: int)
    requires |PublishedBy(qs, now)| <= PageSize
    ensures multiset(Index(qs, now)) == multiset(PublishedBy(qs, now))
    ensures forall q :: q in Index(qs, now) <==> q in qs && q.pubDate <= now
  {
    NewestFirstSound(PublishedBy(qs, now));
  }

  /** The listing is as long as the page allows, or as the published questions allow. */
  lemma IndexLength(qs: seq<Question>, now: int)
    ensures |Index(qs, now)| == if |PublishedBy(qs, now)| <= PageSize then |PublishedBy(qs, now)| else PageSize
  {
    NewestFirstSound(PublishedBy(qs, now));
    assert |multiset(Ranked(qs, now))| == |multiset(PublishedBy(qs, now))|;
  }

  /** With nothing published yet the listing is empty. */
  lemma IndexEmptyWhenNothingPublished(qs: seq<Question>, now: int)
    requires forall q :: q in qs ==> q.pubDate > now
    ensures Index(qs, now) == []
  {
  }

  /**
   * The detail page finds a question exactly when it is stored under that
   * key and was published strictly before `now`.
   */
  lemma DetailExact(qs: seq<Question>, id: int, now: int, q: Question)
    requires UniqueIds(qs)
    ensures Detail(qs, id, now) == Some(q) <==> q in qs && q.id == id && q.pubDate < now
  {
    var r := Detail(qs, id, now);
    if q in qs && q.id == id && q.pubDate < now {
      SameIdSameQuestion(qs, r.value, q);
    }
  }

  /**
   * The boundaries differ: a question published exactly at `now` is eligible
   * for the listing and has a results page, but its detail page is a 404.
   */
  lemma PublishedNowListableNotViewable(qs: seq<Question>, q: Question, now: int)
    requires UniqueIds(qs)
    requires q in qs && q.pubDate == now
    ensures q in Ranked(qs, now)
    ensures Detail(qs, q.id, now) == None
    ensures Results(qs, q.id) == Some(q)
  {
    FindQuestionExact(qs, q.id, q);
    forall p | p in qs && p.id == q.id ensures p.pubDate >= now {
      SameIdSameQuestion(qs, p, q);
    }
  }

  /**
   * Every question with a detail page is eligible for the listing, and its
   * results page shows the same question.
   */
  lemma DetailImpliesListedAndResults(qs: seq<Question>, id: int, now: int)
    requires UniqueIds(qs)
    requires Detail(qs, id, now).Some?
    ensures Detail(qs, id, now).value in Ranked(qs, now)
    ensures Results(qs, id) == Detail(qs, id, now)
  {
    FindQuestionExact(qs, id, Detail(qs, id, now).value);
  }

  /** A past and a future question: only the past one is listed. */
  lemma PastAndFutureQuestion(past: Question, future: Question, now: int)
    requires past.pubDate < now < future.pubDate
    ensures Index([past, future], now) == [past]
  {
    assert PublishedBy([past, future], now) == [past];
  }

  /** Two past questions are listed with the more recent one first, whatever their store order. */
  lemma TwoPastQuestions(newer: Question, older: Question, now: int)
    requires older.pubDate < newer.pubDate < now
    ensures Index([newer, older], now) == [newer, older]
    ensures Index([older, newer], now) == [newer, older]
  {
    assert PublishedBy([newer, older], now) == [newer, older];
    assert PublishedBy([older, newer], now) == [older, newer];
    SortTwo(newer, older);
  }

  /** Sorting two questions with different timestamps puts the newer one first. */
  lemma SortTwo(newer: Question, older: Question)
    requires older.pubDate < newer.pubDate
    ensures NewestFirst([newer, older]) == [newer, older]
    ensures NewestFirst([older, newer]) == [newer, older]
  {
    assert [newer, older][1..] == [older];
    assert [older, newer][1..] == [newer];
    assert [older][1..] == [] && [newer][1..] == [];
    assert NewestFirst([older]) == [older];
    assert NewestFirst([newer]) == [newer];
    assert InsertByDate(older, []) == [older];
  }

}
