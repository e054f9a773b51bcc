/** The `Question` and `Choice` records of the polls application and the
    three time-window predicates on a question. Instants are whole seconds
    and the current instant `now` is an explicit argument. */
module Models {
  import opened Wrappers

  type QuestionId = nat
  type ChoiceId = nat

  /** An instant, in seconds. */
  type Instant = int

  /** One day, in seconds. */
  const Day: int := 86400

  /** A poll question. `endDate` is the nullable end of the voting period. */
  datatype Question = Question(id: QuestionId, text: string, pubDate: Instant, endDate: Option<Instant>)

  /** One answer of a question; `question` is the owning question's id. */
  datatype Choice = Choice(id: ChoiceId, question: QuestionId, text: string)

  /** Published within the last day, `now` included and the future excluded. */
  predicate WasPublishedRecently(q: Question, now: Instant)
  {
    now - Day <= q.pubDate <= now
  }

  /** The publication instant has been reached. */
  predicate IsPublished(q: Question, now: Instant)
  {
    now >= q.pubDate
  }

  /** Inside the voting period: from publication on, and up to the end date
      when there is one; both ends are inclusive. */
  predicate CanVote(q: Question, now: Instant)
  {
    if q.endDate == None then q.pubDate <= now
    else q.pubDate <= now <= q.endDate.value
  }

  /** Recency through the other two predicates: a question is recent exactly
      when it is published now but was not yet published one day and one
      second ago; equivalently, when voting would be open on it if its voting
      period were the day that follows publication. */
  lemma RecentIsPublishedWithinDay(q: Question, now: Instant)
    ensures WasPublishedRecently(q, now) <==> IsPublished(q, now) && !IsPublished(q, now - Day - 1)
    ensures WasPublishedRecently(q, now) <==> CanVote(q.(endDate := Some(q.pubDate + Day)), now)
  {
  }

  lemma RecentBoundaries(q: Question, now: Instant)
    ensures q.pubDate > now ==> !WasPublishedRecently(q, now)
    ensures q.pubDate == now - Day - 1 ==> !WasPublishedRecently(q, now)
    ensures q.pubDate == now - Day ==> WasPublishedRecently(q, now)
    ensures q.pubDate == now - (23 * 3600 + 59 * 60 + 59) ==> WasPublishedRecently(q, now)
    ensures q.pubDate == now + 30 * Day ==> !WasPublishedRecently(q, now)
  {
  }

  /** A question 30 days ahead is not published; one published a day and a
      second ago is. */
  lemma PublishedExamples(q: Question, now: Instant)
    ensures q.pubDate == now + 30 * Day ==> !IsPublished(q, now)
    ensures q.pubDate == now - Day - 1 ==> IsPublished(q, now)
  {
  }

  /** Once published, a question stays published. */
  lemma PublishedStaysPublished(q: Question, t: Instant, t': Instant)
    requires t <= t'
    ensures IsPublished(q, t) ==> IsPublished(q, t')
  {
  }

  /** Without an end date the voting period is exactly the published period. */
  lemma CanVoteWithoutEndDate(q: Question, now: Instant)
    requires q.endDate.None?
    ensures CanVote(q, now) <==> IsPublished(q, now)
  {
  }

  /** An end date only cuts the open-ended voting period short: voting is
      allowed exactly when it would be without the end date and the end has
      not passed. */
  lemma CanVoteWithEndDate(q: Question, now: Instant, end: Instant)
    requires q.endDate == Some(end)
    ensures CanVote(q, now) <==> CanVote(q.(endDate := None), now) && now <= end
  {
  }

  /** Both voting and recency imply publication. */
  lemma WindowsImplyPublished(q: Question, now: Instant)
    ensures CanVote(q, now) ==> IsPublished(q, now)
    ensures WasPublishedRecently(q, now) ==> IsPublished(q, now)
  {
  }

  /** An end date before the publication date leaves no instant at which
      voting is allowed. */
  lemma InvertedWindowNeverVotable(q: Question, now: Instant)
    requires q.endDate.Some? && q.endDate.value < q.pubDate
    ensures !CanVote(q, now)
  {
  }

  /** The voting period has no gaps: between two votable instants every
      instant is votable. */
  lemma VotingPeriodIsInterval(q: Question, t1: Instant, t: Instant, t2: Instant)
    requires t1 <= t <= t2
    requires CanVote(q, t1) && CanVote(q, t2)
    ensures CanVote(q, t)
  {
  }

  /** Voting periods set up relative to `now` as whole days. */
  lemma VotingPeriodExamples(now: Instant)
    ensures CanVote(Question(0, "", now - Day, Some(now + 5 * Day)), now)
    ensures !CanVote(Question(0, "", now + 5 * Day, Some(now + 3 * Day)), now)
    ensures !CanVote(Question(0, "", now - 2 * Day, Some(now - Day)), now)
    ensures CanVote(Question(0, "", now, Some(now + 5 * Day)), now)
    ensures CanVote(Question(0, "", now - Day, Some(now)), now)
    ensures CanVote(Question(0, "", now - Day, None), now)
  {
  }
}
