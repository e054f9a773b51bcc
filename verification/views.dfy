/** The request handlers of the polls application as pure functions: the
    detail page's gate and the vote submission. Framework responses become
    values of `Response`; the database is the `Db` value passed in. */
module Views {
  import opened Wrappers
  import opened Tables
  import opened Models
  import opened Ledger

  /** Who sent the request. */
  datatype Visitor = Anonymous | Member(user: UserId)

  /** The three tables the handlers read: questions, choices and votes. */
  datatype Db = Db(questions: seq<Question>, choices: seq<Choice>, votes: Votes)

  /** What a handler answers. `RenderDetail` is the detail page, with the
      error line the vote form shows after a bad submission. `ServerError`
      is an exception the handler does not catch. */
  datatype Response =
    | LoginRedirect
    | NotFound
    | IndexRedirect(message: string)
    | RenderDetail(question: Question, errorMessage: Option<string>)
    | ResultsRedirect(questionId: QuestionId)
    | ServerError

  const MissingPoll: string := "Poll dosen't exist."
  const VotingNotAllowed: string := "Voting is not allowed on this question"
  const NoChoiceSelected: string := "You didn't select a choice."

  /** The question with primary key `pk`. */
  function GetQuestion(questions: seq<Question>, pk: QuestionId): (r: Option<Question>)
    ensures r.Some? ==> r.value in questions && r.value.id == pk
    ensures r.None? <==> forall q :: q in questions ==> q.id != pk
  {
    match FirstMatch(questions, (q: Question) => q.id == pk)
    case Some(i) => Some(questions[i])
    case None => None
  }

  /** The choice with primary key `pk` among the choices of `question`. */
  function GetChoice(choices: seq<Choice>, question: QuestionId, pk: int): (r: Option<Choice>)
    ensures r.Some? ==> r.value in choices && r.value.id == pk && r.value.question == question
    ensures r.None? <==> forall c :: c in choices ==> c.id != pk || c.question != question
  {
    match FirstMatch(choices, (c: Choice) => c.id == pk && c.question == question)
    case Some(i) => Some(choices[i])
    case None => None
  }

  /** The detail page: sign-in first, then the question must exist, then
      voting on it must be open at `now`. The lookup is over all questions,
      published or not. */
  function DetailGet(visitor: Visitor, questions: seq<Question>, pk: QuestionId, now: Instant): (r: Response)
    ensures visitor.Anonymous? <==> r == LoginRedirect
    ensures visitor.Member? && (forall q :: q in questions ==> q.id != pk) ==> r == IndexRedirect(MissingPoll)
    ensures visitor.Member? && (exists q :: q in questions && q.id == pk)
            && (forall q :: q in questions && q.id == pk ==> !CanVote(q, now))
            ==> r == IndexRedirect(VotingNotAllowed)
    ensures visitor.Member? && (exists q :: q in questions && q.id == pk)
            && (forall q :: q in questions && q.id == pk ==> CanVote(q, now))
            ==> r.RenderDetail?
    ensures r.RenderDetail? ==>
      r.question in questions && r.question.id == pk && CanVote(r.question, now) && r.errorMessage.None?
    ensures r.IndexRedirect? ==> r.message == MissingPoll || r.message == VotingNotAllowed
    ensures !r.NotFound? && !r.ResultsRedirect? && !r.ServerError?
  {
    if visitor.Anonymous? then LoginRedirect
    else match GetQuestion(questions, pk)
      case None => IndexRedirect(MissingPoll)
      case Some(question) =>
        if !CanVote(question, now) then IndexRedirect(VotingNotAllowed)
        else RenderDetail(question, None)
  }

  /** The detail page never shows a question that is not yet published. */
  lemma DetailHidesUnpublished(visitor: Visitor, questions: seq<Question>, pk: QuestionId, now: Instant)
    ensures var r := DetailGet(visitor, questions, pk, now);
      r.RenderDetail? ==> IsPublished(r.question, now)
  {
    var r := DetailGet(visitor, questions, pk, now);
    if r.RenderDetail? {
      WindowsImplyPublished(r.question, now);
    }
  }

  /** A handler's answer together with the Vote table afterwards. */
  datatype VoteReply = VoteReply(response: Response, votes: Votes)

  /** The vote submission for question `questionId`; `posted` is the form's
      `choice` field, absent when the form did not send one. The user's
      earlier vote is found by user alone, whatever question it was for, and
      the voting period is not consulted. When the user already owns several
      Vote rows that lookup raises, the request fails and nothing is written. */
  function Vote(db: Db, visitor: Visitor, questionId: QuestionId, posted: Option<int>): (r: VoteReply)
    ensures visitor.Anonymous? ==> r == VoteReply(LoginRedirect, db.votes)
    ensures r.response == LoginRedirect ==> visitor.Anonymous?
    ensures r.response == NotFound <==>
      visitor.Member? && forall q :: q in db.questions ==> q.id != questionId
    ensures r.response.RenderDetail? ==>
      r.response.errorMessage == Some(NoChoiceSelected) && r.response.question in db.questions
      && r.response.question.id == questionId
      && (posted.None? || forall c :: c in db.choices && c.id == posted.value ==> c.question != questionId)
    ensures r.response.ResultsRedirect? ==>
      visitor.Member? && r.response.questionId == questionId && posted.Some?
      && (exists c :: c in db.choices && c.id == posted.value && c.question == questionId)
      && AtMostOneRow(db.votes, visitor.user)
      && r.votes == Upsert(db.votes, visitor.user, posted.value)
    ensures visitor.Member? && (exists q :: q in db.questions && q.id == questionId) && posted.Some?
            && (exists c :: c in db.choices && c.id == posted.value && c.question == questionId)
            ==> (r.response.ResultsRedirect? <==> AtMostOneRow(db.votes, visitor.user))
    ensures r.response == ServerError <==>
      visitor.Member? && (exists q :: q in db.questions && q.id == questionId) && posted.Some?
      && (exists c :: c in db.choices && c.id == posted.value && c.question == questionId)
      && !AtMostOneRow(db.votes, visitor.user)
    ensures !r.response.ResultsRedirect? ==> r.votes == db.votes
    ensures !r.response.IndexRedirect?
  {
    if visitor.Anonymous? then VoteReply(LoginRedirect, db.votes)
    else match GetQuestion(db.questions, questionId)
      case None => VoteReply(NotFound, db.votes)
      case Some(question) =>
        var selected := if posted.None? then None else GetChoice(db.choices, question.id, posted.value);
        match selected
        case None => VoteReply(RenderDetail(question, Some(NoChoiceSelected)), db.votes)
        case Some(choice) =>
          if FindVote(db.votes, visitor.user) == SeveralVotes then VoteReply(ServerError, db.votes)
          else VoteReply(ResultsRedirect(question.id), Upsert(db.votes, visitor.user, choice.id))
  }

  /** A vote keeps the Vote table at one row per user, and afterwards the
      voter's row names the chosen choice. */
  lemma VoteKeepsOneVotePerUser(db: Db, visitor: Visitor, questionId: QuestionId, posted: Option<int>)
    requires OneVotePerUser(db.votes)
    ensures var r := Vote(db, visitor, questionId, posted);
      OneVotePerUser(r.votes)
      && (r.response.ResultsRedirect? ==> Ballots(r.votes) == Ballots(db.votes)[visitor.user := posted.value])
  {
    var r := Vote(db, visitor, questionId, posted);
    if r.response.ResultsRedirect? {
      UpsertIsBallotUpdate(db.votes, visitor.user, posted.value);
    }
  }

  /** Submitting the same vote twice leaves the same table as submitting it once. */
  lemma VoteIdempotent(db: Db, visitor: Visitor, questionId: QuestionId, posted: Option<int>)
    ensures var r := Vote(db, visitor, questionId, posted);
      Vote(db.(votes := r.votes), visitor, questionId, posted) == r
  {
    var r := Vote(db, visitor, questionId, posted);
    if r.response.ResultsRedirect? {
      UpsertIdempotent(db.votes, visitor.user, posted.value);
    }
  }

  /** A signed-in vote on an existing question without a valid choice of
      that question shows the form again and records nothing. */
  lemma InvalidChoiceRedisplaysForm(db: Db, user: UserId, questionId: QuestionId, posted: Option<int>)
    requires exists q :: q in db.questions && q.id == questionId
    requires posted.None? || forall c :: c in db.choices && c.id == posted.value ==> c.question != questionId
    ensures var r := Vote(db, Member(user), questionId, posted);
      r.response.RenderDetail? && r.response.errorMessage == Some(NoChoiceSelected) && r.votes == db.votes
  {
    var r := Vote(db, Member(user), questionId, posted);
    assert r.response != NotFound;
    assert !r.response.ResultsRedirect?;
  }

  /** The lookup by user alone: a successful vote on one question withdraws
      the voter's earlier vote on a choice of any other question. */
  lemma VoteScopeIsGlobal(db: Db, user: UserId, questionId: QuestionId, picked: ChoiceId, earlier: ChoiceId)
    requires OneVotePerUser(db.votes)
    requires VoteRow(user, earlier) in db.votes && earlier != picked
    requires exists q :: q in db.questions && q.id == questionId
    requires exists c :: c in db.choices && c.id == picked && c.question == questionId
    ensures var r := Vote(db, Member(user), questionId, Some(picked));
      VoteRow(user, earlier) !in r.votes
      && Tally(r.votes, earlier) + 1 == Tally(db.votes, earlier)
      && |r.votes| == |db.votes|
  {
    var r := Vote(db, Member(user), questionId, Some(picked));
    var i :| 0 <= i < |db.votes| && db.votes[i] == VoteRow(user, earlier);
    assert HasVoted(db.votes, user);
    assert Ballots(db.votes)[user] == earlier;
    UpsertTally(db.votes, user, picked, earlier);
  }

  /** A user who already owns two Vote rows, as test code creates directly,
      cannot vote: the lookup raises and the table is left as it was. */
  lemma SecondRowBreaksVote(q: Question, c: Choice, user: UserId, first: ChoiceId, second: ChoiceId)
    requires c.question == q.id
    ensures var db := Db([q], [c], [VoteRow(user, first), VoteRow(user, second)]);
      Vote(db, Member(user), q.id, Some(c.id)) == VoteReply(ServerError, db.votes)
  {
    var db := Db([q], [c], [VoteRow(user, first), VoteRow(user, second)]);
    assert !AtMostOneRow(db.votes, user) by {
      assert db.votes[0].user == user && db.votes[1].user == user;
    }
  }

  /** The vote handler never consults the voting period: a valid choice of
      a question whose voting has closed (or not yet opened) is recorded. */
  lemma ClosedQuestionStillAcceptsVotes(db: Db, user: UserId, q: Question, c: Choice, now: Instant)
    requires q in db.questions && c in db.choices && c.question == q.id
    requires AtMostOneRow(db.votes, user)
    requires !CanVote(q, now)
    ensures var r := Vote(db, Member(user), q.id, Some(c.id));
      r.response == ResultsRedirect(q.id) && VoteRow(user, c.id) in r.votes
  {
  }
}
