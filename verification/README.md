# Polls: a verified model of the question windows, the vote ledger and the two views

The polls application shows published questions and lets a signed-in user
open a question and vote on one of its choices. Its vote handler never adds
a second Vote row for a user.
This project models its logic as pure Dafny functions and proves what that logic guarantees:

- `Models` (models.dfy): the `Question` and `Choice` records and the three
  time-window predicates `WasPublishedRecently`, `IsPublished` and `CanVote`.
  Instants are whole seconds. The clock is the explicit argument `now`.
- `Ledger` (ledger.dfy): the Vote table as a sequence of `VoteRow(user, choice)`.
  `Upsert` records a vote. It reassigns the user's existing row, or appends a
  new row when the user has none. `Ballots` reads the table as a map from user
  to choice. `Tally` is the derived vote count of a choice.
- `Index` (index.dfy): the index page's question list. It keeps the questions
  published by `now`, orders them newest first and takes the first five.
- `Views` (views.dfy): the detail page's four-way gate (`DetailGet`) and the
  vote submission (`Vote`). Each returns a `Response` value in place of a
  framework response. The database is a `Db` value holding the three tables.
- `Tables` (tables.dfy): `FirstMatch`, the row lookup the ORM's `get` performs.
  `Wrappers` (wrappers.dfy) holds `Option`.

Four behaviours of the code are worth knowing:

- `vote` never calls `can_vote`. A vote on a closed question is recorded, and
  there is no "voting closed" failure (`Views.ClosedQuestionStillAcceptsVotes`).
- `vote` finds the user's earlier vote by user alone (polls/views.py:78), not
  by user and question. Through this handler a user keeps one vote across all
  questions: a vote on a second question withdraws the vote on the first
  (`Views.VoteScopeIsGlobal`). The model keeps this behaviour as written.
- `DetailView.get` looks the question up among all questions, not only the
  published ones. It is the `can_vote` check that turns an unpublished question
  away (`Views.DetailHidesUnpublished`).
- Nothing stops other code from giving a user two Vote rows (polls/tests.py:211
  and polls/tests.py:217 do so). For such a user the lookup at
  polls/views.py:78 raises, because only the no-row case is caught. The vote
  then fails with a server error and nothing is written (`Views.SecondRowBreaksVote`).

## Model

| member | source | states |
|---|---|---|
| Models.RecentIsPublishedWithinDay | polls/models.py:23-33 | recent exactly when published now but not yet published one day and one second ago; equivalently, when voting would be open under a voting period ending one day after publication |
| Models.RecentBoundaries | polls/tests.py:25-51 | not recent when published in the future, 30 days ahead, or one day and one second ago; recent when published exactly one day ago or 23:59:59 ago |
| Models.PublishedExamples | polls/tests.py:53-63 | a question 30 days ahead is not published; one published a day and a second ago is |
| Models.PublishedStaysPublished | polls/models.py:30-33 | once a question is published it stays published at every later instant |
| Models.CanVoteWithoutEndDate | polls/models.py:40-41 | with no end date, voting is allowed exactly when the question is published |
| Models.CanVoteWithEndDate | polls/models.py:35-42 | an end date only cuts voting short: with one, voting is allowed exactly when it would be allowed without it and the end has not passed |
| Models.WindowsImplyPublished | polls/models.py:23-42 | being votable implies being published, and so does being recently published |
| Models.InvertedWindowNeverVotable | polls/models.py:42 | an end date earlier than the publication date makes voting impossible at every instant |
| Models.VotingPeriodIsInterval | polls/models.py:35-42 | the voting period has no gaps: every instant between two votable instants is votable |
| Models.VotingPeriodExamples | polls/tests.py:65-93 | the day-offset cases: open from yesterday to five days on, not open when the end precedes publication or has passed, open at the publication instant, at the end instant, and without an end date |
| Ledger.FindVote | polls/views.py:78 | the lookup by user finds nothing exactly when the user has no row; it finds several exactly when the user owns two or more rows; otherwise it finds the user's only row |
| Ledger.Upsert | polls/views.py:76-82 | only for a user with at most one row, on whom the lookup succeeds: afterwards the user has one row, naming the new choice; one row per user is preserved; the row count is unchanged on a revote and grows by one on a first vote; other users' rows keep their positions and contents, and no row of another user is added |
| Ledger.UpsertIdempotent | polls/views.py:76-82 | for a user with at most one row, repeating the same vote leaves the table as after the first |
| Ledger.Ballots | polls/views.py:76-82 | the table read as a map: it has a key for exactly the users with a row, and on a one-row-per-user table each row's user maps to that row's choice |
| Ledger.UpsertIsBallotUpdate | polls/views.py:76-82 | on a one-row-per-user table, a vote is exactly the map update of the voter to the new choice; every other user's ballot is unchanged |
| Ledger.Tally | polls/tests.py:197-203 | the derived count of a choice is at most the number of rows and is zero exactly when no row names the choice |
| Ledger.TallyOverwrite | polls/views.py:79-80 | reassigning one row's choice takes one from the old choice's count and adds one to the new choice's count |
| Ledger.TallyAppend | polls/views.py:81-82 | a new row adds one to its choice's count and nothing to the others |
| Ledger.UpsertTally | polls/views.py:76-82 | a vote moves one unit of count from the user's previous choice, if any, to the new choice; all other counts are unchanged |
| Ledger.RevoteExample | polls/tests.py:232-247 | voting X then Y from an empty table leaves one row, X counting zero and Y counting one |
| Index.Published | polls/views.py:24-25 | the filter keeps exactly the rows published by `now`, each no more often than in the table |
| Index.Insert | polls/views.py:26 | inserting into a newest-first list keeps it newest first and adds exactly that question |
| Index.SortNewestFirst | polls/views.py:26 | ordering by publication date descending is a permutation that is newest first |
| Index.TopOfNewestFirst | polls/views.py:26 | a prefix of a newest-first list is newest first, and everything in the list newer than a member of the prefix is in the prefix |
| Index.LatestQuestions | polls/views.py:19-26 | the page holds min(5, number published) questions drawn from the table, all published, newest first; no published question left out is newer than a listed one; with five or fewer published questions all are listed |
| Index.PageIsBounded | polls/views.py:26 | the page never holds more than five questions |
| Index.FutureQuestionsHidden | polls/views.py:24-25 | a question with a future publication date never appears on the page |
| Index.EmptyIndex | polls/tests.py:97-104 | an empty table gives an empty page |
| Index.FutureAndPastIndex | polls/tests.py:130-143 | with one past and one future question only the past one is listed |
| Index.TwoPastQuestionsIndex | polls/tests.py:145-157 | two past questions are listed newest first |
| Views.GetQuestion | polls/views.py:47-48 | the lookup by primary key returns a question of the table with that key, and nothing exactly when no question has that key |
| Views.GetChoice | polls/views.py:68-70 | the choice lookup returns a choice with the posted key that belongs to the question, and nothing exactly when there is no such choice |
| Views.DetailGet | polls/views.py:42-55 | login redirect exactly for anonymous visitors; "doesn't exist" redirect when no question has the key; "not allowed" redirect when the question is not votable at `now`; otherwise the detail page of a votable question with that key |
| Views.DetailHidesUnpublished | polls/views.py:52-54 | the detail page is never rendered for a question that is not yet published |
| Views.Vote | polls/views.py:63-84 | anonymous: login redirect; unknown question: not found; missing field or a choice not of this question: the form is shown again with its error and the table is unchanged; a valid choice from a user with two or more rows: server error, table unchanged; any other valid choice: results redirect with the vote recorded by `Upsert`; the table changes only on success |
| Views.InvalidChoiceRedisplaysForm | polls/views.py:68-75 | a signed-in vote on an existing question whose `choice` field is missing or names no choice of that question shows the form again with "You didn't select a choice." and leaves the table unchanged |
| Views.VoteKeepsOneVotePerUser | polls/views.py:76-82 | a vote keeps one row per user, and a successful vote updates the voter's ballot to the posted choice |
| Views.VoteIdempotent | polls/views.py:63-84 | submitting the same vote again gives the same answer and the same table |
| Views.VoteScopeIsGlobal | polls/views.py:78 | a vote on one question removes the voter's earlier vote for a choice of another question; that choice loses one vote and the row count is unchanged |
| Views.SecondRowBreaksVote | polls/views.py:76-82 | a user owning two rows, as polls/tests.py:211 and polls/tests.py:217 create, gets a server error for a valid vote and the table is unchanged |
| Views.ClosedQuestionStillAcceptsVotes | polls/views.py:63-84 | a valid choice of a question outside its voting period is still recorded, for a user with at most one row |

## Left out

- The web framework: templates, `messages`, URL reversing, `HttpResponseRedirect`, `render` and the hard-coded login URL. Responses are `Response` values, and the flashed messages are the strings in `IndexRedirect` and `RenderDetail`.
- Authentication, `login_required` and `LoginRequiredMixin`. A request is reduced to a `Visitor` that is `Anonymous` or a `Member(user)`.
- `timezone.localtime()` and time zones. `now` is an integer parameter in seconds, and sub-second precision is not modelled.
- `DetailView.get_queryset` is not modelled, because `get` overrides the lookup and never uses it.
- `ResultsView`, `EyesOnlyView`, `__str__` and the `admin.display` decorator are not modelled. They are configuration without logic.
- The stored `Choice.votes` integer field is not modelled, because nothing in the views updates it. `Ledger.Tally` counts Vote rows instead.
- The `Vote` and `User` models are not part of this model's sources. The Vote table is modelled from how `vote` reads and writes it.
- The 200-character limits on question and choice text are database column constraints and are not modelled.
- Ordering of questions with equal publication dates: the database may order such ties either way. `SortNewestFirst` fixes one order, and no stated property depends on it.
- A `choice` form value that is not a number makes the ORM raise an error that `vote` does not catch. The posted value is modelled as an optional integer, so this case is not modelled.
- The uniqueness of question and choice primary keys is a database guarantee, not modelled as an invariant. Those two lookups return the first matching row, and the contracts of `DetailGet` and `Vote` hold whether keys are unique or not. The user column of the Vote table is not a key; several rows for one user are modelled (`Ledger.FindVote`).
- Concurrent vote requests and their races are not modelled.
