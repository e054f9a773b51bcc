/** The vote ledger: the rows of the Vote table as `vote` reads and writes
    them. A row links a user to the choice they picked. `vote` finds the
    user's row by user alone, whatever question it is for, and never adds a
    second row for a user; nothing stops other code from adding one. */
module Ledger {
  import opened Wrappers
  import opened Tables
  import opened Models

  type UserId = nat

  datatype VoteRow = VoteRow(user: UserId, choice: ChoiceId)

  type Votes = seq<VoteRow>

  /** The ledger's invariant: no user owns two rows. */
  predicate OneVotePerUser(votes: Votes)
  {
    forall i, j :: 0 <= i < j < |votes| ==> votes[i].user != votes[j].user
  }

  predicate HasVoted(votes: Votes, user: UserId)
  {
    exists i :: 0 <= i < |votes| && votes[i].user == user
  }

  /** No user other than `user` matters here: `user` owns at most one row. */
  predicate AtMostOneRow(votes: Votes, user: UserId)
  {
    forall i, j :: 0 <= i < j < |votes| && votes[i].user == user ==> votes[j].user != user
  }

  /** What the ORM's `get(user=...)` on the Vote table finds: no row, exactly
      one row (at `index`), or several rows, on which `get` raises. */
  datatype VoteLookup = NoVote | OneVote(index: nat) | SeveralVotes

  /** The lookup by user only. */
  function FindVote(votes: Votes, user: UserId): (r: VoteLookup)
    ensures r == NoVote <==> !HasVoted(votes, user)
    ensures r.OneVote? ==> r.index < |votes| && votes[r.index].user == user
    ensures r.OneVote? ==> forall j :: 0 <= j < |votes| && j != r.index ==> votes[j].user != user
    ensures r == SeveralVotes <==> !AtMostOneRow(votes, user)
  {
    var isUsers := (row: VoteRow) => row.user == user;
    match FirstMatch(votes, isUsers)
    case None => NoVote
    case Some(i) =>
      var later := votes[i + 1..];
      match FirstMatch(later, isUsers)
      case None =>
        assert forall j :: i < j < |votes| ==> votes[j] == later[j - i - 1];
        OneVote(i)
      case Some(k) =>
        assert votes[i + 1 + k] == later[k];
        SeveralVotes
  }

  /** Record `user`'s choice once the lookup has succeeded: reassign the
      choice of the user's row, or append a new row when the user has none. */
  function Upsert(votes: Votes, user: UserId, choice: ChoiceId): (r: Votes)
    requires AtMostOneRow(votes, user)
    ensures VoteRow(user, choice) in r
    ensures AtMostOneRow(r, user)
    ensures OneVotePerUser(votes) ==> OneVotePerUser(r)
    ensures forall i :: 0 <= i < |r| && r[i].user == user ==> r[i].choice == choice
    ensures HasVoted(votes, user) ==> |r| == |votes|
    ensures !HasVoted(votes, user) ==> |r| == |votes| + 1
    ensures forall i :: 0 <= i < |votes| && votes[i].user != user ==> r[i] == votes[i]
    ensures forall i :: 0 <= i < |r| && r[i].user != user ==> i < |votes| && r[i] == votes[i]
  {
    var found := FindVote(votes, user);
    if found.OneVote? then
      var r := votes[found.index := VoteRow(user, choice)];
      assert r[found.index] == VoteRow(user, choice);
      r
    else
      votes + [VoteRow(user, choice)]
  }

  /** Repeating the same vote changes nothing. */
  lemma UpsertIdempotent(votes: Votes, user: UserId, choice: ChoiceId)
    requires AtMostOneRow(votes, user)
    ensures Upsert(Upsert(votes, user, choice), user, choice) == Upsert(votes, user, choice)
  {
    var r := Upsert(votes, user, choice);
    var found := FindVote(votes, user);
    if found.OneVote? {
      assert FindVote(r, user) == OneVote(found.index);
    } else {
      assert r[|votes|].user == user;
      assert FindVote(r, user) == OneVote(|votes|);
    }
  }

  /** The ledger read as a map from user to chosen choice; on a ledger
      with one row per user, each row is its user's ballot. */
  function Ballots(votes: Votes): (m: map<UserId, ChoiceId>)
    ensures forall u :: u in m <==> HasVoted(votes, u)
    ensures OneVotePerUser(votes) ==>
      forall i :: 0 <= i < |votes| ==> votes[i].user in m && m[votes[i].user] == votes[i].choice
    decreases |votes|
  {
    if |votes| == 0 then map[]
    else
      var last := votes[|votes| - 1];
      Ballots(votes[..|votes| - 1])[last.user := last.choice]
  }

  /** On a well-formed ledger, a vote is exactly a map update: the user now
      maps to the new choice and every other user's ballot is untouched. */
  lemma UpsertIsBallotUpdate(votes: Votes, user: UserId, choice: ChoiceId)
    requires OneVotePerUser(votes)
    ensures Ballots(Upsert(votes, user, choice)) == Ballots(votes)[user := choice]
  {
    var r := Upsert(votes, user, choice);
    var k :| 0 <= k < |r| && r[k] == VoteRow(user, choice);
    BallotsAfterUpsert(votes, r, user, choice, k);
  }

  lemma BallotsAfterUpsert(votes: Votes, r: Votes, user: UserId, choice: ChoiceId, k: nat)
    requires OneVotePerUser(votes) && OneVotePerUser(r)
    requires |votes| <= |r| && k < |r| && r[k] == VoteRow(user, choice)
    requires forall i :: 0 <= i < |votes| && votes[i].user != user ==> r[i] == votes[i]
    requires forall i :: 0 <= i < |r| && r[i].user != user ==> i < |votes| && r[i] == votes[i]
    ensures Ballots(r) == Ballots(votes)[user := choice]
  {
    var m, m' := Ballots(votes)[user := choice], Ballots(r);
    forall u
      ensures u in m <==> u in m'
      ensures u in m ==> m[u] == m'[u]
    {
      if u == user {
        assert r[k].user == user;
      } else {
        BallotOfOther(votes, r, user, u);
      }
    }
    SameEntries(m, m');
  }

  lemma SameEntries<K, V>(m: map<K, V>, m': map<K, V>)
    requires forall k :: k in m <==> k in m'
    requires forall k :: k in m ==> m[k] == m'[k]
    ensures m == m'
  {
  }

  /** A user other than the voter keeps the same presence and ballot. */
  lemma BallotOfOther(votes: Votes, r: Votes, user: UserId, u: UserId)
    requires OneVotePerUser(votes) && OneVotePerUser(r) && u != user
    requires |votes| <= |r|
    requires forall i :: 0 <= i < |votes| && votes[i].user != user ==> r[i] == votes[i]
    requires forall i :: 0 <= i < |r| && r[i].user != user ==> i < |votes| && r[i] == votes[i]
    ensures u in Ballots(votes) <==> u in Ballots(r)
    ensures u in Ballots(votes) ==> Ballots(votes)[u] == Ballots(r)[u]
  {
  }

  /** Number of rows naming `choice`: the derived vote count of a choice. */
  function Tally(votes: Votes, choice: ChoiceId): (n: nat)
    ensures n <= |votes|
    ensures n == 0 <==> forall i :: 0 <= i < |votes| ==> votes[i].choice != choice
    decreases |votes|
  {
    if |votes| == 0 then 0
    else Tally(votes[..|votes| - 1], choice) + (if votes[|votes| - 1].choice == choice then 1 else 0)
  }

  function Indicator(b: bool): nat
  {
    if b then 1 else 0
  }

  /** Overwriting one row moves at most one unit of tally. */
  lemma {:induction false} TallyOverwrite(votes: Votes, i: nat, row: VoteRow, c: ChoiceId)
    requires i < |votes|
    ensures Tally(votes[i := row], c) + Indicator(votes[i].choice == c)
         == Tally(votes, c) + Indicator(row.choice == c)
    decreases |votes|
  {
    var r := votes[i := row];
    var n := |votes| - 1;
    if i < n {
      assert r[..n] == votes[..n][i := row];
      TallyOverwrite(votes[..n], i, row, c);
    } else {
      assert r[..n] == votes[..n];
    }
  }

  lemma TallyAppend(votes: Votes, row: VoteRow, c: ChoiceId)
    ensures Tally(votes + [row], c) == Tally(votes, c) + Indicator(row.choice == c)
  {
    assert (votes + [row])[..|votes|] == votes;
  }

  /** A vote takes one unit of tally from the user's previous choice, if any,
      and gives one to the new choice; every other choice keeps its count. */
  lemma UpsertTally(votes: Votes, user: UserId, choice: ChoiceId, c: ChoiceId)
    requires OneVotePerUser(votes)
    ensures Tally(Upsert(votes, user, choice), c) + Indicator(user in Ballots(votes) && Ballots(votes)[user] == c)
         == Tally(votes, c) + Indicator(choice == c)
  {
    var found := FindVote(votes, user);
    if found.OneVote? {
      TallyOverwrite(votes, found.index, VoteRow(user, choice), c);
    } else {
      TallyAppend(votes, VoteRow(user, choice), c);
    }
  }

  /** The worked example: starting from an empty ledger, one user votes X and
      then Y; a single row remains, X counts nothing and Y counts one. */
  lemma RevoteExample(user: UserId, x: ChoiceId, y: ChoiceId)
    requires x != y
    ensures var after := Upsert(Upsert([], user, x), user, y);
      |after| == 1 && Tally(after, x) == 0 && Tally(after, y) == 1
  {
    var first := Upsert([], user, x);
    assert first == [VoteRow(user, x)];
    assert FindVote(first, user) == OneVote(0);
  }
}
