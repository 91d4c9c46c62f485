/**
 * A poll: a question, an ordered list of answers that each count their
 * votes, and the set of matric numbers that have already voted. Voting is
 * the only change a poll undergoes.
 */
module Polls {
  import opened Wrappers
  import opened Domain

  datatype Answer = Answer(text: string, voteCount: nat)

  /** The value of a poll at one moment. */
  datatype PollState = PollState(question: string, answers: seq<Answer>, pollees: set<MatricNumber>)

  /**
   * The sum of the answers' vote counts, reduced from the first answer to the
   * last: no answer has more votes than the total, and the total is zero
   * exactly when no answer has a vote.
   */
  function SumVotes(answers: seq<Answer>): (r: nat)
    ensures forall k :: 0 <= k < |answers| ==> answers[k].voteCount <= r
    ensures r == 0 <==> forall k :: 0 <= k < |answers| ==> answers[k].voteCount == 0
  {
    if |answers| == 0 then 0
    else
      var front := answers[..|answers| - 1];
      assert forall k :: 0 <= k < |front| ==> front[k] == answers[k];
      SumVotes(front) + answers[|answers| - 1].voteCount
  }

  /** Summing distributes over concatenation. */
  lemma {:induction false} SumVotesAppend(a: seq<Answer>, b: seq<Answer>)
    ensures SumVotes(a + b) == SumVotes(a) + SumVotes(b)
    decreases |b|
  {
    if |b| > 0 {
      var front := b[..|b| - 1];
      SumVotesAppend(a, front);
      assert (a + b)[..|a + b| - 1] == a + front;
    } else {
      assert a + b == a;
    }
  }

  /** The answers after one more vote for answer `i`. */
  function CountVote(answers: seq<Answer>, i: nat): (r: seq<Answer>)
    requires i < |answers|
    ensures |r| == |answers|
    ensures r[i].text == answers[i].text && r[i].voteCount == answers[i].voteCount + 1
    ensures forall k :: 0 <= k < |answers| && k != i ==> r[k] == answers[k]
  {
    answers[i := answers[i].(voteCount := answers[i].voteCount + 1)]
  }

  /** One more vote for any answer raises the total by exactly one. */
  lemma {:induction false} CountVoteAddsOne(answers: seq<Answer>, i: nat)
    requires i < |answers|
    ensures SumVotes(CountVote(answers, i)) == SumVotes(answers) + 1
  {
    var r := CountVote(answers, i);
    assert answers == answers[..i] + [answers[i]] + answers[i + 1..];
    assert r == answers[..i] + [r[i]] + answers[i + 1..];
    SumVotesAppend(answers[..i] + [answers[i]], answers[i + 1..]);
    SumVotesAppend(answers[..i], [answers[i]]);
    SumVotesAppend(answers[..i] + [r[i]], answers[i + 1..]);
    SumVotesAppend(answers[..i], [r[i]]);
    assert SumVotes([r[i]]) == SumVotes([answers[i]]) + 1 by {
      assert [r[i]][..0] == [] && [answers[i]][..0] == [];
    }
  }

  /** The poll invariant: the total vote count equals the number of voters. */
  predicate Tallies(s: PollState) {
    SumVotes(s.answers) == |s.pollees|
  }

  /**
   * `Poll.vote`: a repeat voter is rejected first, then an answer index
   * outside the list; otherwise the chosen answer gains a vote and the
   * voter is recorded. A rejected vote changes nothing.
   */
  function VoteOn(s: PollState, answerIndex: nat, voter: MatricNumber): (r: (Outcome<ModelError>, PollState))
    ensures voter in s.pollees ==> r == (Fail(UserAlreadyVoted), s)
    ensures voter !in s.pollees && answerIndex >= |s.answers| ==> r == (Fail(AnswerNotFound), s)
    ensures r.0.Pass? <==> voter !in s.pollees && answerIndex < |s.answers|
    ensures r.0.Pass? ==>
      && r.1.question == s.question
      && r.1.pollees == s.pollees + {voter}
      && |r.1.answers| == |s.answers|
      && r.1.answers[answerIndex].text == s.answers[answerIndex].text
      && r.1.answers[answerIndex].voteCount == s.answers[answerIndex].voteCount + 1
      && (forall k :: 0 <= k < |s.answers| && k != answerIndex ==> r.1.answers[k] == s.answers[k])
  {
    if voter in s.pollees then (Fail(UserAlreadyVoted), s)
    else if answerIndex >= |s.answers| then (Fail(AnswerNotFound), s)
    else (Pass, s.(answers := CountVote(s.answers, answerIndex), pollees := s.pollees + {voter}))
  }

  /** Voting keeps the invariant, whether the vote is accepted or rejected. */
  lemma VoteKeepsTally(s: PollState, answerIndex: nat, voter: MatricNumber)
    requires Tallies(s)
    ensures Tallies(VoteOn(s, answerIndex, voter).1)
  {
    if voter !in s.pollees && answerIndex < |s.answers| {
      CountVoteAddsOne(s.answers, answerIndex);
    }
  }

  /** `Poll.equals`: question and answers agree; who has voted does not matter. */
  predicate SamePoll(a: PollState, b: PollState): (r: bool)
    ensures r ==> |a.answers| == |b.answers| && SumVotes(a.answers) == SumVotes(b.answers)
  {
    a.question == b.question && a.answers == b.answers
  }

  /** Replacing the voter sets of two polls never changes whether they are equal. */
  lemma SamePollIgnoresVoters(a: PollState, b: PollState, x: set<MatricNumber>, y: set<MatricNumber>)
    ensures SamePoll(a.(pollees := x), b.(pollees := y)) == SamePoll(a, b)
  {
  }

  /** An accepted vote changes a count, so the poll is no longer equal to what it was. */
  lemma AcceptedVoteChangesPoll(s: PollState, answerIndex: nat, voter: MatricNumber)
    requires VoteOn(s, answerIndex, voter).0.Pass?
    ensures !SamePoll(VoteOn(s, answerIndex, voter).1, s)
  {
    var after := VoteOn(s, answerIndex, voter).1;
    assert after.answers[answerIndex] != s.answers[answerIndex];
  }

  class Poll {
    const question: string
    var answers: seq<Answer>
    var pollees: set<MatricNumber>

    /** The three-argument constructor. */
    constructor (question: string, answers: seq<Answer>, pollees: set<MatricNumber>)
      ensures State() == PollState(question, answers, pollees)
    {
      this.question := question;
      this.answers := answers;
      this.pollees := pollees;
    }

    /** The two-argument constructor as intended: nobody has voted yet. */
    constructor WithoutVoters(question: string, answers: seq<Answer>)
      ensures State() == PollState(question, answers, {})
      ensures (forall k :: 0 <= k < |answers| ==> answers[k].voteCount == 0) ==> Tallies(State())
    {
      this.question := question;
      this.answers := answers;
      this.pollees := {};
    }

    function State(): PollState
      reads this
    {
      PollState(question, answers, pollees)
    }

    /** `getTotalVoteCount`: at least every answer's count, and zero exactly when nobody has a vote. */
    function TotalVoteCount(): (t: nat)
      reads this
      ensures forall k :: 0 <= k < |answers| ==> answers[k].voteCount <= t
      ensures t == 0 <==> forall k :: 0 <= k < |answers| ==> answers[k].voteCount == 0
    {
      SumVotes(answers)
    }

    /** `vote`, proved against `VoteOn`. */
    method Vote(answerIndex: nat, voter: MatricNumber) returns (o: Outcome<ModelError>)
      modifies this
      ensures (o, State()) == VoteOn(old(State()), answerIndex, voter)
    {
      if voter in pollees {
        return Fail(UserAlreadyVoted);
      }
      if answerIndex >= |answers| {
        return Fail(AnswerNotFound);
      }
      answers := CountVote(answers, answerIndex);
      pollees := pollees + {voter};
      return Pass;
    }

    /** `equals`. */
    predicate Equals(other: Poll): (b: bool)
      reads this, other
      ensures other == this ==> b
      ensures b ==> TotalVoteCount() == other.TotalVoteCount()
    {
      SamePoll(State(), other.State())
    }
  }

  /**
   * `Poll.equals` is an equivalence, and equal polls report the same total
   * vote count, since the answers they compare carry the counts.
   */
  lemma PollEqualityIsEquivalence(a: Poll, b: Poll, c: Poll)
    ensures a.Equals(a)
    ensures a.Equals(b) ==> b.Equals(a)
    ensures a.Equals(b) && b.Equals(c) ==> a.Equals(c)
    ensures a.Equals(b) ==> a.TotalVoteCount() == b.TotalVoteCount()
  {
  }

  /**
   * The constructors as written: the two-argument one passes `null` (here
   * `None`) for the voter set, and copying it with `addAll` throws.
   */
  function ConstructAsWritten(question: string, answers: seq<Answer>, pollees: Option<set<MatricNumber>>)
    : (r: Option<PollState>)
    ensures r.None? <==> pollees.None?
    ensures r.Some? ==> r.value == PollState(question, answers, pollees.value)
  {
    match pollees
    case None => None
    case Some(p) => Some(PollState(question, answers, p))
  }

  function TwoArgumentConstructAsWritten(question: string, answers: seq<Answer>): Option<PollState> {
    ConstructAsWritten(question, answers, None)
  }

  /** The two-argument constructor as written can never build a poll. */
  lemma TwoArgumentConstructorAlwaysThrows(question: string, answers: seq<Answer>)
    ensures TwoArgumentConstructAsWritten(question, answers) == None
  {
  }

  // -------------------------------------------------- filtered poll view

  /** The predicate of the filtered poll list: show every poll, or only the polls asking one of the given questions. */
  datatype PollPredicate = ShowAllPolls | QuestionIn(questions: set<string>)

  predicate AcceptsPoll(p: PollPredicate, poll: Poll) {
    match p
    case ShowAllPolls => true
    case QuestionIn(qs) => poll.question in qs
  }

  /** The polls the predicate accepts, in poll-list order. */
  function PollsMatching(ps: seq<Poll>, p: PollPredicate): (r: seq<Poll>)
    ensures |r| <= |ps|
    ensures forall k :: 0 <= k < |r| ==> r[k] in ps && AcceptsPoll(p, r[k])
    ensures forall k :: 0 <= k < |ps| && AcceptsPoll(p, ps[k]) ==> ps[k] in r
  {
    if |ps| == 0 then []
    else
      var front := ps[..|ps| - 1];
      var last := ps[|ps| - 1];
      assert ps == front + [last];
      PollsMatching(front, p) + (if AcceptsPoll(p, last) then [last] else [])
  }

  /** Filtering distributes over concatenation, so the view keeps the book's order. */
  lemma {:induction false} PollsMatchingAppend(a: seq<Poll>, b: seq<Poll>, p: PollPredicate)
    ensures PollsMatching(a + b, p) == PollsMatching(a, p) + PollsMatching(b, p)
    decreases |b|
  {
    if |b| == 0 {
      assert a + b == a;
    } else {
      var front := b[..|b| - 1];
      var last := b[|b| - 1];
      assert (a + b)[..|a + b| - 1] == a + front;
      assert (a + b)[|a + b| - 1] == last;
      PollsMatchingAppend(a, front, p);
      var x, y, k := PollsMatching(a, p), PollsMatching(front, p), if AcceptsPoll(p, last) then [last] else [];
      assert PollsMatching(a + b, p) == (x + y) + k;
      assert PollsMatching(b, p) == y + k;
      AppendAssociates(x, y, k);
    }
  }

  /** Under the show-all predicate the view is the whole poll list. */
  lemma {:induction false} ShowAllPollsShowsAll(ps: seq<Poll>)
    ensures PollsMatching(ps, ShowAllPolls) == ps
    decreases |ps|
  {
    if |ps| > 0 {
      ShowAllPollsShowsAll(ps[..|ps| - 1]);
      assert ps == ps[..|ps| - 1] + [ps[|ps| - 1]];
    }
  }
}
