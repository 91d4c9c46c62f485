/**
 * The `vote` command: the poll index and the answer index (both already
 * zero-based) are checked against the filtered poll list during
 * preprocessing, which remembers the poll; execution votes in that poll as
 * the logged-in member and maps the model's errors to fixed messages.
 */
module VoteCommands {
  import opened Wrappers
  import opened Domain
  import opened Polls
  import opened Model
  import opened CommandResults

  const VoteSuccess := "Your vote has been received"
  const AlreadyVoted := "You have already voted in this poll"
  const InvalidPollIndex := "The poll index provided is invalid"
  const InvalidAnswerIndex := "The answer index provided is invalid"
  const PollMissing := "The target poll cannot be missing"
  const AnswerMissing := "The target answer cannot be missing"

  /** What preprocessing makes of the indices: the poll to vote in, a rejection, or a dereferenced `null`. */
  datatype Resolution = Resolved(poll: Poll) | Rejected(message: string) | NullDereferenced

  /**
   * Preprocessing in its intended order: the poll index must fall inside
   * the filtered poll list, then the answer index inside that poll's
   * answers; only then is the poll resolved.
   */
  function Resolve(shown: seq<Poll>, pollIndex: nat, answerIndex: nat): (r: Resolution)
    reads shown
    ensures r == Rejected(InvalidPollIndex) <==> pollIndex >= |shown|
    ensures r == Rejected(InvalidAnswerIndex) <==> pollIndex < |shown| && answerIndex >= |shown[pollIndex].answers|
    ensures r.Resolved? <==> pollIndex < |shown| && answerIndex < |shown[pollIndex].answers|
    ensures r.Resolved? ==> r.poll == shown[pollIndex]
    ensures !r.NullDereferenced?
  {
    if pollIndex >= |shown| then Rejected(InvalidPollIndex)
    else if answerIndex >= |shown[pollIndex].answers| then Rejected(InvalidAnswerIndex)
    else Resolved(shown[pollIndex])
  }

  /**
   * Preprocessing as written: the answer index is checked against the poll
   * remembered from an earlier preprocessing (`current`), before the poll
   * is looked up; on a fresh command `current` is `null`.
   */
  function PreprocessAsWritten(shown: seq<Poll>, current: Poll?, pollIndex: nat, answerIndex: nat): (r: Resolution)
    reads shown, current
    ensures pollIndex >= |shown| ==> r == Rejected(InvalidPollIndex)
    ensures pollIndex < |shown| && current == null ==> r == NullDereferenced
    ensures pollIndex < |shown| && current != null && answerIndex >= |current.answers| ==> r == Rejected(InvalidAnswerIndex)
    ensures pollIndex < |shown| && current != null && answerIndex < |current.answers| ==> r == Resolved(shown[pollIndex])
  {
    if pollIndex >= |shown| then Rejected(InvalidPollIndex)
    else if current == null then NullDereferenced
    else if answerIndex >= |current.answers| then Rejected(InvalidAnswerIndex)
    else Resolved(shown[pollIndex])
  }

  /**
   * A fresh vote command with a valid poll index never gets past
   * preprocessing as written, whatever the answer index: it dereferences
   * `null`, where the intended order resolves or rejects.
   */
  lemma FreshCommandDereferencesNull(shown: seq<Poll>, pollIndex: nat, answerIndex: nat)
    requires pollIndex < |shown|
    ensures PreprocessAsWritten(shown, null, pollIndex, answerIndex) == NullDereferenced
    ensures Resolve(shown, pollIndex, answerIndex) != NullDereferenced
  {
  }

  /**
   * As written, a re-preprocessed command checks the answer index against
   * the stale poll: an index valid for that poll but outside the newly
   * selected one is let through.
   */
  lemma StalePollLetsBadAnswerThrough(shown: seq<Poll>, current: Poll, pollIndex: nat, answerIndex: nat)
    requires pollIndex < |shown|
    requires |shown[pollIndex].answers| <= answerIndex < |current.answers|
    ensures PreprocessAsWritten(shown, current, pollIndex, answerIndex).Resolved?
    ensures Resolve(shown, pollIndex, answerIndex) == Rejected(InvalidAnswerIndex)
  {
  }

  /** A resolved poll is one of the club book's polls, so the model cannot report it missing. */
  lemma ResolvedPollIsInBook(m: ModelManager, pollIndex: nat, answerIndex: nat)
    requires Resolve(m.FilteredPolls(), pollIndex, answerIndex).Resolved?
    ensures Resolve(m.FilteredPolls(), pollIndex, answerIndex).poll in m.book.polls
  {
    var shown := m.FilteredPolls();
    assert shown[pollIndex] in m.book.polls;
  }

  /** A vote for a resolved answer index never reports the answer missing. */
  lemma ResolvedAnswerIsPresent(shown: seq<Poll>, pollIndex: nat, answerIndex: nat, voter: MatricNumber)
    requires Resolve(shown, pollIndex, answerIndex).Resolved?
    ensures VoteOn(Resolve(shown, pollIndex, answerIndex).poll.State(), answerIndex, voter).0 != Fail(AnswerNotFound)
  {
  }

  /** `Objects.equals` on two polls: both null, or both present and equal. */
  predicate SameResolvedPoll(a: Poll?, b: Poll?): (r: bool)
    reads a, b
    ensures a == b ==> r
    ensures r ==> (a == null <==> b == null)
  {
    if a == null then b == null else b != null && a.Equals(b)
  }

  /** `Objects.equals` on remembered polls is an equivalence. */
  lemma SameResolvedPollIsEquivalence(a: Poll?, b: Poll?, c: Poll?)
    ensures SameResolvedPoll(a, a)
    ensures SameResolvedPoll(a, b) ==> SameResolvedPoll(b, a)
    ensures SameResolvedPoll(a, b) && SameResolvedPoll(b, c) ==> SameResolvedPoll(a, c)
  {
    if a != null && b != null && c != null {
      PollEqualityIsEquivalence(a, b, c);
    } else if a != null && b != null {
      PollEqualityIsEquivalence(a, b, b);
    } else if a != null {
      PollEqualityIsEquivalence(a, a, a);
    }
  }

  class VoteCommand {
    const pollIndex: nat
    const answerIndex: nat
    var pollToVoteIn: Poll?

    constructor (pollIndex: nat, answerIndex: nat)
      ensures this.pollIndex == pollIndex && this.answerIndex == answerIndex && pollToVoteIn == null
    {
      this.pollIndex := pollIndex;
      this.answerIndex := answerIndex;
      pollToVoteIn := null;
    }

    /** `preprocessUndoableCommand`, in the intended order; a rejection leaves the remembered poll alone. */
    method Preprocess(model: ModelManager) returns (o: Outcome<string>)
      modifies this`pollToVoteIn
      ensures match Resolve(model.FilteredPolls(), pollIndex, answerIndex)
        case Resolved(p) => o == Pass && pollToVoteIn == p
        case Rejected(message) => o == Fail(message) && pollToVoteIn == old(pollToVoteIn)
        case NullDereferenced => false
    {
      var lastShownList := model.FilteredPolls();
      if pollIndex >= |lastShownList| {
        return Fail(InvalidPollIndex);
      }
      var target := lastShownList[pollIndex];
      if answerIndex >= |target.answers| {
        return Fail(InvalidAnswerIndex);
      }
      pollToVoteIn := target;
      return Pass;
    }

    /**
     * `executeUndoableCommand`: a repeat voter gets a command error, a
     * missing poll or answer is an assertion failure, and a counted vote
     * resets the poll filter to show every poll.
     */
    method Execute(model: ModelManager) returns (out: CommandOutcome)
      modifies model`pollFilter, pollToVoteIn
      ensures model.loggedInMember.None? ==> out == NullDereference && model.pollFilter == old(model.pollFilter)
      ensures model.loggedInMember.Some? && (pollToVoteIn == null || pollToVoteIn !in model.book.polls) ==>
        out == AssertionFailed(PollMissing) && model.pollFilter == old(model.pollFilter)
      ensures pollToVoteIn != null && (model.loggedInMember.None? || pollToVoteIn !in model.book.polls) ==>
        pollToVoteIn.State() == old(pollToVoteIn.State())
      ensures model.loggedInMember.Some? && pollToVoteIn != null && pollToVoteIn in model.book.polls ==>
        var (vote, after) := VoteOn(old(pollToVoteIn.State()), answerIndex, model.loggedInMember.value.matric);
        && pollToVoteIn.State() == after
        && (vote == Pass ==> out == Executed(VoteSuccess) && model.pollFilter == ShowAllPolls)
        && (vote == Fail(UserAlreadyVoted) ==> out == CommandFailure(AlreadyVoted) && model.pollFilter == old(model.pollFilter))
        && (vote == Fail(AnswerNotFound) ==> out == AssertionFailed(AnswerMissing) && model.pollFilter == old(model.pollFilter))
    {
      var o := model.VoteInPoll(pollToVoteIn, answerIndex);
      match o {
        case Pass =>
          model.UpdateFilteredPollList(ShowAllPolls);
          out := Executed(VoteSuccess);
        case Fail(UserAlreadyVoted) =>
          out := CommandFailure(AlreadyVoted);
        case Fail(PollNotFound) =>
          out := AssertionFailed(PollMissing);
        case Fail(AnswerNotFound) =>
          out := AssertionFailed(AnswerMissing);
        case Fail(_) =>
          out := NullDereference;
      }
    }

    /** `equals`: same indices and `Objects.equals` on the remembered polls. */
    predicate Equals(other: VoteCommand)
      reads this, other, pollToVoteIn, other.pollToVoteIn
      ensures other == this ==> Equals(other)
    {
      other == this
      || (pollIndex == other.pollIndex && answerIndex == other.answerIndex
          && SameResolvedPoll(pollToVoteIn, other.pollToVoteIn))
    }
  }

  /** Vote-command equality is symmetric: equal indices and equal remembered polls, either way round. */
  lemma VoteCommandEqualityIsSymmetric(a: VoteCommand, b: VoteCommand)
    ensures a.Equals(b) ==> b.Equals(a)
  {
    SameResolvedPollIsEquivalence(a.pollToVoteIn, b.pollToVoteIn, b.pollToVoteIn);
  }

  /**
   * Preprocessing followed by execution, as one undoable command runs:
   * when preprocessing resolves a poll, execution never fails an assertion.
   */
  method PreprocessThenExecute(c: VoteCommand, model: ModelManager) returns (pre: Outcome<string>, out: CommandOutcome)
    modifies c`pollToVoteIn, model`pollFilter, model.book.polls
    ensures pre.Pass? ==> !out.AssertionFailed?
  {
    pre := c.Preprocess(model);
    if pre.Fail? {
      out := CommandFailure(pre.error);
      return;
    }
    ghost var resolved := Resolve(model.FilteredPolls(), c.pollIndex, c.answerIndex);
    ResolvedPollIsInBook(model, c.pollIndex, c.answerIndex);
    if model.loggedInMember.Some? {
      ResolvedAnswerIsPresent(model.FilteredPolls(), c.pollIndex, c.answerIndex, model.loggedInMember.value.matric);
    }
    out := c.Execute(model);
  }
}
