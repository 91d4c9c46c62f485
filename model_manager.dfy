/**
 * The model facade: it owns the club book, the predicates of the filtered
 * member and poll views, and the logged-in-member field, and it is the only
 * way commands change any of them.
 */
module Model {
  import opened Wrappers
  import opened Text
  import opened Domain
  import opened Polls
  import opened ClubBooks

  // ------------------------------------------------- e-mail recipients

  /**
   * The recipient list for a selection: the comma-joined e-mail addresses
   * of the selected members in member-list order, or `missing` when no
   * member is selected.
   */
  function RecipientList(ms: seq<Member>, sel: MemberSelector, missing: ModelError): (r: Result<string, ModelError>)
    ensures r.Failure? <==> forall k :: 0 <= k < |ms| ==> !Selects(sel, ms[k])
    ensures r.Failure? ==> r.error == missing
  {
    var chosen := Select(ms, sel);
    if chosen == [] then Failure(missing)
    else
      assert chosen[0] in ms;
      Success(Join(Emails(chosen), ','))
  }

  /** Scanning one more member adds its address exactly when it is selected. */
  lemma EmailsStep(ms: seq<Member>, i: nat, sel: MemberSelector)
    requires i < |ms|
    ensures Emails(Select(ms[..i + 1], sel)) ==
      Emails(Select(ms[..i], sel)) + (if Selects(sel, ms[i]) then [ms[i].email] else [])
  {
    SelectStep(ms, i, sel);
    EmailsAppend(Select(ms[..i], sel), if Selects(sel, ms[i]) then [ms[i]] else []);
  }

  /** The recipient list is determined by the addresses of the selected members. */
  lemma RecipientListOfEmails(ms: seq<Member>, sel: MemberSelector, missing: ModelError)
    ensures var emails := Emails(Select(ms, sel));
      RecipientList(ms, sel, missing) == if emails == [] then Failure(missing) else Success(Join(emails, ','))
  {
  }

  /** Selected members' addresses are addresses of members, so they are comma-free when all addresses are. */
  lemma SelectedEmailsCommaFree(ms: seq<Member>, sel: MemberSelector)
    requires forall k :: 0 <= k < |ms| ==> ',' !in ms[k].email
    ensures forall k :: 0 <= k < |Emails(Select(ms, sel))| ==> ',' !in Emails(Select(ms, sel))[k]
  {
    var chosen := Select(ms, sel);
    forall k | 0 <= k < |chosen| ensures ',' !in chosen[k].email {
      var j :| 0 <= j < |ms| && ms[j] == chosen[k];
    }
  }

  /** Every selected member's address is among the selected addresses. */
  lemma SelectedMemberEmailListed(ms: seq<Member>, sel: MemberSelector, k: nat)
    requires k < |ms| && Selects(sel, ms[k])
    ensures ms[k].email in Emails(Select(ms, sel))
  {
    var chosen := Select(ms, sel);
    var i :| 0 <= i < |chosen| && chosen[i] == ms[k];
    assert Emails(chosen)[i] == ms[k].email;
  }

  /** Every selected address belongs to a selected member. */
  lemma ListedEmailOfSelectedMember(ms: seq<Member>, sel: MemberSelector, i: nat)
    requires i < |Emails(Select(ms, sel))|
    ensures exists k :: 0 <= k < |ms| && Selects(sel, ms[k]) && ms[k].email == Emails(Select(ms, sel))[i]
  {
    var chosen := Select(ms, sel);
    assert chosen[i] in ms && Selects(sel, chosen[i]);
    var j :| 0 <= j < |ms| && ms[j] == chosen[i];
    assert Selects(sel, ms[j]) && ms[j].email == Emails(chosen)[i];
  }

  /**
   * When no address contains a comma, cutting the recipient list at its
   * commas yields one address per selected member, in member-list order:
   * exactly the addresses of the selected members.
   */
  lemma RecipientListNamesSelected(ms: seq<Member>, sel: MemberSelector, missing: ModelError)
    requires RecipientList(ms, sel, missing).Success?
    requires forall k :: 0 <= k < |ms| ==> ',' !in ms[k].email
    ensures var parts := Split(RecipientList(ms, sel, missing).value, ',');
      && parts == Emails(Select(ms, sel))
      && (forall e :: e in parts <==> exists k :: 0 <= k < |ms| && Selects(sel, ms[k]) && ms[k].email == e)
  {
    var emails := Emails(Select(ms, sel));
    SelectedEmailsCommaFree(ms, sel);
    SplitJoin(emails, ',');
    forall e | e in emails ensures exists k :: 0 <= k < |ms| && Selects(sel, ms[k]) && ms[k].email == e {
      var i :| 0 <= i < |emails| && emails[i] == e;
      ListedEmailOfSelectedMember(ms, sel, i);
    }
    forall e | exists k :: 0 <= k < |ms| && Selects(sel, ms[k]) && ms[k].email == e ensures e in emails {
      var k :| 0 <= k < |ms| && Selects(sel, ms[k]) && ms[k].email == e;
      SelectedMemberEmailListed(ms, sel, k);
    }
  }

  // ------------------------------------------------------------- tasks

  /** The task as the logged-in member adds it: assigned by and to that member, not started. */
  function Stamp(t: Task, name: string): (r: Task)
    ensures r.assignor == name && r.assignee == name && r.status == NotStarted
    ensures r.description == t.description && r.date == t.date && r.time == t.time
  {
    t.(assignor := name, assignee := name, status := NotStarted)
  }

  /** Only a member who, ignoring case, is both the task's assignor and its assignee may delete it. */
  function MayDeleteTask(name: string, t: Task): (r: bool)
    ensures r <==> ToLower(name) == ToLower(t.assignor) && ToLower(name) == ToLower(t.assignee)
  {
    EqualsIgnoreCaseIsLowerEquality(name, t.assignor);
    EqualsIgnoreCaseIsLowerEquality(name, t.assignee);
    EqualsIgnoreCase(name, t.assignor) && EqualsIgnoreCase(name, t.assignee)
  }

  /**
   * A task the member added may be deleted by the same member, and deleting
   * it gives back the book it was added to.
   */
  lemma OwnTaskMayBeDeleted(b: ClubBook, t: Task, name: string)
    requires AddTask(b, Stamp(t, name)).Success?
    ensures MayDeleteTask(name, Stamp(t, name))
    ensures RemoveTask(AddTask(b, Stamp(t, name)).value, Stamp(t, name)) == Success(b)
  {
    AddedTaskIsRemoved(b, Stamp(t, name));
  }

  class ModelManager {
    var book: ClubBook
    var memberFilter: MemberPredicate
    var pollFilter: PollPredicate
    /** `None` is Java's `null`: nobody is logged in. */
    var loggedInMember: Option<Member>

    /** Builds the model over a copy of `initial`; the logged-in member starts as the first member. */
    constructor (initial: ClubBook)
      ensures book == initial && memberFilter == ShowAllMembers && pollFilter == ShowAllPolls
      ensures loggedInMember == if initial.members == [] then None else Some(initial.members[0])
    {
      book := initial;
      memberFilter := ShowAllMembers;
      pollFilter := ShowAllPolls;
      loggedInMember := None;
      new;
      var _ := GetLoggedInMember();
    }

    /** The filtered member list: the book's members the filter accepts, and all of them under the show-all filter. */
    function FilteredMembers(): (r: seq<Member>)
      reads this
      ensures forall k :: 0 <= k < |r| ==> r[k] in book.members && Accepts(memberFilter, r[k])
      ensures forall k :: 0 <= k < |book.members| && Accepts(memberFilter, book.members[k]) ==> book.members[k] in r
      ensures memberFilter == ShowAllMembers ==> r == book.members
    {
      ShowAllMembersShowsAll(book.members);
      Select(book.members, Matching(memberFilter))
    }

    /** The filtered poll list: the book's polls the filter accepts, and all of them under the show-all filter. */
    function FilteredPolls(): (r: seq<Poll>)
      reads this
      ensures forall k :: 0 <= k < |r| ==> r[k] in book.polls && AcceptsPoll(pollFilter, r[k])
      ensures forall k :: 0 <= k < |book.polls| && AcceptsPoll(pollFilter, book.polls[k]) ==> book.polls[k] in r
      ensures pollFilter == ShowAllPolls ==> r == book.polls
    {
      ShowAllPollsShowsAll(book.polls);
      PollsMatching(book.polls, pollFilter)
    }

    /** `getLoggedInMember`: the first member of the filtered list, or null; the field is overwritten with it. */
    method GetLoggedInMember() returns (m: Option<Member>)
      modifies this`loggedInMember
      ensures m == loggedInMember
      ensures FilteredMembers() == [] ==> m == None
      ensures FilteredMembers() != [] ==> m == Some(FilteredMembers()[0])
    {
      loggedInMember := None;
      var shown := FilteredMembers();
      if shown != [] {
        loggedInMember := Some(shown[0]);
      }
      m := loggedInMember;
    }

    method ResetData(newData: ClubBook)
      modifies this`book
      ensures book == newData
    {
      book := newData;
    }

    /** `deleteMember`: the filter is left as it is and tags are not swept. */
    method DeleteMember(target: Member) returns (o: Outcome<ModelError>)
      modifies this`book
      ensures match ClubBooks.RemoveMember(old(book), target)
        case Success(b) => o == Pass && book == b
        case Failure(e) => o == Fail(e) && book == old(book)
    {
      var r := ClubBooks.RemoveMember(book, target);
      if r.Failure? {
        return Fail(r.error);
      }
      book := r.value;
      return Pass;
    }

    /** `addMember`: on success the member filter is reset to show everyone. */
    method AddMember(m: Member) returns (o: Outcome<ModelError>)
      modifies this`book, this`memberFilter
      ensures match ClubBooks.AddMember(old(book), m)
        case Success(b) => o == Pass && book == b && memberFilter == ShowAllMembers
        case Failure(e) => o == Fail(e) && book == old(book) && memberFilter == old(memberFilter)
    {
      var r := ClubBooks.AddMember(book, m);
      if r.Failure? {
        return Fail(r.error);
      }
      book := r.value;
      UpdateFilteredMemberList(ShowAllMembers);
      return Pass;
    }

    /** `signUpMember`, which adds the member as `addMember` does and leaves the filter alone. */
    method SignUpMember(m: Member)
      modifies this`book
      ensures match ClubBooks.AddMember(old(book), m)
        case Success(b) => book == b
        case Failure(_) => book == old(book)
    {
      var r := ClubBooks.AddMember(book, m);
      if r.Success? {
        book := r.value;
      }
    }

    /**
     * `updateMember`: on success the tags are swept; every tag the sweep
     * deletes goes through `deleteTag`, which resets the member filter, so
     * the filter is kept only when the sweep deleted nothing.
     */
    method UpdateMember(target: Member, edited: Member) returns (o: Outcome<ModelError>)
      modifies this`book, this`memberFilter
      ensures match ClubBooks.UpdateMember(old(book), target, edited)
        case Success(b) =>
          && o == Pass
          && book == SweepTags(b)
          && memberFilter == if book.tags == b.tags then old(memberFilter) else ShowAllMembers
        case Failure(e) => o == Fail(e) && book == old(book) && memberFilter == old(memberFilter)
    {
      var r := ClubBooks.UpdateMember(book, target, edited);
      if r.Failure? {
        return Fail(r.error);
      }
      book := r.value;
      DeleteUnusedTags();
      return Pass;
    }

    /** `addPoll`: on success the poll filter is reset to show every poll. */
    method AddPoll(p: Poll) returns (o: Outcome<ModelError>)
      modifies this`book, this`pollFilter
      ensures match old(ClubBooks.AddPoll(book, p))
        case Success(b) => o == Pass && book == b && pollFilter == ShowAllPolls
        case Failure(e) => o == Fail(e) && book == old(book) && pollFilter == old(pollFilter)
    {
      var r := ClubBooks.AddPoll(book, p);
      if r.Failure? {
        return Fail(r.error);
      }
      book := r.value;
      UpdateFilteredPollList(ShowAllPolls);
      return Pass;
    }

    method DeletePoll(target: Poll) returns (o: Outcome<ModelError>)
      modifies this`book
      ensures match old(ClubBooks.RemovePoll(book, target))
        case Success(b) => o == Pass && book == b
        case Failure(e) => o == Fail(e) && book == old(book)
    {
      var r := ClubBooks.RemovePoll(book, target);
      if r.Failure? {
        return Fail(r.error);
      }
      book := r.value;
      return Pass;
    }

    /**
     * `voteInPoll`: the voter is the logged-in member (null throws first);
     * a poll that is not one of the book's polls throws
     * `PollNotFoundException`; otherwise the poll itself votes.
     */
    method VoteInPoll(poll: Poll?, answerIndex: nat) returns (o: Outcome<ModelError>)
      modifies poll
      ensures loggedInMember.None? ==> o == Fail(NullPointer)
      ensures loggedInMember.Some? && (poll == null || poll !in book.polls) ==> o == Fail(PollNotFound)
      ensures poll != null && (loggedInMember.None? || poll !in book.polls) ==> poll.State() == old(poll.State())
      ensures loggedInMember.Some? && poll != null && poll in book.polls ==>
        (o, poll.State()) == VoteOn(old(poll.State()), answerIndex, loggedInMember.value.matric)
    {
      if loggedInMember.None? {
        return Fail(NullPointer);
      }
      if poll == null || poll !in book.polls {
        return Fail(PollNotFound);
      }
      o := poll.Vote(answerIndex, loggedInMember.value.matric);
    }

    /** `removeGroup`. */
    method RemoveGroup(g: Group) returns (o: Outcome<ModelError>)
      modifies this`book
      ensures match ClubBooks.RemoveGroup(old(book), g)
        case Success(b) => o == Pass && book == b
        case Failure(e) => o == Fail(e) && book == old(book)
    {
      var r := ClubBooks.RemoveGroup(book, g);
      if r.Failure? {
        return Fail(r.error);
      }
      book := r.value;
      return Pass;
    }

    /** `deleteTag`: on success the member filter is reset to show everyone. */
    method DeleteTag(t: Tag) returns (o: Outcome<ModelError>)
      modifies this`book, this`memberFilter
      ensures match ClubBooks.DeleteTag(old(book), t)
        case Success(b) => o == Pass && book == b && memberFilter == ShowAllMembers
        case Failure(e) => o == Fail(e) && book == old(book) && memberFilter == old(memberFilter)
    {
      var r := ClubBooks.DeleteTag(book, t);
      if r.Failure? {
        return Fail(r.error);
      }
      book := r.value;
      UpdateFilteredMemberList(ShowAllMembers);
      return Pass;
    }

    /**
     * `deleteUnusedTags`: walks a snapshot of the tag set and deletes each
     * tag no member carries. The result is the sweep of the book, and the
     * member filter is reset exactly when some tag was deleted.
     */
    method DeleteUnusedTags()
      modifies this`book, this`memberFilter
      ensures book == SweepTags(old(book))
      ensures memberFilter == if book.tags == old(book).tags then old(memberFilter) else ShowAllMembers
    {
      var snapshot := book.tags;
      while snapshot != {}
        invariant snapshot <= book.tags <= old(book).tags
        invariant book == old(book).(tags := book.tags)
        invariant book.tags == snapshot + SweepTags(old(book)).tags
        invariant memberFilter == if book.tags == old(book).tags then old(memberFilter) else ShowAllMembers
        decreases snapshot
      {
        var t :| t in snapshot;
        DeleteTagIfUnused(t);
        snapshot := snapshot - {t};
      }
    }

    /** `deleteTagIfUnused`; the Java `assert` that the tag cannot be missing holds because `t` is in the tag set. */
    method DeleteTagIfUnused(t: Tag)
      requires t in book.tags
      modifies this`book, this`memberFilter
      ensures Carried(old(book).members, t) ==> book == old(book) && memberFilter == old(memberFilter)
      ensures !Carried(old(book).members, t) ==>
        book == old(book).(tags := old(book).tags - {t}) && memberFilter == ShowAllMembers
    {
      var unused := IsNotTaggedInMembers(t);
      if unused {
        UncarriedTagRemovalChangesNothing(book.members, t);
        var o := DeleteTag(t);
        assert o == Pass;
      }
    }

    /** `isNotTaggedInMembers`: true exactly when no member carries the tag. */
    method IsNotTaggedInMembers(t: Tag) returns (r: bool)
      ensures r <==> !Carried(book.members, t)
    {
      var members := book.members;
      for i := 0 to |members|
        invariant forall k :: 0 <= k < i ==> t !in members[k].tags
      {
        if t in members[i].tags {
          return false;
        }
      }
      return true;
    }

    /** `generateEmailRecipients`: the group is used when it is not null, otherwise the tag. */
    method GenerateEmailRecipients(group: Option<Group>, tag: Option<Tag>) returns (r: Result<string, ModelError>)
      ensures group.Some? ==> r == RecipientList(book.members, InGroup(group.value), GroupNotFound)
      ensures group.None? ==> r == RecipientList(book.members, WithTag(tag), TagNotFound)
    {
      if group.Some? {
        r := GenerateRecipients(InGroup(group.value), GroupNotFound);
      } else {
        r := GenerateRecipients(WithTag(tag), TagNotFound);
      }
    }

    /**
     * The loop shared by `generateGroupEmailRecipients` and
     * `generateTagEmailRecipients`: collect the address of every selected
     * member, remember whether any was found, then join them with commas.
     */
    method GenerateRecipients(sel: MemberSelector, missing: ModelError) returns (r: Result<string, ModelError>)
      ensures r == RecipientList(book.members, sel, missing)
    {
      var members := book.members;
      var emailRecipients: seq<string> := [];
      var found := false;
      for i := 0 to |members|
        invariant emailRecipients == Emails(Select(members[..i], sel))
        invariant found <==> emailRecipients != []
      {
        EmailsStep(members, i, sel);
        if Selects(sel, members[i]) {
          emailRecipients := emailRecipients + [members[i].email];
          found := true;
        }
      }
      assert members[..|members|] == members;
      RecipientListOfEmails(members, sel, missing);
      if !found {
        return Failure(missing);
      }
      return Success(Join(emailRecipients, ','));
    }

    /**
     * `addTaskToTaskList`: with nobody logged in the name lookup throws;
     * otherwise the task is stamped with the logged-in member's name and
     * the not-started status and then added.
     */
    method AddTaskToTaskList(toAdd: Task) returns (o: Outcome<ModelError>)
      modifies this`book
      ensures loggedInMember.None? ==> o == Fail(NullPointer) && book == old(book)
      ensures loggedInMember.Some? ==>
        match ClubBooks.AddTask(old(book), Stamp(toAdd, loggedInMember.value.name))
        case Success(b) => o == Pass && book == b
        case Failure(e) => o == Fail(e) && book == old(book)
    {
      if loggedInMember.None? {
        return Fail(NullPointer);
      }
      var r := ClubBooks.AddTask(book, Stamp(toAdd, loggedInMember.value.name));
      if r.Failure? {
        return Fail(r.error);
      }
      book := r.value;
      return Pass;
    }

    /**
     * `deleteTask`: with nobody logged in the name lookup throws; a member
     * who is not both assignor and assignee gets `TaskCannotBeDeletedException`;
     * otherwise the task is removed from the book.
     */
    method DeleteTask(target: Task) returns (o: Outcome<ModelError>)
      modifies this`book
      ensures loggedInMember.None? ==> o == Fail(NullPointer) && book == old(book)
      ensures loggedInMember.Some? && !MayDeleteTask(loggedInMember.value.name, target) ==>
        o == Fail(TaskCannotBeDeleted) && book == old(book)
      ensures loggedInMember.Some? && MayDeleteTask(loggedInMember.value.name, target) ==>
        match ClubBooks.RemoveTask(old(book), target)
        case Success(b) => o == Pass && book == b
        case Failure(e) => o == Fail(e) && book == old(book)
    {
      if loggedInMember.None? {
        return Fail(NullPointer);
      }
      if !MayDeleteTask(loggedInMember.value.name, target) {
        return Fail(TaskCannotBeDeleted);
      }
      var r := ClubBooks.RemoveTask(book, target);
      if r.Failure? {
        return Fail(r.error);
      }
      book := r.value;
      return Pass;
    }

    method UpdateFilteredMemberList(p: MemberPredicate)
      modifies this`memberFilter
      ensures memberFilter == p
    {
      memberFilter := p;
    }

    method UpdateFilteredPollList(p: PollPredicate)
      modifies this`pollFilter
      ensures pollFilter == p
    {
      pollFilter := p;
    }

    /**
     * `equals`: equal club books and equal filtered member lists; the poll
     * filter and the logged-in member do not take part.
     */
    predicate Equals(other: ModelManager)
      reads this, other, book.polls, other.book.polls
      ensures other == this ==> Equals(other)
    {
      SameBook(book, other.book) && FilteredMembers() == other.FilteredMembers()
    }
  }
}
