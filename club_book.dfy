/**
 * The club book: the member list (unique by matric number), the tag set,
 * the poll list and the task list, with the operations the model facade
 * delegates to. Each operation either yields the new book or names the
 * exception it throws, in which case the book is left as it was.
 */
module ClubBooks {
  import opened Wrappers
  import opened Domain
  import opened Polls

  datatype ClubBook = ClubBook(members: seq<Member>, tags: set<Tag>, polls: seq<Poll>, tasks: seq<Task>)

  const EmptyBook: ClubBook := ClubBook([], {}, [], [])

  // ------------------------------------------------------------- tags

  /** Some member carries tag `t`. */
  predicate Carried(ms: seq<Member>, t: Tag) {
    exists k :: 0 <= k < |ms| && t in ms[k].tags
  }

  /** Every tag that a member carries is in the tag set. */
  predicate TagsCovered(b: ClubBook) {
    forall k, t :: 0 <= k < |b.members| && t in b.members[k].tags ==> t in b.tags
  }

  /** Every tag in the tag set is carried by some member. */
  predicate TagsInUse(b: ClubBook) {
    forall t :: t in b.tags ==> Carried(b.members, t)
  }

  /** The members with tag `t` taken off each of them. */
  function RemoveTagFromAll(ms: seq<Member>, t: Tag): (r: seq<Member>)
    ensures |r| == |ms|
    ensures forall k :: 0 <= k < |ms| ==> r[k] == ms[k].(tags := ms[k].tags - {t})
  {
    seq(|ms|, k requires 0 <= k < |ms| => ms[k].(tags := ms[k].tags - {t}))
  }

  /** Taking off a tag that nobody carries leaves every member as it was. */
  lemma UncarriedTagRemovalChangesNothing(ms: seq<Member>, t: Tag)
    requires !Carried(ms, t)
    ensures RemoveTagFromAll(ms, t) == ms
  {
    var r := RemoveTagFromAll(ms, t);
    forall k | 0 <= k < |ms| ensures r[k] == ms[k] {
      assert t !in ms[k].tags;
      assert ms[k].tags - {t} == ms[k].tags;
    }
  }

  /**
   * `deleteTag`: a tag outside the tag set throws `TagNotFoundException`;
   * otherwise the tag leaves the tag set and every member's tags.
   */
  function DeleteTag(b: ClubBook, t: Tag): (r: Result<ClubBook, ModelError>)
    ensures r.Failure? <==> t !in b.tags
    ensures r.Failure? ==> r.error == TagNotFound
    ensures r.Success? ==>
      && r.value.tags == b.tags - {t}
      && r.value.members == RemoveTagFromAll(b.members, t)
      && !Carried(r.value.members, t)
      && r.value.polls == b.polls && r.value.tasks == b.tasks
    ensures r.Success? && TagsCovered(b) ==> TagsCovered(r.value)
  {
    if t !in b.tags then Failure(TagNotFound)
    else Success(b.(members := RemoveTagFromAll(b.members, t), tags := b.tags - {t}))
  }

  /** The tag sweep: keep exactly the tags that some member still carries. */
  function SweepTags(b: ClubBook): (r: ClubBook)
    ensures r.members == b.members && r.polls == b.polls && r.tasks == b.tasks
    ensures r.tags <= b.tags
    ensures TagsInUse(r)
    ensures forall t :: t in b.tags && Carried(b.members, t) ==> t in r.tags
    ensures TagsCovered(b) ==> TagsCovered(r)
  {
    b.(tags := set t | t in b.tags && Carried(b.members, t))
  }

  /** On a book whose every tag is carried, the sweep changes nothing. */
  lemma SweepOfUsedTagsIsNoOp(b: ClubBook)
    requires TagsInUse(b)
    ensures SweepTags(b) == b
  {
    assert SweepTags(b).tags == b.tags;
  }

  /** Sweeping twice is sweeping once. */
  lemma SweepIsIdempotent(b: ClubBook)
    ensures SweepTags(SweepTags(b)) == SweepTags(b)
  {
    SweepOfUsedTagsIsNoOp(SweepTags(b));
  }

  // ---------------------------------------------------------- members

  /** Some member of `ms` is a duplicate of `m`. */
  predicate HasDuplicate(ms: seq<Member>, m: Member) {
    exists k :: 0 <= k < |ms| && SameMember(ms[k], m)
  }

  /** The position of the first occurrence of `m`, or -1 (`List.indexOf`). */
  function IndexOf(ms: seq<Member>, m: Member): (i: int)
    ensures -1 <= i < |ms|
    ensures i >= 0 ==> ms[i] == m && forall k :: 0 <= k < i ==> ms[k] != m
    ensures i == -1 <==> m !in ms
  {
    if |ms| == 0 then -1
    else if ms[0] == m then 0
    else
      var j := IndexOf(ms[1..], m);
      if j == -1 then -1 else j + 1
  }

  /**
   * `addMember`: a duplicate member throws `DuplicateMemberException`;
   * otherwise the member is appended and its tags join the tag set.
   */
  function AddMember(b: ClubBook, m: Member): (r: Result<ClubBook, ModelError>)
    ensures r.Failure? <==> HasDuplicate(b.members, m)
    ensures r.Failure? ==> r.error == DuplicateMember
    ensures r.Success? ==>
      && r.value.members == b.members + [m]
      && r.value.tags == b.tags + m.tags
      && r.value.polls == b.polls && r.value.tasks == b.tasks
    ensures r.Success? && TagsCovered(b) ==> TagsCovered(r.value)
  {
    if HasDuplicate(b.members, m) then Failure(DuplicateMember)
    else Success(b.(members := b.members + [m], tags := b.tags + m.tags))
  }

  /**
   * `removeMember`: a member not in the list throws `MemberNotFoundException`;
   * otherwise its first occurrence is removed and the others keep their order.
   * The tag set is not swept.
   */
  function RemoveMember(b: ClubBook, target: Member): (r: Result<ClubBook, ModelError>)
    ensures r.Failure? <==> target !in b.members
    ensures r.Failure? ==> r.error == MemberNotFound
    ensures r.Success? ==>
      var i := IndexOf(b.members, target);
      && r.value.members == b.members[..i] + b.members[i + 1..]
      && r.value.tags == b.tags && r.value.polls == b.polls && r.value.tasks == b.tasks
    ensures r.Success? ==> |r.value.members| == |b.members| - 1
    ensures r.Success? ==> multiset(r.value.members) == multiset(b.members) - multiset{target}
  {
    var i := IndexOf(b.members, target);
    if i == -1 then Failure(MemberNotFound)
    else
      assert b.members == b.members[..i] + [target] + b.members[i + 1..];
      Success(b.(members := b.members[..i] + b.members[i + 1..]))
  }

  /**
   * `updateMember`: a target not in the list throws `MemberNotFoundException`;
   * an edited member that duplicates some other member throws
   * `DuplicateMemberException`; otherwise the edited member takes the
   * target's place and its tags join the tag set.
   */
  function UpdateMember(b: ClubBook, target: Member, edited: Member): (r: Result<ClubBook, ModelError>)
    ensures r.Failure? <==>
      target !in b.members ||
      exists k :: 0 <= k < |b.members| && k != IndexOf(b.members, target) && SameMember(b.members[k], edited)
    ensures target !in b.members ==> r == Failure(MemberNotFound)
    ensures r.Failure? && target in b.members ==> r.error == DuplicateMember
    ensures r.Success? ==>
      var i := IndexOf(b.members, target);
      && |r.value.members| == |b.members|
      && r.value.members[i] == edited
      && (forall k :: 0 <= k < |b.members| && k != i ==> r.value.members[k] == b.members[k])
      && r.value.tags == b.tags + edited.tags
      && r.value.polls == b.polls && r.value.tasks == b.tasks
    ensures r.Success? && TagsCovered(b) ==> TagsCovered(r.value)
  {
    var i := IndexOf(b.members, target);
    if i == -1 then Failure(MemberNotFound)
    else if exists k :: 0 <= k < |b.members| && k != i && SameMember(b.members[k], edited) then Failure(DuplicateMember)
    else Success(b.(members := b.members[i := edited], tags := b.tags + edited.tags))
  }

  /** After an update and the sweep that follows it, the tag set is exactly the tags members carry. */
  lemma UpdateThenSweepTagsExact(b: ClubBook, target: Member, edited: Member)
    requires TagsCovered(b)
    requires UpdateMember(b, target, edited).Success?
    ensures var swept := SweepTags(UpdateMember(b, target, edited).value);
            forall t :: t in swept.tags <==> Carried(swept.members, t)
  {
    var swept := SweepTags(UpdateMember(b, target, edited).value);
    forall t | Carried(swept.members, t) ensures t in swept.tags {
      var k :| 0 <= k < |swept.members| && t in swept.members[k].tags;
    }
  }

  // ------------------------------------------------------------ groups

  /** The members with every member of group `g` moved to the mandatory group. */
  function MoveToMandatory(ms: seq<Member>, g: Group): (r: seq<Member>)
    ensures |r| == |ms|
    ensures g != MandatoryGroup ==> forall k :: 0 <= k < |r| ==> r[k].group != g
    ensures forall k :: 0 <= k < |ms| && ms[k].group != g ==> r[k] == ms[k]
    ensures forall k :: 0 <= k < |ms| && ms[k].group == g ==>
      r[k].group == MandatoryGroup && r[k].(group := g) == ms[k]
  {
    seq(|ms|, k requires 0 <= k < |ms| => if ms[k].group == g then ms[k].(group := MandatoryGroup) else ms[k])
  }

  /**
   * `removeGroup`: the mandatory group throws `GroupCannotBeRemovedException`,
   * a group no member belongs to throws `GroupNotFoundException`; otherwise
   * every member of the group moves to the mandatory group and nothing else changes.
   */
  function RemoveGroup(b: ClubBook, g: Group): (r: Result<ClubBook, ModelError>)
    ensures r.Success? <==> g != MandatoryGroup && exists k :: 0 <= k < |b.members| && b.members[k].group == g
    ensures g == MandatoryGroup ==> r == Failure(GroupCannotBeRemoved)
    ensures g != MandatoryGroup && (forall k :: 0 <= k < |b.members| ==> b.members[k].group != g) ==>
      r == Failure(GroupNotFound)
    ensures r.Success? ==>
      && g != MandatoryGroup
      && r.value == b.(members := MoveToMandatory(b.members, g))
      && forall k :: 0 <= k < |r.value.members| ==> r.value.members[k].group != g
  {
    if g == MandatoryGroup then Failure(GroupCannotBeRemoved)
    else if forall k :: 0 <= k < |b.members| ==> b.members[k].group != g then Failure(GroupNotFound)
    else Success(b.(members := MoveToMandatory(b.members, g)))
  }

  /** Removing a group neither adds nor drops members, and keeps the tag invariant. */
  lemma RemoveGroupKeepsMembers(b: ClubBook, g: Group)
    requires RemoveGroup(b, g).Success?
    ensures var after := RemoveGroup(b, g).value;
      && |after.members| == |b.members|
      && (forall k :: 0 <= k < |b.members| ==>
            after.members[k].matric == b.members[k].matric && after.members[k].tags == b.members[k].tags)
      && (TagsCovered(b) ==> TagsCovered(after))
  {
  }

  // ------------------------------------------------------------- polls

  /** Some poll of `ps` equals `p`. */
  predicate HasEqualPoll(ps: seq<Poll>, p: Poll)
    reads ps, p
  {
    exists k :: 0 <= k < |ps| && ps[k].Equals(p)
  }

  /** The position of the first poll equal to `p`, or -1. */
  function IndexOfPoll(ps: seq<Poll>, p: Poll): (i: int)
    reads ps, p
    ensures -1 <= i < |ps|
    ensures i >= 0 ==> ps[i].Equals(p) && forall k :: 0 <= k < i ==> !ps[k].Equals(p)
    ensures i == -1 <==> !HasEqualPoll(ps, p)
  {
    if |ps| == 0 then -1
    else if ps[0].Equals(p) then 0
    else
      var j := IndexOfPoll(ps[1..], p);
      assert forall k :: 1 <= k < |ps| ==> ps[k] == ps[1..][k - 1];
      if j == -1 then -1 else j + 1
  }

  /** `addPoll`: a poll equal to a listed one throws `DuplicatePollException`; otherwise it is appended. */
  function AddPoll(b: ClubBook, p: Poll): (r: Result<ClubBook, ModelError>)
    reads b.polls, p
    ensures r.Failure? <==> HasEqualPoll(b.polls, p)
    ensures r.Failure? ==> r.error == DuplicatePoll
    ensures r.Success? ==> r.value == b.(polls := b.polls + [p])
  {
    if HasEqualPoll(b.polls, p) then Failure(DuplicatePoll)
    else Success(b.(polls := b.polls + [p]))
  }

  /** `removePoll`: no equal poll throws `PollNotFoundException`; otherwise the first equal poll is removed. */
  function RemovePoll(b: ClubBook, p: Poll): (r: Result<ClubBook, ModelError>)
    reads b.polls, p
    ensures r.Failure? <==> !HasEqualPoll(b.polls, p)
    ensures r.Failure? ==> r.error == PollNotFound
    ensures r.Success? ==>
      var i := IndexOfPoll(b.polls, p);
      r.value == b.(polls := b.polls[..i] + b.polls[i + 1..])
  {
    var i := IndexOfPoll(b.polls, p);
    if i == -1 then Failure(PollNotFound)
    else Success(b.(polls := b.polls[..i] + b.polls[i + 1..]))
  }

  // ------------------------------------------------------------- tasks

  predicate HasSameTask(ts: seq<Task>, t: Task) {
    exists k :: 0 <= k < |ts| && SameTask(ts[k], t)
  }

  /** The position of the first task that is the same as `t`, or -1. */
  function IndexOfTask(ts: seq<Task>, t: Task): (i: int)
    ensures -1 <= i < |ts|
    ensures i >= 0 ==> SameTask(ts[i], t) && forall k :: 0 <= k < i ==> !SameTask(ts[k], t)
    ensures i == -1 <==> !HasSameTask(ts, t)
  {
    if |ts| == 0 then -1
    else if SameTask(ts[0], t) then 0
    else
      var j := IndexOfTask(ts[1..], t);
      assert forall k :: 1 <= k < |ts| ==> ts[k] == ts[1..][k - 1];
      if j == -1 then -1 else j + 1
  }

  /** `addTaskToTaskList`: a duplicate task throws `DuplicateTaskException`; otherwise it is appended. */
  function AddTask(b: ClubBook, t: Task): (r: Result<ClubBook, ModelError>)
    ensures r.Failure? <==> HasSameTask(b.tasks, t)
    ensures r.Failure? ==> r.error == DuplicateTask
    ensures r.Success? ==> r.value == b.(tasks := b.tasks + [t])
  {
    if HasSameTask(b.tasks, t) then Failure(DuplicateTask)
    else Success(b.(tasks := b.tasks + [t]))
  }

  /** `deleteTask`: no such task throws `TaskNotFoundException`; otherwise the first matching task is removed. */
  function RemoveTask(b: ClubBook, t: Task): (r: Result<ClubBook, ModelError>)
    ensures r.Failure? <==> !HasSameTask(b.tasks, t)
    ensures r.Failure? ==> r.error == TaskNotFound
    ensures r.Success? ==>
      var i := IndexOfTask(b.tasks, t);
      r.value == b.(tasks := b.tasks[..i] + b.tasks[i + 1..])
  {
    var i := IndexOfTask(b.tasks, t);
    if i == -1 then Failure(TaskNotFound)
    else Success(b.(tasks := b.tasks[..i] + b.tasks[i + 1..]))
  }

  /** Deleting a task just added gives back the book it was added to. */
  lemma AddedTaskIsRemoved(b: ClubBook, t: Task)
    requires AddTask(b, t).Success?
    ensures RemoveTask(AddTask(b, t).value, t) == Success(b)
  {
    var ts := b.tasks + [t];
    assert SameTask(ts[|b.tasks|], t);
    assert HasSameTask(ts, t);
    var i := IndexOfTask(ts, t);
    assert i == |b.tasks|;
    assert ts[..i] + ts[i + 1..] == b.tasks;
  }

  // --------------------------------------------------------- equality

  /** `ClubBook.equals`: equal members, tags and tasks, and pairwise equal polls. */
  predicate SameBook(a: ClubBook, b: ClubBook): (r: bool)
    reads a.polls, b.polls
    ensures a == b ==> r
    ensures r ==> |a.members| == |b.members| && |a.polls| == |b.polls|
  {
    && a.members == b.members
    && a.tags == b.tags
    && a.tasks == b.tasks
    && |a.polls| == |b.polls|
    && forall k :: 0 <= k < |a.polls| ==> a.polls[k].Equals(b.polls[k])
  }

  /** Book equality is an equivalence: reflexive, symmetric and transitive. */
  lemma SameBookIsEquivalence(a: ClubBook, b: ClubBook, c: ClubBook)
    ensures SameBook(a, a)
    ensures SameBook(a, b) ==> SameBook(b, a)
    ensures SameBook(a, b) && SameBook(b, c) ==> SameBook(a, c)
  {
    forall k | 0 <= k < |a.polls| ensures a.polls[k].Equals(a.polls[k]) {
      PollEqualityIsEquivalence(a.polls[k], a.polls[k], a.polls[k]);
    }
    if SameBook(a, b) {
      forall k | 0 <= k < |b.polls| ensures b.polls[k].Equals(a.polls[k]) {
        PollEqualityIsEquivalence(a.polls[k], b.polls[k], b.polls[k]);
      }
      if SameBook(b, c) {
        forall k | 0 <= k < |a.polls| ensures a.polls[k].Equals(c.polls[k]) {
          PollEqualityIsEquivalence(a.polls[k], b.polls[k], c.polls[k]);
        }
      }
    }
  }
}
