/**
 * The value types of the club book: members, tags, groups, tasks, the
 * domain exceptions, and the predicates behind the filtered member view.
 */
module Domain {
  import opened Wrappers
  import opened Text

  type Tag = string
  type Group = string
  type MatricNumber = string

  /** The group every member falls back to; it cannot be removed. */
  const MandatoryGroup: Group := "member"

  /** A club member; `name` is the full name that tasks record as assignor and assignee. */
  datatype Member = Member(
    name: string,
    phone: string,
    email: string,
    matric: MatricNumber,
    group: Group,
    tags: set<Tag>,
    username: string,
    password: string)

  /** Members are duplicates when their matric numbers agree, ignoring case. */
  predicate SameMember(a: Member, b: Member) {
    EqualsIgnoreCase(a.matric, b.matric)
  }

  datatype Status = NotStarted | InProgress | Completed

  datatype Task = Task(
    description: string,
    date: string,
    time: string,
    assignor: string,
    assignee: string,
    status: Status)

  /** Tasks are duplicates when description, date, time and assignee agree. */
  predicate SameTask(a: Task, b: Task) {
    a.description == b.description && a.date == b.date && a.time == b.time && a.assignee == b.assignee
  }

  /** The checked exceptions of the model, plus the `NullPointerException` of a missing logged-in member. */
  datatype ModelError =
    | DuplicateMember
    | MemberNotFound
    | DuplicatePoll
    | PollNotFound
    | AnswerNotFound
    | UserAlreadyVoted
    | DuplicateTask
    | TaskNotFound
    | TaskCannotBeDeleted
    | TagNotFound
    | GroupNotFound
    | GroupCannotBeRemoved
    | NullPointer

  // ------------------------------------------------ filtered member view

  datatype MemberField = NameField | PhoneField | EmailField | MatricField | GroupField

  function FieldText(m: Member, f: MemberField): string {
    match f
    case NameField => m.name
    case PhoneField => m.phone
    case EmailField => m.email
    case MatricField => m.matric
    case GroupField => m.group
  }

  /**
   * The predicate of the filtered member list: show everyone, or the
   * members whose chosen field contains one of the keywords, ignoring case
   * and allowing partial matches.
   */
  datatype MemberPredicate =
    | ShowAllMembers
    | FieldContainsKeywords(field: MemberField, keywords: seq<string>)

  predicate Accepts(p: MemberPredicate, m: Member) {
    match p
    case ShowAllMembers => true
    case FieldContainsKeywords(f, keywords) =>
      exists k :: 0 <= k < |keywords| && ContainsIgnoreCase(FieldText(m, f), keywords[k])
  }

  /** Which members a scan over the member list picks: by view predicate, by group, or by tag (`None` is a null tag). */
  datatype MemberSelector =
    | Matching(filter: MemberPredicate)
    | InGroup(group: Group)
    | WithTag(tag: Option<Tag>)

  predicate Selects(sel: MemberSelector, m: Member) {
    match sel
    case Matching(p) => Accepts(p, m)
    case InGroup(g) => m.group == g
    case WithTag(t) => t.Some? && t.value in m.tags
  }

  /** The selected members, in member-list order. */
  function Select(ms: seq<Member>, sel: MemberSelector): (r: seq<Member>)
    ensures |r| <= |ms|
    ensures forall k :: 0 <= k < |r| ==> r[k] in ms && Selects(sel, r[k])
    ensures forall k :: 0 <= k < |ms| && Selects(sel, ms[k]) ==> ms[k] in r
  {
    if |ms| == 0 then []
    else
      var front := ms[..|ms| - 1];
      var last := ms[|ms| - 1];
      assert ms == front + [last];
      Select(front, sel) + (if Selects(sel, last) then [last] else [])
  }

  /** Selecting from a non-empty list: the selection of all but the last member, then the last member if selected. */
  lemma SelectLast(ms: seq<Member>, sel: MemberSelector)
    requires |ms| > 0
    ensures Select(ms, sel) == Select(ms[..|ms| - 1], sel) + Kept(sel, ms[|ms| - 1])
  {
  }

  /** The one-member selection of `m`. */
  function Kept(sel: MemberSelector, m: Member): (r: seq<Member>)
    ensures Selects(sel, m) ==> r == [m]
    ensures !Selects(sel, m) ==> r == []
  {
    if Selects(sel, m) then [m] else []
  }

  /** Concatenation of sequences associates. */
  lemma AppendAssociates<T>(x: seq<T>, y: seq<T>, z: seq<T>)
    ensures (x + y) + z == x + (y + z)
  {
  }

  /** Selection keeps list order: selecting from a concatenation concatenates the selections. */
  lemma {:induction false} SelectAppend(a: seq<Member>, b: seq<Member>, sel: MemberSelector)
    ensures Select(a + b, sel) == Select(a, sel) + Select(b, sel)
    decreases |b|
  {
    if |b| == 0 {
      assert a + b == a;
    } else {
      var front, last := b[..|b| - 1], b[|b| - 1];
      assert (a + b)[..|a + b| - 1] == a + front;
      assert (a + b)[|a + b| - 1] == last;
      var x, y, k := Select(a, sel), Select(front, sel), Kept(sel, last);
      SelectAppend(a, front, sel);
      SelectLast(a + b, sel);
      SelectLast(b, sel);
      assert Select(a + b, sel) == (x + y) + k;
      assert Select(b, sel) == y + k;
      AppendAssociates(x, y, k);
    }
  }

  /** Extending the scanned prefix by one member adds that member when it is selected. */
  lemma SelectStep(ms: seq<Member>, i: nat, sel: MemberSelector)
    requires i < |ms|
    ensures Select(ms[..i + 1], sel) == Select(ms[..i], sel) + (if Selects(sel, ms[i]) then [ms[i]] else [])
  {
    assert ms[..i + 1][..i] == ms[..i];
  }

  /** Under the show-all predicate the view is the whole member list. */
  lemma {:induction false} ShowAllMembersShowsAll(ms: seq<Member>)
    ensures Select(ms, Matching(ShowAllMembers)) == ms
    decreases |ms|
  {
    if |ms| > 0 {
      ShowAllMembersShowsAll(ms[..|ms| - 1]);
      assert ms == ms[..|ms| - 1] + [ms[|ms| - 1]];
    }
  }

  /** The e-mail addresses of the given members, in order. */
  function Emails(ms: seq<Member>): (r: seq<string>)
    ensures |r| == |ms|
    ensures forall k :: 0 <= k < |ms| ==> r[k] == ms[k].email
  {
    seq(|ms|, k requires 0 <= k < |ms| => ms[k].email)
  }

  lemma EmailsAppend(ms: seq<Member>, extra: seq<Member>)
    ensures Emails(ms + extra) == Emails(ms) + Emails(extra)
  {
  }
}
