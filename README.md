# Club book model

A Dafny model of the in-memory core of a club-management application ("club
book"). It covers the model facade `ModelManager`, the poll state machine
`Poll`, the commands `vote`, `add`, `signup` and `find`, and the e-mail
`Subject` value type. The properties below are proved about that model.

- **Club book.** `ClubBook.java` is not part of this model, so the club
  book is a value here: a member list, a tag set, a poll list
  and a task list. Its operations return either the new book or the
  exception they throw (`ClubBooks`).
- **Facade.** `ModelManager` is a class. It owns the book, the predicates of
  the filtered member and poll lists, and the logged-in member, and its
  methods update those fields in place (`Model`). The tag sweep after an
  edit (`deleteUnusedTags`) and the e-mail recipient builders are loops,
  proved against the functions `SweepTags` and `RecipientList`.
- **Filtered lists.** A filtered list is a predicate applied to a sequence.
  `Select` keeps the accepted members in list order.
- **Poll.** `Poll` is a class whose `Vote` method is proved against the
  function `VoteOn` on poll values. The invariant "the total vote count
  equals the number of voters" is proved to survive every vote.
- **Commands.** Each command's effect on the facade and its feedback text are
  stated in its `Execute` contract. `vote` also has a preprocessing step,
  which resolves the chosen poll from the filtered poll list.
- **Equality.** `equals` on `AddCommand` and `FindByCommand` compares the
  single field. That is datatype equality, so it has no member of its own.
- **Null.** Java's `null` is `None` (or a `Poll?` that is `null`), and a
  `NullPointerException` is the error `NullPointer` or the outcome
  `NullDereference`.
- **Indices.** They are zero-based throughout, as `Index.getZeroBased` gives
  them.

Decisions where the Java leaves something open:

- **Duplicate members.** Members are duplicates when their matric numbers
  agree ignoring case. Voters are recorded by plain matric-number equality.
- **Answer and book equality.** `Answer.java` and `ClubBook.java` are not
  part of this model. `Answer` equality compares the text and the vote
  count, so `Poll.equals`, which compares the answer lists, sees votes: equal
  polls have the same total, an accepted vote makes a poll unequal to its
  old self, and `addPoll` reports a duplicate only for a poll with the same
  counts. `ClubBook` equality compares the members, the tags and the tasks,
  and the polls pairwise with `Poll.equals`.
- **Tags when adding or updating.** `addMember` and `updateMember` add the
  member's tags to the tag set. `removeMember` does not sweep tags, because
  `deleteMember` never calls `deleteUnusedTags`.
- **`updateMember` and the member filter.** After the edit, `updateMember`
  runs the tag sweep, and each tag the sweep deletes goes through
  `deleteTag`. `deleteTag` resets the member filter. So the model's
  `updateMember` keeps the filter only when the sweep deletes nothing, and
  resets it to show everyone otherwise.
- **`voteInPoll`, `signUpMember` and `addPerson`** are called by the commands
  but `ModelManager.java` defines none of them. The model makes these assumptions:
  - `voteInPoll` votes as the logged-in member, throwing with nobody logged
    in, and reports a poll outside the book as not found;
  - `signUpMember` adds the member as `addMember` does, without the filter
    reset;
  - `addPerson` is `addMember`.
- **Message texts.** The texts of the poll-index and answer-index messages
  (`Messages`) are not part of this model. They are worded after the member
  one: "The poll index provided is invalid" and "The answer index provided
  is invalid". The added member is shown by its name, because
  `Member.toString` is not part of this model either.

## Model

| member | source | states |
|---|---|---|
| Model.ModelManager.constructor | src/main/java/seedu/club/model/ModelManager.java:60-72 | the book is the initial one, both filters show everything, and the logged-in member is the first member or null |
| Model.ModelManager.GetLoggedInMember | src/main/java/seedu/club/model/ModelManager.java:79-85 | the result and the stored field are the first member of the filtered list, or null when that list is empty |
| Model.ModelManager.ResetData | src/main/java/seedu/club/model/ModelManager.java:88-91 | the book is replaced by the new data |
| Model.ModelManager.DeleteMember | src/main/java/seedu/club/model/ModelManager.java:127-131 | the book becomes the one `removeMember` yields, or the error is reported with the book unchanged; the filter is untouched |
| Model.ModelManager.AddMember | src/main/java/seedu/club/model/ModelManager.java:133-139 | on success the member is appended and the member filter is reset to show everyone; a duplicate leaves book and filter unchanged |
| Model.ModelManager.SignUpMember | src/main/java/seedu/club/logic/commands/SignUpCommand.java:54 | the member is added as `addMember` adds it, or the book is unchanged |
| Model.ModelManager.UpdateMember | src/main/java/seedu/club/model/ModelManager.java:141-149 | on success the book is the swept result of the update, and the member filter is reset exactly when the sweep deleted a tag; an error leaves book and filter unchanged |
| Model.ModelManager.AddPoll | src/main/java/seedu/club/model/ModelManager.java:151-156 | on success the poll is appended and the poll filter is reset; a duplicate leaves book and filter unchanged |
| Model.ModelManager.DeletePoll | src/main/java/seedu/club/model/ModelManager.java:158-162 | the first equal poll is removed, or `PollNotFound` is reported with the book unchanged |
| Model.ModelManager.VoteInPoll | src/main/java/seedu/club/logic/commands/exceptions/VoteCommand.java:52 | with nobody logged in the call throws; a poll outside the book is not found; otherwise the poll's new state is `VoteOn` for the logged-in member's matric number |
| Model.ModelManager.RemoveGroup | src/main/java/seedu/club/model/ModelManager.java:173-178 | the mandatory or an unknown group leaves the book unchanged with the matching error; otherwise the book is `RemoveGroup`'s result |
| Model.ModelManager.DeleteTag | src/main/java/seedu/club/model/ModelManager.java:182-187 | on success the tag leaves the tag set and every member and the member filter is reset; an unknown tag changes nothing |
| Model.ModelManager.DeleteUnusedTags | src/main/java/seedu/club/model/ModelManager.java:192-198 | the loop over the tag snapshot leaves exactly the swept book, and the filter is reset exactly when some tag was deleted |
| Model.ModelManager.DeleteTagIfUnused | src/main/java/seedu/club/model/ModelManager.java:205-213 | a carried tag changes nothing; an uncarried one leaves only the tag set, and the filter is reset; the "tag cannot be missing" branch is unreachable |
| Model.ModelManager.IsNotTaggedInMembers | src/main/java/seedu/club/model/ModelManager.java:218-227 | true exactly when no member's tag set contains the tag |
| Model.ModelManager.GenerateEmailRecipients | src/main/java/seedu/club/model/ModelManager.java:231-236 | the group is used when it is not null, otherwise the tag, with `GroupNotFound` or `TagNotFound` when nobody matches |
| Model.ModelManager.GenerateRecipients | src/main/java/seedu/club/model/ModelManager.java:242-280 | the scan over the members computes exactly the recipient list of the selection |
| Model.RecipientList | src/main/java/seedu/club/model/ModelManager.java:242-280 | fails with the given error exactly when no member is selected |
| Model.RecipientListNamesSelected | src/main/java/seedu/club/model/ModelManager.java:242-280 | with comma-free addresses, cutting the list at commas gives the selected members' addresses in member-list order, and an address occurs exactly when some selected member has it |
| Model.EmailsStep | src/main/java/seedu/club/model/ModelManager.java:247-253 | scanning one more member appends its address exactly when it is selected |
| Model.ModelManager.AddTaskToTaskList | src/main/java/seedu/club/model/ModelManager.java:288-301 | with nobody logged in the call throws; otherwise the task stamped with the member's name and the not-started status is added, or `DuplicateTask` leaves the book unchanged |
| Model.Stamp | src/main/java/seedu/club/model/ModelManager.java:290-295 | assignor and assignee become the name and the status becomes not started; description, date and time are kept |
| Model.ModelManager.DeleteTask | src/main/java/seedu/club/model/ModelManager.java:304-314 | with nobody logged in the call throws; unless the member's name equals both assignor and assignee ignoring case, `TaskCannotBeDeleted` leaves the book unchanged; otherwise `RemoveTask`'s result |
| Model.MayDeleteTask | src/main/java/seedu/club/model/ModelManager.java:308-311 | a member may delete a task exactly when the lower-cased name equals both the lower-cased assignor and the lower-cased assignee |
| Model.OwnTaskMayBeDeleted | src/main/java/seedu/club/model/ModelManager.java:288-314 | a task the member added may be deleted by the same member, and deleting it gives back the book it was added to |
| Model.ModelManager.FilteredMembers | src/main/java/seedu/club/model/ModelManager.java:325-327 | the filtered member list holds only members of the book that the filter accepts, and every such member; under the show-all filter it is the whole member list |
| Model.ModelManager.FilteredPolls | src/main/java/seedu/club/model/ModelManager.java:341-343 | the filtered poll list holds only polls of the book that the filter accepts, and every such poll; under the show-all filter it is the whole poll list |
| Model.ModelManager.UpdateFilteredMemberList | src/main/java/seedu/club/model/ModelManager.java:335-338 | the member filter becomes the given predicate |
| Model.ModelManager.UpdateFilteredPollList | src/main/java/seedu/club/model/ModelManager.java:346-349 | the poll filter becomes the given predicate |
| Model.ModelManager.Equals | src/main/java/seedu/club/model/ModelManager.java:352-367 | a model equals itself; equality is equal books and equal filtered member lists |
| ClubBooks.SameBook | src/main/java/seedu/club/model/ModelManager.java:365 | a book equals itself, and equal books have as many members and as many polls |
| ClubBooks.SameBookIsEquivalence | src/main/java/seedu/club/model/ModelManager.java:365 | book equality (equal members, tags and tasks, pairwise equal polls) is reflexive, symmetric and transitive |
| ClubBooks.DeleteTag | src/test/java/seedu/club/model/ModelManagerTest.java:88-115 | an unknown tag throws `TagNotFound`; otherwise the tag leaves the tag set and every member, and the tag invariant is kept |
| ClubBooks.SweepTags | src/main/java/seedu/club/model/ModelManager.java:192-227 | after the sweep every tag is carried by a member, no carried tag is removed, members, polls and tasks are unchanged |
| ClubBooks.SweepOfUsedTagsIsNoOp | src/main/java/seedu/club/model/ModelManager.java:192-213 | on a book whose every tag is carried, the sweep changes nothing |
| ClubBooks.SweepIsIdempotent | src/main/java/seedu/club/model/ModelManager.java:192-213 | sweeping twice is sweeping once |
| ClubBooks.UncarriedTagRemovalChangesNothing | src/main/java/seedu/club/model/ModelManager.java:205-208 | deleting a tag no member carries leaves every member as it was |
| ClubBooks.UpdateThenSweepTagsExact | src/main/java/seedu/club/model/ModelManager.java:141-149 | after an update and its sweep, a tag is in the tag set exactly when some member carries it |
| ClubBooks.AddMember | src/main/java/seedu/club/model/ModelManager.java:134-136 | `DuplicateMember` exactly when some member has the same matric number ignoring case; otherwise the member is appended and its tags join the tag set |
| ClubBooks.IndexOf | src/main/java/seedu/club/model/ModelManager.java:128-129 | the position of the first occurrence of the member, or -1 exactly when it is absent |
| ClubBooks.RemoveMember | src/main/java/seedu/club/model/ModelManager.java:128-129 | `MemberNotFound` exactly when the member is absent; otherwise its first occurrence is removed, the rest keep their order, and the multiset loses one copy |
| ClubBooks.UpdateMember | src/main/java/seedu/club/model/ModelManager.java:142-146 | `MemberNotFound` first, then `DuplicateMember` exactly when another member has the edited matric number; otherwise only the target's position changes |
| ClubBooks.MoveToMandatory | src/main/java/seedu/club/model/ModelManager.java:173-178 | no member is left in a non-mandatory group; its members now belong to the mandatory group and keep everything else; members outside the group are unchanged |
| ClubBooks.RemoveGroup | src/main/java/seedu/club/model/ModelManager.java:173-178 | removal succeeds exactly when the group is not the mandatory one and some member belongs to it; the mandatory group cannot be removed, a group nobody belongs to is not found, and on success every member of the group moves to the mandatory group, nobody is left in the group and nothing else changes |
| ClubBooks.RemoveGroupKeepsMembers | src/test/java/seedu/club/model/ModelManagerTest.java:71-86 | removing a group keeps the number of members, their matric numbers and tags, and the tag invariant |
| ClubBooks.IndexOfPoll | src/main/java/seedu/club/model/ModelManager.java:159-160 | the first poll equal to the target, or -1 exactly when there is none |
| ClubBooks.AddPoll | src/main/java/seedu/club/model/ModelManager.java:152-153 | `DuplicatePoll` exactly when an equal poll is listed; otherwise the poll is appended |
| ClubBooks.RemovePoll | src/main/java/seedu/club/model/ModelManager.java:159-160 | `PollNotFound` exactly when no equal poll is listed; otherwise the first equal one is removed |
| ClubBooks.IndexOfTask | src/main/java/seedu/club/model/ModelManager.java:312 | the first task that is the same as the target, or -1 exactly when there is none |
| ClubBooks.AddTask | src/main/java/seedu/club/model/ModelManager.java:296-299 | `DuplicateTask` exactly when the same task is listed; otherwise the task is appended |
| ClubBooks.AddedTaskIsRemoved | src/main/java/seedu/club/model/ModelManager.java:296-312 | deleting a task right after adding it gives back the book it was added to |
| ClubBooks.RemoveTask | src/main/java/seedu/club/model/ModelManager.java:312 | `TaskNotFound` exactly when the task is absent; otherwise the first matching task is removed |
| Domain.Select | src/main/java/seedu/club/model/ModelManager.java:325-327 | the filtered list holds only accepted members of the book, and every accepted member of the book |
| Domain.SelectAppend | src/main/java/seedu/club/model/ModelManager.java:325-327 | filtering keeps list order: filtering a concatenation concatenates the filtered parts |
| Domain.ShowAllMembersShowsAll | src/main/java/seedu/club/model/ModelManager.java:137 | under the show-all predicate the filtered list is the whole member list |
| Polls.ShowAllPollsShowsAll | src/main/java/seedu/club/model/ModelManager.java:154 | under the show-all predicate the filtered poll list is the whole poll list |
| Polls.PollsMatchingAppend | src/main/java/seedu/club/model/ModelManager.java:341-343 | filtering polls keeps book order: filtering a concatenation concatenates the filtered parts |
| Polls.PollsMatching | src/main/java/seedu/club/model/ModelManager.java:341-343 | the filtered poll list holds only accepted polls of the book, and every accepted poll |
| Polls.Poll.constructor | src/main/java/seedu/club/model/poll/Poll.java:35-44 | the poll holds the question, the answers and a copy of the voter set |
| Polls.Poll.WithoutVoters | src/main/java/seedu/club/model/poll/Poll.java:31-33 | the two-argument constructor as intended: nobody has voted, and with zero-vote answers the invariant holds |
| Polls.Poll.Vote | src/main/java/seedu/club/model/poll/Poll.java:78-90 | the outcome and the new poll state are exactly those of `VoteOn` |
| Polls.VoteOn | src/main/java/seedu/club/model/poll/Poll.java:78-90 | a repeat voter is rejected and nothing changes; then an answer index outside the list is rejected and nothing changes; otherwise the chosen count rises by one, the voter is recorded and every other answer is unchanged |
| Polls.CountVote | src/main/java/seedu/club/model/poll/Poll.java:84 | the chosen answer keeps its text and gains one vote; the other answers are unchanged |
| Polls.VoteKeepsTally | src/main/java/seedu/club/model/poll/Poll.java:78-90 | if the total vote count equals the number of voters before a vote, it still does after it, accepted or rejected |
| Polls.CountVoteAddsOne | src/main/java/seedu/club/model/poll/Poll.java:84 | one more vote raises the total by exactly one |
| Polls.SumVotes | src/main/java/seedu/club/model/poll/Poll.java:58-60 | no answer has more votes than the total, and the total is zero exactly when no answer has a vote |
| Polls.Poll.TotalVoteCount | src/main/java/seedu/club/model/poll/Poll.java:58-60 | the poll's total is at least every answer's count, and zero exactly when no answer has a vote |
| Polls.SumVotesAppend | src/main/java/seedu/club/model/poll/Poll.java:58-60 | the total of a concatenation of answer lists is the sum of their totals |
| Polls.SamePoll | src/main/java/seedu/club/model/poll/Poll.java:50-51 | polls with the same question and answers have as many answers and, under the `Answer` equality above, the same total vote count |
| Polls.Poll.Equals | src/main/java/seedu/club/model/poll/Poll.java:46-52 | a poll equals itself, the short cut at line 48, and equal polls report the same total vote count |
| Polls.PollEqualityIsEquivalence | src/main/java/seedu/club/model/poll/Poll.java:46-52 | poll equality is reflexive, symmetric and transitive, and equal polls report the same total vote count |
| Polls.SamePollIgnoresVoters | src/main/java/seedu/club/model/poll/Poll.java:47-52 | poll equality does not depend on who has voted |
| Polls.AcceptedVoteChangesPoll | src/main/java/seedu/club/model/poll/Poll.java:47-52 | under the `Answer` equality above, after an accepted vote the poll no longer equals what it was |
| Polls.ConstructAsWritten | src/main/java/seedu/club/model/poll/Poll.java:35-44 | the constructor throws exactly when the voter set is null |
| Polls.TwoArgumentConstructorAlwaysThrows | src/main/java/seedu/club/model/poll/Poll.java:31-33 | the two-argument constructor as written never builds a poll |
| VoteCommands.Resolve | src/main/java/seedu/club/logic/commands/exceptions/VoteCommand.java:66-74 | the poll-index message exactly when the poll index is outside the filtered list; the answer-index message exactly when the answer index is outside the chosen poll; otherwise the poll at that index |
| VoteCommands.VoteCommand.Preprocess | src/main/java/seedu/club/logic/commands/exceptions/VoteCommand.java:65-75 | the outcome and the remembered poll follow `Resolve`; a rejection leaves the remembered poll as it was |
| VoteCommands.PreprocessAsWritten | src/main/java/seedu/club/logic/commands/exceptions/VoteCommand.java:66-74 | as written: the poll index is checked, then the answer index against the previously remembered poll, which may be null |
| VoteCommands.FreshCommandDereferencesNull | src/main/java/seedu/club/logic/commands/exceptions/VoteCommand.java:71 | a fresh command with a valid poll index dereferences null as written, where the intended order never does |
| VoteCommands.StalePollLetsBadAnswerThrough | src/main/java/seedu/club/logic/commands/exceptions/VoteCommand.java:71-74 | as written, an answer index valid only for the stale poll is let through |
| VoteCommands.ResolvedPollIsInBook | src/main/java/seedu/club/logic/commands/exceptions/VoteCommand.java:55-56 | a resolved poll is one of the book's polls |
| VoteCommands.ResolvedAnswerIsPresent | src/main/java/seedu/club/logic/commands/exceptions/VoteCommand.java:57-58 | voting for a resolved answer index never reports the answer missing |
| VoteCommands.VoteCommand.Execute | src/main/java/seedu/club/logic/commands/exceptions/VoteCommand.java:50-62 | a repeat voter gets "You have already voted in this poll"; a missing poll or answer is an assertion failure; a counted vote resets the poll filter and answers "Your vote has been received" |
| VoteCommands.SameResolvedPoll | src/main/java/seedu/club/logic/commands/exceptions/VoteCommand.java:93 | `Objects.equals`: a poll reference equals itself, and null equals only null |
| VoteCommands.SameResolvedPollIsEquivalence | src/main/java/seedu/club/logic/commands/exceptions/VoteCommand.java:88-93 | `Objects.equals` on the remembered polls, null included, is reflexive, symmetric and transitive |
| VoteCommands.VoteCommandEqualityIsSymmetric | src/main/java/seedu/club/logic/commands/exceptions/VoteCommand.java:78-94 | if one vote command equals another, the other equals it |
| VoteCommands.PreprocessThenExecute | src/main/java/seedu/club/logic/commands/exceptions/VoteCommand.java:50-75 | after a successful preprocessing, execution never fails an assertion |
| VoteCommands.VoteCommand.constructor | src/main/java/seedu/club/logic/commands/exceptions/VoteCommand.java:42-47 | the indices are stored and no poll is remembered yet |
| VoteCommands.VoteCommand.Equals | src/main/java/seedu/club/logic/commands/exceptions/VoteCommand.java:78-94 | a command equals itself; otherwise equality is equal indices and `Objects.equals` on the remembered polls |
| AddCommands.AddCommand.Execute | src/main/java/seedu/club/logic/commands/AddCommand.java:59-68 | a member whose matric number, ignoring case, is not listed is appended last and "New person added: " with the member is returned; a duplicate gets "This person already exists in the club book" and nothing changes |
| AddCommands.AddSuccess | src/main/java/seedu/club/logic/commands/AddCommand.java:45 | the feedback is the fixed prefix followed by the member |
| AddCommands.MakeAddCommand | src/main/java/seedu/club/logic/commands/AddCommand.java:53-56 | a null member is rejected; otherwise the command holds it |
| SignUpCommands.SignUpCommand.Execute | src/main/java/seedu/club/logic/commands/SignUpCommand.java:51-59 | into an empty book the member is signed up with the success message; otherwise the failure message and no change; nothing but the book changes |
| SignUpCommands.SignUpTwice | src/main/java/seedu/club/logic/commands/SignUpCommand.java:52-59 | a second sign-up right after a successful one gets the failure message |
| FindByCommands.FindByCommand.Execute | src/main/java/seedu/club/logic/commands/FindByCommand.java:25-29 | the filter becomes the command's predicate, the filtered list is the accepted members in book order, the summary counts them, and the book is untouched |
| FindByCommands.MembersListed | src/main/java/seedu/club/logic/commands/FindByCommand.java:28 | the summary is a decimal number that reads back as the count, followed by " members listed!" |
| FindByCommands.FoundMembersAreExactlyTheMatches | src/main/java/seedu/club/logic/commands/FindByCommand.java:27 | after `find` a member is listed exactly when it is in the book and the predicate accepts it |
| Subjects.NewSubject | src/main/java/seedu/club/logic/commands/email/Subject.java:13-16 | null is rejected; otherwise the stored text is the trimmed input |
| Subjects.RebuildFromToString | src/main/java/seedu/club/logic/commands/email/Subject.java:15-33 | rebuilding a subject from its `toString` gives the same subject |
| Subjects.Subject.ToString | src/main/java/seedu/club/logic/commands/email/Subject.java:30-33 | for a trimmed text, the constructor rebuilds the same subject from the `toString` result |
| Subjects.Subject.Equals | src/main/java/seedu/club/logic/commands/email/Subject.java:23-28 | two subjects are equal exactly when their lower-cased texts agree |
| Subjects.Subject.HashCode | src/main/java/seedu/club/logic/commands/email/Subject.java:18-21 | the hash is Java's `String.hashCode` of the stored text, case kept: the fold over its UTF-16 code units, as a signed 32-bit value |
| Subjects.Subject.FoldedHashCode | src/main/java/seedu/club/logic/commands/email/Subject.java:18-28 | the hash is `String.hashCode` of the lower-cased text, as a signed 32-bit value |
| Subjects.EqualsIsEquivalence | src/main/java/seedu/club/logic/commands/email/Subject.java:23-28 | subject equality is reflexive, symmetric and transitive |
| Subjects.EqualSubjectsHashDifferently | src/main/java/seedu/club/logic/commands/email/Subject.java:18-28 | "a" and "A" are equal subjects with hash codes 97 and 65 |
| Subjects.EqualSubjectsHashAlike | src/main/java/seedu/club/logic/commands/email/Subject.java:18-28 | with the hash of the lower-cased text, equal subjects hash alike |
| Text.Trim | src/main/java/seedu/club/logic/commands/email/Subject.java:15 | the trimmed text neither starts nor ends with a character at or below U+0020 |
| Text.TrimKeepsMiddle | src/main/java/seedu/club/logic/commands/email/Subject.java:15 | the trimmed text is one block of the input with only stripped characters around it |
| Text.TrimIdempotent | src/main/java/seedu/club/logic/commands/email/Subject.java:15 | trimming twice is trimming once |
| Text.EqualsIgnoreCaseIsLowerEquality | src/main/java/seedu/club/logic/commands/email/Subject.java:27 | equality ignoring case is equality of the lower-cased strings |
| Text.IsInfixAt | src/main/java/seedu/club/logic/commands/FindByCommand.java:5-9 | the substring test holds exactly when the needle occurs at some position |
| Text.SplitJoin | src/main/java/seedu/club/model/ModelManager.java:258 | cutting a comma join at its commas gives back the parts when no part holds a comma |
| Text.NatToString | src/main/java/seedu/club/logic/commands/FindByCommand.java:28 | the rendering is all digits and reads back as the number |
| Text.JavaHashCode | src/main/java/seedu/club/logic/commands/email/Subject.java:19-21 | the hash is the fold `31 * h + u` over the UTF-16 code units, taken as a signed 32-bit value |
| Text.CodeUnits | src/main/java/seedu/club/logic/commands/email/Subject.java:20 | a character below U+10000 is one code unit, itself; any other is a high and a low surrogate that decode back to it |
| Text.Utf16 | src/main/java/seedu/club/logic/commands/email/Subject.java:20 | a string has between one and two 16-bit code units per character |
| Text.Utf16OfBasicPlane | src/main/java/seedu/club/logic/commands/email/Subject.java:20 | a string of basic-plane characters has exactly its characters as code units |
| Text.SupplementaryCharacterHashesAsPair | src/main/java/seedu/club/logic/commands/email/Subject.java:20 | U+1F600 hashes as its surrogate pair, to 31 * 0xD83D + 0xDE00 = 1772899, as Java's `String.hashCode` does |

## Left out

- Events (`ClubBookChangedEvent`, `ProfilePhotoChangedEvent`, `SendEmailRequestEvent`) are not modelled. They go to a global event bus and carry no state of the model.
- `addProfilePhoto` is left out: it copies files and builds directory paths.
- `sendEmail` is left out: it hands the recipients to an external mail client.
- The filtered tag and task lists (`getFilteredTagList`, `updateFilteredTagList`, `getFilteredTaskList`) are left out. No modelled operation reads them.
- Java predicates are modelled by kind, not as arbitrary functions. The member filter is either "show all" or "a field contains a keyword". The poll filter is either "show all" or "a question in a given set".
- `FieldContainsKeywordsPredicate` is not part of this model. Its rule (some keyword is a case-insensitive substring of the chosen field) follows its documentation in `FindByCommand`.
- `logInMemberSuccessful` is left out: it only forwards to `ClubBook.logInMember`, which is not part of this model.
- Logging and `synchronized` are left out. They have no sequential behaviour.
- The undo and redo stacks and the command history are not modelled. Sign-up's frame names only the club book, so it changes nothing else.
- Aliasing of the `Task` and `Answer` objects is not modelled. `addTaskToTaskList` stamps the caller's task object even when the add then fails as a duplicate; the model stamps a copy.
- `Member.toString` and `Messages` are not part of this model (see above for the texts used).
- `Poll.hashCode` and `Poll.toString` are left out. Neither is used by the modelled operations.
- `ImportCommand`, `CsvFileStorage` and `Password` are not part of this model. They cover file I/O and a plain string holder.
- Vote counts and list sizes are unbounded integers, so 32-bit overflow of `int` counts is not modelled. `String.hashCode` wraps at 32 bits and folds UTF-16 code units, surrogate pairs included, as Java does.
- Text.LowerChar: case folding covers the ASCII letters only, not Java's full Unicode case mapping.
- Model.ModelManager.VoteInPoll: the voter is the stored logged-in member, not a member re-read from the filtered list, because `ModelManager.java` defines no `voteInPoll`.

## Findings

| source | as written | input that shows it | evidently intended | confidence | as-written member | corrected member |
|---|---|---|---|---|---|---|
| src/main/java/seedu/club/model/poll/Poll.java:31-43 | the two-argument constructor passes `null` as the voter set and `addAll(null)` throws | any question and answers, e.g. `new Poll(q, [])` | a poll with an empty voter set | high, not executed | Polls.TwoArgumentConstructorAlwaysThrows | Polls.Poll.WithoutVoters |
| src/main/java/seedu/club/logic/commands/exceptions/VoteCommand.java:71-74 | the answer index is checked against `pollToVoteIn` before it is assigned | `vote 1 1` as a fresh command against a filtered list with one poll: `pollToVoteIn` is null | resolve the poll at the poll index first, then check the answer index against it | high, not executed | VoteCommands.FreshCommandDereferencesNull | VoteCommands.VoteCommand.Preprocess |
| src/main/java/seedu/club/logic/commands/email/Subject.java:19-27 | `hashCode` hashes the text with its case while `equals` ignores case | subjects "a" and "A" are equal but hash to 97 and 65 | equal subjects have equal hash codes, e.g. by hashing the lower-cased text | high, not executed | Subjects.EqualSubjectsHashDifferently | Subjects.EqualSubjectsHashAlike |
