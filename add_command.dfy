/** The `add` command: adds one member, or reports a duplicate. */
module AddCommands {
  import opened Wrappers
  import opened Domain
  import opened ClubBooks
  import opened Model
  import opened CommandResults

  const AddSuccessPrefix := "New person added: "
  const DuplicatePerson := "This person already exists in the club book"

  /** The feedback for an added member; the member is rendered by its name. */
  function AddSuccess(m: Member): (r: string)
    ensures |r| == |AddSuccessPrefix| + |m.name|
    ensures r[..|AddSuccessPrefix|] == AddSuccessPrefix && r[|AddSuccessPrefix|..] == m.name
  {
    AddSuccessPrefix + m.name
  }

  /** Java's `equals` on two add commands is equality of the members to add, which datatype equality gives. */
  datatype AddCommand = AddCommand(toAdd: Member) {

    /**
     * `executeUndoableCommand`: the member is added through the model (which
     * resets the member filter), or the duplicate is reported and nothing
     * changes.
     */
    method Execute(model: ModelManager) returns (out: CommandOutcome)
      modifies model`book, model`memberFilter
      ensures match ClubBooks.AddMember(old(model.book), toAdd)
        case Success(b) =>
          out == Executed(AddSuccess(toAdd)) && model.book == b && model.memberFilter == ShowAllMembers
        case Failure(_) =>
          out == CommandFailure(DuplicatePerson) && model.book == old(model.book)
          && model.memberFilter == old(model.memberFilter)
    {
      var o := model.AddMember(toAdd);
      if o.Fail? {
        return CommandFailure(DuplicatePerson);
      }
      return Executed(AddSuccess(toAdd));
    }
  }

  /** The constructor: a `null` member (`None`) is rejected by `requireNonNull`. */
  function MakeAddCommand(person: Option<Member>): (r: Result<AddCommand, ModelError>)
    ensures r.Failure? <==> person.None?
    ensures r.Failure? ==> r.error == NullPointer
    ensures r.Success? ==> r.value.toAdd == person.value
  {
    match person
    case None => Failure(NullPointer)
    case Some(m) => Success(AddCommand(m))
  }
}
