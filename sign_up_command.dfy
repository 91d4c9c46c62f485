/** The `signup` command: the first member can sign up only into an empty club book. */
module SignUpCommands {
  import opened Wrappers
  import opened Domain
  import opened ClubBooks
  import opened Model
  import opened CommandResults

  const SignUpSuccess := "sign up successful! Please log in again"
  const SignUpFailure := "There are already members in the clubbook. Log In to continue"

  /** An empty club book has no duplicate, so signing up fills it with exactly that member. */
  lemma SignUpFillsEmptyBook(b: ClubBook, m: Member)
    requires b.members == []
    ensures ClubBooks.AddMember(b, m).Success?
    ensures ClubBooks.AddMember(b, m).value.members == [m]
  {
  }

  datatype SignUpCommand = SignUpCommand(toSignUp: Member) {

    /**
     * `execute`: into an empty book the member is signed up; otherwise the
     * failure message is returned and nothing changes. The command is not
     * undoable, and it changes only the club book.
     */
    method Execute(model: ModelManager) returns (out: CommandOutcome)
      modifies model`book
      ensures old(model.book.members) == [] ==>
        out == Executed(SignUpSuccess) && model.book == ClubBooks.AddMember(old(model.book), toSignUp).value
      ensures old(model.book.members) != [] ==> out == Executed(SignUpFailure) && model.book == old(model.book)
    {
      if model.book.members == [] {
        SignUpFillsEmptyBook(model.book, toSignUp);
        model.SignUpMember(toSignUp);
        return Executed(SignUpSuccess);
      }
      return Executed(SignUpFailure);
    }
  }

  /** Two sign-ups in a row on an empty book: the first succeeds, the second is refused. */
  method SignUpTwice(model: ModelManager, first: Member, second: Member) returns (a: CommandOutcome, b: CommandOutcome)
    requires model.book.members == []
    modifies model`book
    ensures a == Executed(SignUpSuccess) && b == Executed(SignUpFailure)
    ensures model.book.members == [first]
  {
    SignUpFillsEmptyBook(model.book, first);
    a := SignUpCommand(first).Execute(model);
    b := SignUpCommand(second).Execute(model);
  }
}
