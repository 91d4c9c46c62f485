/** The `find` command: narrows the filtered member list to the members whose field contains a keyword. */
module FindByCommands {
  import opened Text
  import opened Domain
  import opened Model
  import opened CommandResults

  const ListedSuffix := " members listed!"

  /** The summary of a member list of `n` members (`%1$d members listed!`). */
  function MembersListed(n: nat): (r: string)
    ensures |r| > |ListedSuffix| && r[|r| - |ListedSuffix|..] == ListedSuffix
    ensures AllDigits(r[..|r| - |ListedSuffix|])
    ensures ParseNat(r[..|r| - |ListedSuffix|]) == n
  {
    var digits := NatToString(n);
    assert (digits + ListedSuffix)[..|digits|] == digits;
    digits + ListedSuffix
  }

  /** Java's `equals` on two find commands is equality of their predicates, which datatype equality gives. */
  datatype FindByCommand = FindByCommand(filter: MemberPredicate) {

    /**
     * `execute`: the member filter becomes the command's predicate, so the
     * filtered list is exactly the accepted members in club-book order, and
     * the summary counts them; the club book is left alone.
     */
    method Execute(model: ModelManager) returns (out: CommandOutcome)
      modifies model`memberFilter
      ensures model.memberFilter == filter
      ensures model.FilteredMembers() == Select(model.book.members, Matching(filter))
      ensures out == Executed(MembersListed(|model.FilteredMembers()|))
    {
      model.UpdateFilteredMemberList(filter);
      return Executed(MembersListed(|model.FilteredMembers()|));
    }
  }

  /** After `find`, a member is listed exactly when it is in the club book and the predicate accepts it. */
  lemma FoundMembersAreExactlyTheMatches(ms: seq<Member>, p: MemberPredicate, m: Member)
    ensures m in Select(ms, Matching(p)) <==> m in ms && Accepts(p, m)
  {
    if m in Select(ms, Matching(p)) {
      var k :| 0 <= k < |Select(ms, Matching(p))| && Select(ms, Matching(p))[k] == m;
    }
    if m in ms && Accepts(p, m) {
      var k :| 0 <= k < |ms| && ms[k] == m;
    }
  }
}
