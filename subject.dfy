/** The subject line of an e-mail: trimmed once, compared ignoring case. */
module Subjects {
  import opened Wrappers
  import opened Text

  const EmptySubjectString := ""

  datatype Subject = Subject(text: string) {

    /** `toString`: the stored text, from which the constructor rebuilds this subject when it is trimmed. */
    function ToString(): (r: string)
      ensures Trim(text) == text ==> NewSubject(Some(r)) == Some(this)
    {
      text
    }

    /** `equals`: the texts agree ignoring case, that is, their lower-cased forms are the same string. */
    function Equals(other: Subject): (b: bool)
      ensures b <==> ToLower(text) == ToLower(other.text)
    {
      EqualsIgnoreCaseIsLowerEquality(text, other.text);
      EqualsIgnoreCase(text, other.text)
    }

    /** `hashCode` as written: the signed 32-bit hash of the text as stored, with its case. */
    function HashCode(): (h: int)
      ensures -(TwoTo31 as int) <= h < TwoTo31
      ensures (h - HashUnits(Utf16(text))) % TwoTo32 == 0
    {
      JavaHashCode(text)
    }

    /** The hash that agrees with `equals`: the signed 32-bit hash of the lower-cased text. */
    function FoldedHashCode(): (h: int)
      ensures -(TwoTo31 as int) <= h < TwoTo31
      ensures (h - HashUnits(Utf16(ToLower(text)))) % TwoTo32 == 0
    {
      JavaHashCode(ToLower(text))
    }
  }

  /** The constructor: `null` (`None`) is rejected, anything else is stored trimmed. */
  function NewSubject(s: Option<string>): (r: Option<Subject>)
    ensures r.None? <==> s.None?
    ensures r.Some? ==> r.value.text == Trim(s.value)
  {
    match s
    case None => None
    case Some(t) => Some(Subject(Trim(t)))
  }

  /** Rebuilding a subject from its own `toString` gives the same subject: trimming twice trims once. */
  lemma RebuildFromToString(s: string)
    ensures var a := NewSubject(Some(s)).value; NewSubject(Some(a.ToString())) == Some(a)
  {
    TrimIdempotent(s);
  }

  /** Subject equality is an equivalence: reflexive, symmetric and transitive. */
  lemma EqualsIsEquivalence(a: Subject, b: Subject, c: Subject)
    ensures a.Equals(a)
    ensures a.Equals(b) ==> b.Equals(a)
    ensures a.Equals(b) && b.Equals(c) ==> a.Equals(c)
  {
  }

  /** As written, "a" and "A" are equal subjects whose hash codes differ (97 and 65). */
  lemma EqualSubjectsHashDifferently()
    ensures Subject("a").Equals(Subject("A"))
    ensures Subject("a").HashCode() == 97 && Subject("A").HashCode() == 65
  {
    assert "a"[..0] == "" && "A"[..0] == "";
  }

  /** With the folded hash, equal subjects always hash alike. */
  lemma EqualSubjectsHashAlike(a: Subject, b: Subject)
    requires a.Equals(b)
    ensures a.FoldedHashCode() == b.FoldedHashCode()
  {
  }
}
