/**
 * The parts of `java.lang.String` that the club book relies on: `trim`,
 * `equalsIgnoreCase`, `contains` after lower-casing, `String.join`,
 * `hashCode`, and the decimal rendering of a count.
 */
module Text {

  // ---------------------------------------------------------------- trim

  /** `String.trim` strips every character whose code is at most U+0020. */
  predicate IsSpace(c: char) {
    c <= ' '
  }

  /** Drops the leading characters that `trim` strips. */
  function TrimStart(s: string): (r: string)
    ensures |r| <= |s| && r == s[|s| - |r|..]
    ensures forall k :: 0 <= k < |s| - |r| ==> IsSpace(s[k])
    ensures r == [] || !IsSpace(r[0])
  {
    if |s| > 0 && IsSpace(s[0]) then TrimStart(s[1..]) else s
  }

  /** Drops the trailing characters that `trim` strips. */
  function TrimEnd(s: string): (r: string)
    ensures |r| <= |s| && r == s[..|r|]
    ensures forall k :: |r| <= k < |s| ==> IsSpace(s[k])
    ensures r == [] || !IsSpace(r[|r| - 1])
  {
    if |s| > 0 && IsSpace(s[|s| - 1]) then TrimEnd(s[..|s| - 1]) else s
  }

  /**
   * `String.trim`: the longest middle part of `s` that neither starts nor
   * ends with a stripped character; everything cut off on either side is
   * a stripped character.
   */
  function Trim(s: string): (r: string)
    ensures r == [] || (!IsSpace(r[0]) && !IsSpace(r[|r| - 1]))
  {
    TrimEnd(TrimStart(s))
  }

  /** What `Trim` keeps is one block of `s`, and only stripped characters lie outside it. */
  lemma TrimKeepsMiddle(s: string)
    ensures exists i :: TrimmedAt(s, Trim(s), i)
  {
    var front := TrimStart(s);
    var r := TrimEnd(front);
    var i := |s| - |front|;
    assert Trim(s) == r;
    assert r == front[..|r|];
    assert r == s[i..i + |r|];
    forall k | i + |r| <= k < |s| ensures IsSpace(s[k]) {
      assert s[k] == front[k - i];
    }
    assert TrimmedAt(s, r, i);
  }

  /** `r` is the block of `s` starting at `i`, and only stripped characters lie outside it. */
  predicate TrimmedAt(s: string, r: string, i: int) {
    && 0 <= i <= |s| - |r|
    && r == s[i..i + |r|]
    && (forall k :: 0 <= k < i ==> IsSpace(s[k]))
    && (forall k :: i + |r| <= k < |s| ==> IsSpace(s[k]))
  }

  /** Trimming an already trimmed string changes nothing. */
  lemma {:induction false} TrimIdempotent(s: string)
    ensures Trim(Trim(s)) == Trim(s)
  {
    var r := Trim(s);
    if r != [] {
      assert TrimStart(r) == r;
      assert TrimEnd(r) == r;
    }
  }

  // ---------------------------------------------------------- case folding

  /** Lower-cases an ASCII letter and leaves every other character alone. */
  function LowerChar(c: char): (r: char)
    ensures 'A' <= c <= 'Z' ==> 'a' <= r <= 'z'
    ensures !('A' <= c <= 'Z') ==> r == c
  {
    if 'A' <= c <= 'Z' then (c as int - 'A' as int + 'a' as int) as char else c
  }

  /** `String.toLowerCase`, restricted to ASCII letters. */
  function ToLower(s: string): (r: string)
    ensures |r| == |s|
    ensures forall i :: 0 <= i < |s| ==> r[i] == LowerChar(s[i])
  {
    seq(|s|, i requires 0 <= i < |s| => LowerChar(s[i]))
  }

  /** `String.equalsIgnoreCase`: same length, and position by position the same letter up to case. */
  predicate EqualsIgnoreCase(a: string, b: string) {
    |a| == |b| && forall i :: 0 <= i < |a| ==> LowerChar(a[i]) == LowerChar(b[i])
  }

  /** Two strings are equal ignoring case exactly when their lower-case forms are equal. */
  lemma EqualsIgnoreCaseIsLowerEquality(a: string, b: string)
    ensures EqualsIgnoreCase(a, b) <==> ToLower(a) == ToLower(b)
  {
    if ToLower(a) == ToLower(b) {
      assert |a| == |b|;
      forall i | 0 <= i < |a| ensures LowerChar(a[i]) == LowerChar(b[i]) {
        assert ToLower(a)[i] == ToLower(b)[i];
      }
    }
  }

  /** `needle` occurs somewhere in `hay` as a contiguous block (`String.contains`). */
  predicate IsInfix(needle: string, hay: string)
    decreases |hay|
  {
    needle <= hay || (|hay| > 0 && IsInfix(needle, hay[1..]))
  }

  /** A copy of `needle` starts at position `i` of `hay`. */
  predicate OccursAt(needle: string, hay: string, i: int) {
    0 <= i <= |hay| - |needle| && hay[i..i + |needle|] == needle
  }

  /** `IsInfix` means: some position of `hay` starts a copy of `needle`. */
  lemma {:induction false} IsInfixAt(needle: string, hay: string)
    ensures IsInfix(needle, hay) <==> exists i :: OccursAt(needle, hay, i)
    decreases |hay|
  {
    if needle <= hay {
      assert OccursAt(needle, hay, 0);
    } else if |hay| > 0 {
      IsInfixAt(needle, hay[1..]);
      if exists i :: OccursAt(needle, hay, i) {
        var i :| OccursAt(needle, hay, i);
        assert i != 0;
        assert hay[1..][i - 1..i - 1 + |needle|] == hay[i..i + |needle|];
        assert OccursAt(needle, hay[1..], i - 1);
      }
      if IsInfix(needle, hay[1..]) {
        var j :| OccursAt(needle, hay[1..], j);
        assert hay[j + 1..j + 1 + |needle|] == hay[1..][j..j + |needle|];
        assert OccursAt(needle, hay, j + 1);
      }
    }
  }

  /** Case-insensitive substring test: `hay.toLowerCase().contains(needle.toLowerCase())`. */
  predicate ContainsIgnoreCase(hay: string, needle: string) {
    IsInfix(ToLower(needle), ToLower(hay))
  }

  // ------------------------------------------------------ join and split

  /** `String.join`: the parts with one separator between neighbours. */
  function Join(parts: seq<string>, sep: char): (r: string)
    ensures |parts| == 1 ==> r == parts[0]
  {
    if |parts| == 0 then ""
    else if |parts| == 1 then parts[0]
    else parts[0] + [sep] + Join(parts[1..], sep)
  }

  /** Cuts `s` at every occurrence of `sep`; there is always at least one piece. */
  function Split(s: string, sep: char): (r: seq<string>)
    ensures |r| >= 1
  {
    if |s| == 0 then [""]
    else
      var rest := Split(s[1..], sep);
      if s[0] == sep then [""] + rest else [[s[0]] + rest[0]] + rest[1..]
  }

  /** A piece containing no separator is split off whole, ahead of a separator. */
  lemma {:induction false} SplitPiece(x: string, sep: char, y: string)
    requires sep !in x
    ensures Split(x + [sep] + y, sep) == [x] + Split(y, sep)
    ensures Split(x, sep) == [x]
    decreases |x|
  {
    if |x| == 0 {
      assert x + [sep] + y == [sep] + y;
      assert ([sep] + y)[1..] == y;
    } else {
      SplitPiece(x[1..], sep, y);
      assert (x + [sep] + y)[1..] == x[1..] + [sep] + y;
      assert [x[0]] + x[1..] == x;
    }
  }

  /** Splitting a join at its separator gives the parts back, when no part holds the separator. */
  lemma {:induction false} SplitJoin(parts: seq<string>, sep: char)
    requires |parts| >= 1
    requires forall k :: 0 <= k < |parts| ==> sep !in parts[k]
    ensures Split(Join(parts, sep), sep) == parts
    decreases |parts|
  {
    if |parts| == 1 {
      SplitPiece(parts[0], sep, "");
    } else {
      SplitJoin(parts[1..], sep);
      SplitPiece(parts[0], sep, Join(parts[1..], sep));
      assert [parts[0]] + parts[1..] == parts;
    }
  }

  // ------------------------------------------------------ decimal numbers

  predicate IsDigit(c: char) {
    '0' <= c <= '9'
  }

  predicate AllDigits(s: string) {
    forall i :: 0 <= i < |s| ==> IsDigit(s[i])
  }

  /** Reads a string of decimal digits as a number. */
  function ParseNat(s: string): nat
    requires AllDigits(s)
  {
    if |s| == 0 then 0
    else ParseNat(s[..|s| - 1]) * 10 + (s[|s| - 1] as int - '0' as int)
  }

  /** The decimal rendering of `n` (`%d`): at least one digit, and it reads back as `n`. */
  function NatToString(n: nat): (r: string)
    ensures |r| >= 1 && AllDigits(r)
    ensures ParseNat(r) == n
  {
    var d := ('0' as int + n % 10) as char;
    if n < 10 then
      assert [d][..0] == "";
      [d]
    else
      var front := NatToString(n / 10);
      assert (front + [d])[..|front|] == front;
      front + [d]
  }

  // ------------------------------------------------------------- hashCode

  const TwoTo32: nat := 0x1_0000_0000
  const TwoTo31: nat := 0x8000_0000

  /**
   * The UTF-16 code units of one character, as a Java `String` stores it:
   * the character itself below U+10000, otherwise its surrogate pair, which
   * decodes back to the character.
   */
  function CodeUnits(c: char): (u: seq<int>)
    ensures c as int < 0x1_0000 ==> u == [c as int]
    ensures c as int >= 0x1_0000 ==>
      && |u| == 2
      && 0xD800 <= u[0] < 0xDC00 && 0xDC00 <= u[1] < 0xE000
      && 0x1_0000 + (u[0] - 0xD800) * 0x400 + (u[1] - 0xDC00) == c as int
  {
    if c as int < 0x1_0000 then [c as int]
    else
      var v := c as int - 0x1_0000;
      [0xD800 + v / 0x400, 0xDC00 + v % 0x400]
  }

  /** The UTF-16 code units of `s`: one or two 16-bit units per character. */
  function Utf16(s: string): (u: seq<int>)
    ensures |s| <= |u| <= 2 * |s|
    ensures forall k :: 0 <= k < |u| ==> 0 <= u[k] < 0x1_0000
  {
    if |s| == 0 then []
    else Utf16(s[..|s| - 1]) + CodeUnits(s[|s| - 1])
  }

  /** A string of characters below U+10000 has one code unit per character, the character itself. */
  lemma {:induction false} Utf16OfBasicPlane(s: string)
    requires forall k :: 0 <= k < |s| ==> s[k] as int < 0x1_0000
    ensures |Utf16(s)| == |s|
    ensures forall k :: 0 <= k < |s| ==> Utf16(s)[k] == s[k] as int
    decreases |s|
  {
    if |s| > 0 {
      var front := s[..|s| - 1];
      Utf16OfBasicPlane(front);
    }
  }

  /** `h = 31 * h + c` over code units, wrapping at 32 bits. */
  function HashUnits(u: seq<int>): (h: nat)
    ensures h < TwoTo32
  {
    if |u| == 0 then 0
    else (31 * HashUnits(u[..|u| - 1]) + u[|u| - 1]) % TwoTo32
  }

  /** `String.hashCode` as an unsigned 32-bit value: the fold over the string's UTF-16 code units. */
  function HashUnsigned(s: string): (h: nat)
    ensures h < TwoTo32
  {
    HashUnits(Utf16(s))
  }

  /** `String.hashCode` as the signed `int` Java returns. */
  function JavaHashCode(s: string): (h: int)
    ensures -(TwoTo31 as int) <= h < TwoTo31
    ensures (h - HashUnits(Utf16(s))) % TwoTo32 == 0
  {
    var u := HashUnsigned(s);
    if u >= TwoTo31 then u - TwoTo32 else u
  }

  /** A character outside the basic plane hashes as its surrogate pair, U+D83D then U+DE00. */
  lemma SupplementaryCharacterHashesAsPair()
    ensures JavaHashCode("\U{1F600}") == 31 * 0xD83D + 0xDE00 == 1772899
  {
    var s := "\U{1F600}";
    assert s[..0] == "";
    assert Utf16(s) == [0xD83D, 0xDE00];
    assert [0xD83D, 0xDE00][..1] == [0xD83D] && [0xD83D][..0] == [];
  }
}
