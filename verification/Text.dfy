/**
 String operations of the program's standard library, as they are used by the
 advisory range formats, the registry directory names and the job queue.
 */
module Text {
  import opened Options

  // ---------------------------------------------------------------- occurrences

  predicate OccursAt(s: string, sep: string, i: int) {
    0 <= i && i + |sep| <= |s| && s[i..i + |sep|] == sep
  }

  lemma NoOccurrence(s: string, sep: string, i: int, k: nat)
    requires k < |sep| && (0 <= i && i + k < |s| ==> s[i + k] != sep[k])
    ensures !OccursAt(s, sep, i)
  {
    assert 0 <= i && i + |sep| <= |s| ==> s[i..i + |sep|][k] == s[i + k];
  }

  /** Appending text keeps the occurrences, and adds none that lie within. */
  lemma OccurrenceInAppend(a: string, t: string, sep: string, j: int)
    ensures OccursAt(a, sep, j) <==> OccursAt(a + t, sep, j) && j + |sep| <= |a|
  {
    assert 0 <= j && j + |sep| <= |a| ==> (a + t)[j..j + |sep|] == a[j..j + |sep|];
  }

  lemma OccurrenceInPart(s: string, n: nat, sep: string, j: int)
    requires n <= |s|
    ensures OccursAt(s[..n], sep, j) ==> OccursAt(s, sep, j)
  {
    assert s[..n] + s[n..] == s;
    OccurrenceInAppend(s[..n], s[n..], sep, j);
  }

  /** First position at or after `from` where `sep` occurs. */
  function FindFrom(s: string, sep: string, from: nat): (r: Option<nat>)
    requires from <= |s|
    ensures r.Some? ==> from <= r.value && OccursAt(s, sep, r.value)
    ensures r.Some? ==> forall j {:trigger OccursAt(s, sep, j)} :: from <= j < r.value ==> !OccursAt(s, sep, j)
    ensures r.None? ==> forall j {:trigger OccursAt(s, sep, j)} :: from <= j ==> !OccursAt(s, sep, j)
    decreases |s| - from
  {
    if OccursAt(s, sep, from) then Some(from)
    else if from == |s| then None
    else FindFrom(s, sep, from + 1)
  }

  function Find(s: string, sep: string): Option<nat> {
    FindFrom(s, sep, 0)
  }

  predicate Contains(s: string, sep: string) {
    Find(s, sep).Some?
  }

  predicate StartsWith(s: string, p: string) {
    |p| <= |s| && s[..|p|] == p
  }

  predicate EndsWith(s: string, p: string) {
    |p| <= |s| && s[|s| - |p|..] == p
  }

  function StripPrefix(s: string, p: string): Option<string> {
    if StartsWith(s, p) then Some(s[|p|..]) else None
  }

  function StripSuffix(s: string, p: string): Option<string> {
    if EndsWith(s, p) then Some(s[..|s| - |p|]) else None
  }

  /** The text before and after the first occurrence of `sep`. */
  function SplitOnce(s: string, sep: string): Option<(string, string)> {
    match Find(s, sep)
    case None => None
    case Some(i) => Some((s[..i], s[i + |sep|..]))
  }

  // ---------------------------------------------------------------- splitting

  function Split(s: string, sep: string): (pieces: seq<string>)
    requires |sep| > 0
    ensures |pieces| >= 1
    decreases |s|
  {
    match Find(s, sep)
    case None => [s]
    case Some(i) => [s[..i]] + Split(s[i + |sep|..], sep)
  }

  /** No piece of a split contains the separator, so splitting a piece again
      gives that piece back. */
  lemma {:induction false} PiecesAreAtoms(s: string, sep: string, k: nat)
    requires |sep| > 0 && k < |Split(s, sep)|
    ensures Split(Split(s, sep)[k], sep) == [Split(s, sep)[k]]
    decreases |s|
  {
    match Find(s, sep)
    case None =>
    case Some(i) =>
      if k > 0 {
        PiecesAreAtoms(s[i + |sep|..], sep, k - 1);
      } else {
        forall j ensures !OccursAt(s[..i], sep, j) {
          OccurrenceInPart(s, i, sep, j);
        }
      }
  }

  /** No occurrence of `sep` starts inside `a` and runs past its end when `sep`
      is appended to `a`. */
  ghost predicate Seamless(a: string, sep: string) {
    forall j {:trigger OccursAt(a + sep, sep, j)} :: |a| - |sep| < j < |a| ==> !OccursAt(a + sep, sep, j)
  }

  /** An occurrence that starts inside `a` lies wholly inside `a`. */
  lemma OccurrenceInPrefix(a: string, b: string, sep: string, j: nat)
    requires |sep| > 0 && Seamless(a, sep) && j < |a|
    ensures OccursAt(a + sep + b, sep, j) ==> OccursAt(a, sep, j)
  {
    assert (a + sep + b)[j..j + |sep|] == (a + sep)[j..j + |sep|];
    assert OccursAt(a + sep + b, sep, j) ==> OccursAt(a + sep, sep, j);
    assert j + |sep| <= |a| ==> (a + sep)[j..j + |sep|] == a[j..j + |sep|];
  }

  /** The first separator of a joined text is the joining one if its left part has none. */
  lemma FirstInJoin(a: string, b: string, sep: string)
    requires |sep| > 0 && Seamless(a, sep) && Find(a, sep) == None
    ensures Find(a + sep + b, sep) == Some(|a|)
  {
    assert (a + sep + b)[|a|..|a| + |sep|] == sep;
    assert OccursAt(a + sep + b, sep, |a|);
    forall j | 0 <= j < |a| ensures !OccursAt(a + sep + b, sep, j) {
      OccurrenceInPrefix(a, b, sep, j);
    }
  }

  /** A split unfolded at a known first separator. */
  lemma SplitAtFirst(s: string, sep: string, i: nat)
    requires |sep| > 0 && Find(s, sep) == Some(i)
    ensures Split(s, sep) == [s[..i]] + Split(s[i + |sep|..], sep)
  {
  }

  function Last(pieces: seq<string>): string
    requires pieces != []
  {
    pieces[|pieces| - 1]
  }

  function LastPiece(s: string, sep: string): string
    requires |sep| > 0
  {
    Last(Split(s, sep))
  }

  /** `more` in place of the last piece. */
  function Continued(pieces: seq<string>, more: seq<string>): seq<string>
    requires pieces != []
  {
    pieces[..|pieces| - 1] + more
  }

  lemma ContinuedStep(x: string, pieces: seq<string>, more: seq<string>)
    requires pieces != []
    ensures Continued([x] + pieces, more) == [x] + Continued(pieces, more)
    ensures Last([x] + pieces) == Last(pieces)
  {
  }

  lemma ContinuedByItself(pieces: seq<string>, more: seq<string>)
    requires pieces != []
    ensures Continued(pieces, [Last(pieces)] + more) == pieces + more
  {
  }

  lemma ContinuedLast(pieces: seq<string>)
    requires pieces != []
    ensures Continued(pieces, [Last(pieces)]) == pieces
  {
  }

  lemma JoinIsAppend(a: string, sep: string, b: string)
    ensures a + (sep + b) == a + sep + b
  {
  }

  lemma SuffixOfSuffix(s: string, t: string, i: nat)
    requires i <= |s| && EndsWith(s[i..], t)
    ensures EndsWith(s, t)
  {
    assert s[i..][|s[i..]| - |t|..] == s[|s| - |t|..];
  }

  /** The last piece is the end of the text and contains no separator. */
  lemma {:induction false} LastPieceIsSuffix(s: string, sep: string)
    requires |sep| > 0
    ensures EndsWith(s, LastPiece(s, sep)) && Find(LastPiece(s, sep), sep) == None
    decreases |s|
  {
    match Find(s, sep)
    case None =>
    case Some(i) =>
      LastPieceIsSuffix(s[i + |sep|..], sep);
      SuffixOfSuffix(s, LastPiece(s[i + |sep|..], sep), i + |sep|);
      SplitAtFirst(s, sep, i);
  }

  /** Appending text does not move a first separator. */
  lemma FirstStays(a: string, t: string, sep: string, i: nat)
    requires |sep| > 0 && Find(a, sep) == Some(i)
    ensures Find(a + t, sep) == Some(i)
    ensures (a + t)[..i] == a[..i] && (a + t)[i + |sep|..] == a[i + |sep|..] + t
  {
    OccurrenceInAppend(a, t, sep, i);
    forall j | 0 <= j < i ensures !OccursAt(a + t, sep, j) {
      OccurrenceInAppend(a, t, sep, j);
    }
  }

  lemma SplitContinuesAfter(a: string, t: string, sep: string, i: nat, rest: string)
    requires |sep| > 0 && Find(a, sep) == Some(i) && rest == a[i + |sep|..]
    requires Split(rest + t, sep) == Continued(Split(rest, sep), Split(LastPiece(rest, sep) + t, sep))
    ensures Split(a + t, sep) == Continued(Split(a, sep), Split(LastPiece(a, sep) + t, sep))
  {
    ContinuedStep(a[..i], Split(rest, sep), Split(LastPiece(rest, sep) + t, sep));
    FirstStays(a, t, sep, i);
    SplitAtFirst(a + t, sep, i);
    SplitAtFirst(a, sep, i);
  }

  /** Appending text only changes a split from the last piece on. */
  lemma {:induction false} SplitContinues(a: string, t: string, sep: string)
    requires |sep| > 0
    ensures Split(a + t, sep) == Continued(Split(a, sep), Split(LastPiece(a, sep) + t, sep))
    decreases |a|
  {
    match Find(a, sep)
    case None =>
      assert Split(a, sep) == [a] && [a][..0] == [];
    case Some(i) =>
      SplitContinues(a[i + |sep|..], t, sep);
      SplitContinuesAfter(a, t, sep, i, a[i + |sep|..]);
  }

  /** What is joined to a text without a separator starts new pieces. */
  lemma SplitOfAtomJoin(a: string, b: string, sep: string)
    requires |sep| > 0 && Find(a, sep) == None && Seamless(a, sep)
    ensures Split(a + (sep + b), sep) == [a] + Split(b, sep)
  {
    FirstInJoin(a, b, sep);
    assert a + (sep + b) == a + sep + b;
    SplitAtFirst(a + (sep + b), sep, |a|);
    assert (a + (sep + b))[..|a|] == a && (a + (sep + b))[|a| + |sep|..] == b;
  }

  lemma LastPieceIsAtom(s: string, sep: string)
    requires |sep| > 0
    ensures Find(LastPiece(s, sep), sep) == None
  {
    LastPieceIsSuffix(s, sep);
  }

  /** A joined text splits into the pieces of both, if the separator is not found
      earlier, overlapping the last piece. */
  lemma SplitOfJoin(a: string, b: string, sep: string)
    requires |sep| > 0 && Seamless(LastPiece(a, sep), sep)
    ensures Split(a + sep + b, sep) == Split(a, sep) + Split(b, sep)
  {
    JoinIsAppend(a, sep, b);
    LastPieceIsAtom(a, sep);
    SplitOfAtomJoin(LastPiece(a, sep), b, sep);
    SplitContinues(a, sep + b, sep);
    ContinuedByItself(Split(a, sep), Split(b, sep));
  }

  lemma AbsentCharacter(s: string, sep: string)
    requires |sep| == 1 && forall i :: 0 <= i < |s| ==> s[i] != sep[0]
    ensures Find(s, sep) == None && Split(s, sep) == [s]
  {
    forall j: int ensures !OccursAt(s, sep, j) {
      NoOccurrence(s, sep, j, 0);
    }
  }

  lemma {:induction false} SplitCovers(s: string, sep: string, i: nat)
    requires |sep| == 1 && i < |s|
    ensures s[i] == sep[0] || exists k :: 0 <= k < |Split(s, sep)| && s[i] in Split(s, sep)[k]
    decreases |s|
  {
    match Find(s, sep)
    case None =>
      assert s[i] in Split(s, sep)[0];
    case Some(at) =>
      SplitAtFirst(s, sep, at);
      if i < at {
        assert s[i] == s[..at][i] && s[i] in Split(s, sep)[0];
      } else if i == at {
        assert s[at..at + 1][0] == s[at];
      } else {
        var rest := s[at + 1..];
        SplitCovers(rest, sep, i - at - 1);
        assert rest[i - at - 1] == s[i];
        assert forall k :: 0 <= k < |Split(rest, sep)| ==> Split(s, sep)[k + 1] == Split(rest, sep)[k];
      }
  }

  /** A separator of one character, or of two different ones, never straddles
      the end of what precedes it. */
  lemma ShortSeparatorsAreSeamless(a: string, sep: string)
    requires |sep| == 1 || (|sep| == 2 && sep[0] != sep[1])
    ensures Seamless(a, sep)
  {
    forall j | |a| - |sep| < j < |a| ensures !OccursAt(a + sep, sep, j) {
      assert |sep| == 2 && j + 1 == |a| && (a + sep)[j + 1] == sep[0];
    }
  }

  // ---------------------------------------------------------------- characters

  predicate IsDigit(c: char) {
    '0' <= c <= '9'
  }

  /** ASCII letters, digits and the hyphen: the characters of SemVer identifiers. */
  predicate IsIdentifierChar(c: char) {
    IsDigit(c) || 'a' <= c <= 'z' || 'A' <= c <= 'Z' || c == '-'
  }

  /** Unicode White_Space, the set that trimming removes. */
  predicate IsWhitespace(c: char) {
    var n := c as int;
    9 <= n <= 13 || n == 0x20 || n == 0x85 || n == 0xA0 || n == 0x1680 || 0x2000 <= n <= 0x200A
    || n == 0x2028 || n == 0x2029 || n == 0x202F || n == 0x205F || n == 0x3000
  }

  function TrimStart(s: string): string {
    if s != "" && IsWhitespace(s[0]) then TrimStart(s[1..]) else s
  }

  function TrimEnd(s: string): string {
    if s != "" && IsWhitespace(s[|s| - 1]) then TrimEnd(s[..|s| - 1]) else s
  }

  function Trim(s: string): string {
    TrimEnd(TrimStart(s))
  }

  lemma NoBlanks(s: string)
    requires s != "" && !IsWhitespace(s[0]) && !IsWhitespace(s[|s| - 1])
    ensures Trim(s) == s
  {
    assert TrimStart(s) == s;
  }

  function LowerChar(c: char): char {
    if 'A' <= c <= 'Z' then ((c as int) + 32) as char else c
  }

  /** Lower-casing of crate names, which are ASCII. */
  function Lower(s: string): string {
    seq(|s|, i requires 0 <= i < |s| => LowerChar(s[i]))
  }
}
