/**
 What becomes of the verdict when GHSA texts are joined by ` || `. An alternative that
 ends in ` ||` runs together with the separator that follows it.
 */
module GhsaJoins {
  import opened Options
  import opened Text
  import opened SemVer
  import opened VersionTexts
  import opened AdvisoryRanges

  const SEP := " || "
  const BARS := " ||"

  /** The last alternative ends in bars. */
  predicate Dangling(text: string) {
    EndsWith(LastPiece(text, SEP), BARS)
  }

  /** A separator that overlaps the end of `a` begins with bars there. */
  lemma OverlapIsBars(a: string, j: int)
    requires |a| - |SEP| < j < |a| && OccursAt(a + SEP, SEP, j)
    ensures EndsWith(a, BARS)
  {
    var s := a + SEP;
    assert s[|a|] == ' ' && s[|a| + 1] == '|';
    assert s[j..j + |SEP|][1] == s[j + 1] && s[j..j + |SEP|][2] == s[j + 2];
    assert a[|a| - 3..] == s[j..j + |SEP|][..3];
  }

  lemma AlternativesAreSeamless(a: string)
    ensures !EndsWith(a, BARS) ==> Seamless(a, SEP)
  {
    forall j | |a| - |SEP| < j < |a| && OccursAt(a + SEP, SEP, j) ensures EndsWith(a, BARS) {
      OverlapIsBars(a, j);
    }
  }

  /** Joining alternatives joins verdicts unless the left text is dangling, so an added
      alternative never lowers the verdict. */
  lemma GhsaVerdictIsAJoin(a: string, b: string, v: Version)
    requires !Dangling(a)
    ensures GhsaVerdict(a + SEP + b, v) == Max(GhsaVerdict(a, v), GhsaVerdict(b, v))
  {
    AlternativesAreSeamless(LastPiece(a, SEP));
    SplitOfJoin(a, b, SEP);
    VerdictsConcat(Split(a, SEP), Split(b, SEP), GhsaVerdictOf(v));
  }

  /** Without its last three characters. */
  function WithoutBars(text: string): string {
    if |text| >= 3 then text[..|text| - 3] else text
  }

  /** A separator in a text with bars appended was there before, or begins with bars. */
  lemma OccurrenceWithBars(q: string, j: int)
    requires OccursAt(q + BARS, SEP, j)
    ensures OccursAt(q, SEP, j) || EndsWith(q, BARS)
  {
    assert q + SEP == (q + BARS) + " ";
    OccurrenceInAppend(q + BARS, " ", SEP, j);
    OccurrenceInAppend(q, SEP, SEP, j);
    if j + |SEP| > |q| {
      OverlapIsBars(q, j);
    }
  }

  lemma BarsMakeNoSeparator(q: string)
    ensures Find(q, SEP) == None && !EndsWith(q, BARS) ==> Find(q + BARS, SEP) == None
  {
    forall j: int | OccursAt(q + BARS, SEP, j) ensures OccursAt(q, SEP, j) || EndsWith(q, BARS) {
      OccurrenceWithBars(q, j);
    }
  }

  /** Bars appended to a text that is not dangling end its last alternative. */
  lemma BarsAppended(a: string)
    requires !Dangling(a)
    ensures Split(a + BARS, SEP) == Continued(Split(a, SEP), [LastPiece(a, SEP) + BARS]) && Dangling(a + BARS)
  {
    var q := LastPiece(a, SEP);
    LastPieceIsSuffix(a, SEP);
    BarsMakeNoSeparator(q);
    SplitContinues(a, BARS, SEP);
    assert Split(q + BARS, SEP) == [q + BARS];
    assert Last(Continued(Split(a, SEP), [q + BARS])) == q + BARS;
    assert (q + BARS)[|q|..] == BARS;
  }

  /** A dangling text is one that is not dangling, with bars appended. */
  lemma DanglingIsBarsAppended(text: string)
    requires Dangling(text)
    ensures text == WithoutBars(text) + BARS && !Dangling(WithoutBars(text))
  {
    LastPieceIsSuffix(text, SEP);
    var a := WithoutBars(text);
    EndOfEnd(text, LastPiece(text, SEP), BARS);
    assert text == a + BARS;
    BarsTwice(a);
  }

  lemma EndOfEnd(s: string, t: string, u: string)
    requires EndsWith(s, t) && EndsWith(t, u)
    ensures EndsWith(s, u)
  {
    assert t == s[|s| - |t|..];
    assert t[|t| - |u|..] == s[|s| - |u|..];
  }

  lemma SplitAfterBars(p: string)
    requires Find(p + BARS, SEP) == None
    ensures Split(p + BARS + BARS, SEP) == [p, "||"]
  {
    PieceBeforeBars(p);
    AlternativesAreSeamless(p);
    SplitOfAtomJoin(p, "||", SEP);
    TwoBarsAlone();
    assert p + BARS + BARS == p + (SEP + "||");
  }

  /** Bars after bars are a separator and a bare pair of bars. */
  lemma BarsTwice(a: string)
    ensures Dangling(a) ==> !Dangling(a + BARS)
  {
    if Dangling(a) {
      var q := LastPiece(a, SEP);
      assert q == q[..|q| - 3] + BARS && Find(q, SEP) == None by {
        LastPieceIsSuffix(a, SEP);
      }
      SplitAfterBars(q[..|q| - 3]);
      SplitContinues(a, BARS, SEP);
      LastOfContinued(Split(a, SEP), [q[..|q| - 3], "||"]);
    }
  }

  lemma LastOfContinued(pieces: seq<string>, more: seq<string>)
    requires pieces != [] && more != []
    ensures Continued(pieces, more) != [] && Last(Continued(pieces, more)) == Last(more)
  {
  }

  lemma TwoBarsAlone()
    ensures Split("||", SEP) == ["||"]
  {
    assert forall j: int :: !OccursAt("||", SEP, j);
  }

  /** What stands before the bars of a piece contains no separator and ends in no bars. */
  lemma PieceBeforeBars(p: string)
    ensures Find(p + BARS, SEP) == None ==> Find(p, SEP) == None && !EndsWith(p, BARS)
  {
    forall j: int | OccursAt(p, SEP, j) ensures OccursAt(p + BARS, SEP, j) {
      OccurrenceInAppend(p, BARS, SEP, j);
    }
    if EndsWith(p, BARS) {
      assert (p + BARS)[|p| - 3..|p| + 1] == BARS + " ";
      assert OccursAt(p + BARS, SEP, |p| - 3);
    }
  }

  /** The exact verdict of a joined text, whatever the left text: after a dangling one the
      separator is found earlier, and the bars that are left over stay in front of the
      alternative that follows. */
  lemma GhsaVerdictOfJoin(left: string, b: string, v: Version)
    ensures GhsaVerdict(left + SEP + b, v)
         == if Dangling(left) then Max(GhsaVerdict(WithoutBars(left), v), GhsaVerdict("|| " + b, v))
            else Max(GhsaVerdict(left, v), GhsaVerdict(b, v))
  {
    if Dangling(left) {
      DanglingIsBarsAppended(left);
      assert (WithoutBars(left) + BARS) + SEP + b == WithoutBars(left) + SEP + ("|| " + b);
      GhsaVerdictIsAJoin(WithoutBars(left), "|| " + b, v);
    } else {
      GhsaVerdictIsAJoin(left, b, v);
    }
  }

  // ---------------------------------------------------------------- bars are never read

  predicate EndsInIdentifier(s: string) {
    s != "" && IsIdentifierChar(s[|s| - 1])
  }

  lemma EndOfPieces(s: string)
    requires EndsInIdentifier(LastPiece(s, "."))
    ensures EndsInIdentifier(s)
  {
    LastPieceIsSuffix(s, ".");
    var last := LastPiece(s, ".");
    assert s[|s| - |last|..][|last| - 1] == s[|s| - 1];
  }

  lemma CutIsSuffix(s: string, sep: string)
    requires |sep| > 0
    ensures var (before, after) := Cut(s, sep); if after.Some? then EndsWith(s, after.value) else before == s
  {
  }

  lemma EndOfSuffix(s: string, t: string)
    requires EndsWith(s, t) && EndsInIdentifier(t)
    ensures EndsInIdentifier(s)
  {
    assert s[|s| - |t|..][|t| - 1] == s[|s| - 1];
  }

  /** A version ends in an identifier character. */
  lemma VersionEndsInIdentifier(text: string)
    requires SemVer.Parse(text).Some?
    ensures EndsInIdentifier(text)
  {
    var (main, build) := Cut(text, "+");
    var (core, pre) := Cut(main, "-");
    CutIsSuffix(text, "+");
    CutIsSuffix(main, "-");
    var tail := match build
      case Some(b) => b
      case None => (match pre case Some(p) => p case None => core);
    assert EndsInIdentifier(LastPiece(tail, "."));
    EndOfPieces(tail);
    EndOfSuffix(text, tail);
  }

  predicate EndsInBar(s: string) {
    s != "" && s[|s| - 1] == '|'
  }

  lemma {:induction false} TrimStartKeepsEnd(s: string)
    requires EndsInBar(s)
    ensures EndsInBar(TrimStart(s))
  {
    if IsWhitespace(s[0]) {
      TrimStartKeepsEnd(s[1..]);
    }
  }

  lemma TrimKeepsBar(s: string)
    requires EndsInBar(s)
    ensures EndsInBar(Trim(s))
  {
    TrimStartKeepsEnd(s);
  }

  /** A comparator that ends in a bar is malformed. */
  lemma BarIsNoComparator(text: string)
    requires EndsInBar(text)
    ensures ParseComparator(text) == None
  {
    TrimKeepsBar(text);
    match ParseOperator(Trim(text)) {
      case None =>
      case Some((operator, rest)) =>
        assert EndsInBar(rest);
        TrimKeepsBar(rest);
        NoVersionEndsInBar(Trim(rest));
    }
  }

  lemma NoVersionEndsInBar(text: string)
    requires EndsInBar(text)
    ensures ParseForMatching(text) == None
  {
    var bare := match StripPrefix(text, "v") case Some(rest) => rest case None => text;
    assert bare != "" ==> bare[|bare| - 1] == '|';
    if SemVer.Parse(bare).Some? {
      VersionEndsInIdentifier(bare);
    }
  }

  lemma NoOperator(text: string)
    requires text != "" && text[0] == '|'
    ensures ParseOperator(text) == None
  {
    assert |text| >= 2 ==> text[..2][0] == '|';
    assert text[..1][0] == '|';
  }

  /** A comparator that begins with a bar is malformed. */
  lemma NoOperatorBeginsWithBar(text: string)
    requires text != "" && text[0] == '|'
    ensures ParseComparator(text) == None
  {
    assert TrimStart(text) == text;
    TrimEndKeepsStart(text);
    NoOperator(Trim(text));
  }

  lemma {:induction false} TrimEndKeepsStart(s: string)
    requires s != "" && !IsWhitespace(s[0])
    ensures TrimEnd(s) != "" && TrimEnd(s)[0] == s[0]
  {
    if IsWhitespace(s[|s| - 1]) {
      TrimEndKeepsStart(s[..|s| - 1]);
    }
  }

  lemma MalformedIsUnknown(alternative: string, v: Version, k: nat)
    requires k < |Split(alternative, ",")| && ParseComparator(Split(alternative, ",")[k]) == None
    ensures AlternativeVerdict(alternative, v) == Unknown
  {
    var comparators := ParseComparators(Split(alternative, ","));
    assert comparators[k] == None;
  }

  lemma {:induction false} FirstPieceKeepsStart(s: string, sep: string)
    requires |sep| > 0 && s != "" && s[0] != sep[0]
    ensures Split(s, sep)[0] != "" && Split(s, sep)[0][0] == s[0]
  {
    NoOccurrence(s, sep, 0, 0);
    assert !OccursAt(s, sep, 0);
  }

  lemma PresentCharacter(s: string, sep: string, i: nat)
    requires |sep| == 1 && i < |s| && s[i] == sep[0]
    ensures Find(s, sep) != None
  {
    assert s[i..i + 1] == sep;
    assert OccursAt(s, sep, i);
  }

  lemma NoCommaInBars(last: string)
    requires Find(last, ",") == None
    ensures Split(last + BARS, ",") == [last + BARS]
  {
    forall i | 0 <= i < |last| ensures last[i] != ',' {
      if last[i] == ',' {
        PresentCharacter(last, ",", i);
      }
    }
    AbsentCharacter(last + BARS, ",");
  }

  /** An alternative that ends in bars is never read. */
  lemma TrailingBarsAreUnknown(q: string, v: Version)
    ensures AlternativeVerdict(q + BARS, v) == Unknown
  {
    var last := LastPiece(q, ",");
    assert Find(last, ",") == None by {
      LastPieceIsSuffix(q, ",");
    }
    NoCommaInBars(last);
    SplitContinues(q, BARS, ",");
    LastOfContinued(Split(q, ","), [last + BARS]);
    BarIsNoComparator(last + BARS);
    MalformedIsUnknown(q + BARS, v, |Split(q + BARS, ",")| - 1);
  }

  /** Nor is one that begins with bars. */
  lemma LeadingBarsAreUnknown(b: string, v: Version)
    ensures AlternativeVerdict(Split("|| " + b, SEP)[0], v) == Unknown
    ensures GhsaVerdict("|| " + b, v) != NotAffected
  {
    FirstPieceKeepsStart("|| " + b, SEP);
    var first := Split("|| " + b, SEP)[0];
    FirstPieceKeepsStart(first, ",");
    NoOperatorBeginsWithBar(Split(first, ",")[0]);
    MalformedIsUnknown(first, v, 0);
    assert GhsaVerdicts(Split("|| " + b, SEP), v)[0] == Unknown;
  }

  /** The verdict of everything before the last alternative, and of the last one. */
  lemma VerdictOfContinued(pieces: seq<string>, last: string, v: Version)
    requires pieces != []
    ensures MaxOf(GhsaVerdicts(Continued(pieces, [last]), v))
         == Max(MaxOf(GhsaVerdicts(pieces[..|pieces| - 1], v)), AlternativeVerdict(last, v))
  {
    VerdictsConcat(pieces[..|pieces| - 1], [last], GhsaVerdictOf(v));
    var verdicts := GhsaVerdicts([last], v);
    assert verdicts[0] == AlternativeVerdict(last, v) && verdicts[1..] == [];
    assert MaxOf(verdicts) == verdicts[0];
  }

  /** The verdict of all alternatives but the last. */
  function EarlierVerdict(pieces: seq<string>, v: Version): Applicability
    requires pieces != []
  {
    MaxOf(GhsaVerdicts(pieces[..|pieces| - 1], v))
  }

  lemma VerdictOfPieces(pieces: seq<string>, v: Version)
    requires pieces != []
    ensures MaxOf(GhsaVerdicts(pieces, v)) == Max(EarlierVerdict(pieces, v), AlternativeVerdict(Last(pieces), v))
  {
    VerdictOfContinued(pieces, Last(pieces), v);
    ContinuedLast(pieces);
  }

  /** With bars appended the last alternative is lost. */
  lemma VerdictWithBars(a: string, v: Version)
    requires !Dangling(a)
    ensures GhsaVerdict(a + BARS, v) == Max(EarlierVerdict(Split(a, SEP), v), Unknown)
  {
    BarsAppended(a);
    TrailingBarsAreUnknown(LastPiece(a, SEP), v);
    VerdictOfContinued(Split(a, SEP), LastPiece(a, SEP) + BARS, v);
  }

  /** What comes before the bars of a dangling text is affected if the text is. */
  lemma DanglingVerdict(left: string, v: Version)
    requires Dangling(left)
    ensures GhsaVerdict(left, v) == Affected ==> GhsaVerdict(WithoutBars(left), v) == Affected
    ensures GhsaVerdict(left, v) != NotAffected
  {
    DanglingIsBarsAppended(left);
    VerdictWithBars(WithoutBars(left), v);
    VerdictOfPieces(Split(WithoutBars(left), SEP), v);
  }

  // ---------------------------------------------------------------- single comparators

  lemma VerdictOfOnePiece(text: string, v: Version)
    requires Split(text, SEP) == [text]
    ensures GhsaVerdict(text, v) == AlternativeVerdict(text, v)
  {
    VerdictOfPieces([text], v);
    assert [text][..0] == [];
  }

  predicate NoBars(text: string) {
    forall i :: 0 <= i < |text| ==> text[i] != '|'
  }

  predicate NoCommas(text: string) {
    forall i :: 0 <= i < |text| ==> text[i] != ','
  }

  lemma NoBarsNoSeparator(text: string)
    requires NoBars(text)
    ensures Find(text, SEP) == None && Split(text, SEP) == [text]
  {
    forall j: int ensures !OccursAt(text, SEP, j) {
      NoOccurrence(text, SEP, j, 1);
    }
  }

  lemma NoBarsNotDangling(text: string)
    requires NoBars(text)
    ensures !Dangling(text)
  {
    NoBarsNoSeparator(text);
    assert |text| >= 3 ==> text[|text| - 3..][1] == text[|text| - 2];
  }

  lemma AlternativeOfOne(text: string, c: Comparator, v: Version)
    requires Split(text, ",") == [text] && ParseComparator(text) == Some(c)
    ensures AlternativeVerdict(text, v) == if Satisfies(v, c) then Affected else NotAffected
  {
    var comparators := ParseComparators([text]);
    assert comparators[0] == Some(c) && |comparators| == 1;
    assert comparators == [Some(c)];
  }

  /** A text that reads as one comparator. */
  lemma OneComparator(text: string, c: Comparator, v: Version)
    requires NoBars(text) && NoCommas(text) && ParseComparator(text) == Some(c)
    ensures GhsaVerdict(text, v) == if Satisfies(v, c) then Affected else NotAffected
  {
    AbsentCharacter(text, ",");
    AlternativeOfOne(text, c, v);
    NoBarsNoSeparator(text);
    VerdictOfOnePiece(text, v);
  }

  lemma AlternativeOfTwo(one: string, two: string, c: Comparator, d: Comparator, v: Version)
    requires Split(one + ("," + two), ",") == [one, two] && ParseComparator(one) == Some(c) && ParseComparator(two) == Some(d)
    ensures AlternativeVerdict(one + ("," + two), v) == if Satisfies(v, c) && Satisfies(v, d) then Affected else NotAffected
  {
    var comparators := ParseComparators([one, two]);
    assert comparators[0] == Some(c) && comparators[1] == Some(d) && |comparators| == 2;
    assert comparators == [Some(c), Some(d)];
  }

  lemma NoBarsInPair(one: string, two: string)
    requires NoBars(one) && NoBars(two)
    ensures NoBars(one + ("," + two))
  {
  }

  lemma SplitOfPair(one: string, two: string)
    requires NoCommas(one) && NoCommas(two)
    ensures Split(one + ("," + two), ",") == [one, two]
  {
    AbsentCharacter(one, ",");
    AbsentCharacter(two, ",");
    ShortSeparatorsAreSeamless(one, ",");
    SplitOfAtomJoin(one, two, ",");
  }

  /** Two comparators joined by a comma have both to hold. */
  lemma TwoComparators(one: string, two: string, c: Comparator, d: Comparator, v: Version)
    requires NoBars(one) && NoCommas(one) && ParseComparator(one) == Some(c)
    requires NoBars(two) && NoCommas(two) && ParseComparator(two) == Some(d)
    ensures GhsaVerdict(one + ("," + two), v) == if Satisfies(v, c) && Satisfies(v, d) then Affected else NotAffected
  {
    SplitOfPair(one, two);
    AlternativeOfTwo(one, two, c, d, v);
    NoBarsInPair(one, two);
    NoBarsNoSeparator(one + ("," + two));
    VerdictOfOnePiece(one + ("," + two), v);
  }

  // ---------------------------------------------------------------- comparator texts

  predicate Blanks(s: string) {
    forall i :: 0 <= i < |s| ==> s[i] == ' '
  }

  lemma {:induction false} LeadingBlanks(gap: string, text: string)
    requires Blanks(gap)
    ensures TrimStart(gap + text) == TrimStart(text)
  {
    if gap == "" {
      assert gap + text == text;
    } else {
      LeadingBlanks(gap[1..], text);
      assert (gap + text)[1..] == gap[1..] + text;
    }
  }

  lemma VersionTextsHaveNoBlanks(text: string)
    requires VersionText(text)
    ensures Trim(text) == text && NoBars(text) && NoCommas(text) && text[0] != '='
  {
    NoBlanks(text);
  }

  predicate IsOperator(op: string) {
    op == ">=" || op == "<=" || op == ">" || op == "<" || op == "="
  }

  /** What the signs mean. */
  function OperatorOf(op: string): Operator
    requires IsOperator(op)
  {
    if op == ">=" then AtLeast else if op == "<=" then AtMost else if op == ">" then Above
    else if op == "<" then Below else Exactly
  }

  lemma OperatorIsRead(op: string, rest: string)
    requires IsOperator(op) && rest != "" && rest[0] != '='
    ensures ParseOperator(op + rest) == Some((OperatorOf(op), rest))
  {
    var s := op + rest;
    assert |op| == 1 ==> s[..1] == op && s[1..] == rest && s[..2][0] == op[0] && s[..2][1] == rest[0];
    assert |op| == 2 ==> s[..2] == op && s[2..] == rest && s[..1][0] == op[0];
  }

  /** Blanks may stand before and after the operator. */
  function ComparatorText(pad: string, op: string, gap: string, text: string): string {
    pad + (op + (gap + text))
  }

  lemma TrimmedComparator(pad: string, op: string, gap: string, text: string)
    requires Blanks(pad) && Blanks(gap) && IsOperator(op) && VersionText(text)
    ensures Trim(ComparatorText(pad, op, gap, text)) == op + (gap + text)
    ensures Trim(gap + text) == text
  {
    LeadingBlanks(pad, op + (gap + text));
    LeadingBlanks(gap, text);
    VersionTextsHaveNoBlanks(text);
    NoBlanks(op + (gap + text));
    assert TrimStart(op + (gap + text)) == op + (gap + text);
    assert TrimStart(text) == text;
  }

  lemma ComparatorIsPlain(pad: string, op: string, gap: string, text: string)
    requires Blanks(pad) && Blanks(gap) && IsOperator(op) && VersionText(text)
    ensures NoBars(ComparatorText(pad, op, gap, text)) && NoCommas(ComparatorText(pad, op, gap, text))
  {
  }

  lemma ComparatorIsRead(pad: string, op: string, gap: string, text: string, bound: Version)
    requires Blanks(pad) && Blanks(gap) && IsOperator(op) && ParseForMatching(text) == Some(bound)
    ensures ParseComparator(ComparatorText(pad, op, gap, text)) == Some(Comparator(OperatorOf(op), bound))
    ensures NoBars(ComparatorText(pad, op, gap, text)) && NoCommas(ComparatorText(pad, op, gap, text))
  {
    MatchingTexts(text);
    VersionTextsHaveNoBlanks(text);
    ComparatorIsPlain(pad, op, gap, text);
    TrimmedComparator(pad, op, gap, text);
    OperatorIsRead(op, gap + text);
  }

  /** The order relation that the signs stand for. */
  predicate Holds(op: string, v: Version, bound: Version) {
    match op
    case ">=" => !Lt(v, bound)
    case "<=" => !Lt(bound, v)
    case ">" => Lt(bound, v)
    case "<" => Lt(v, bound)
    case _ => v == bound
  }

  lemma SatisfiesHolds(op: string, v: Version, bound: Version)
    requires IsOperator(op)
    ensures Satisfies(v, Comparator(OperatorOf(op), bound)) <==> Holds(op, v, bound)
  {
    VersionsCompare(v, bound);
  }

  /** One comparator: for each operator and every bound that reads as a version, the
      verdict is affected if and only if the relation holds. */
  lemma ComparatorMeaning(pad: string, op: string, gap: string, text: string, bound: Version, v: Version)
    requires Blanks(pad) && Blanks(gap) && IsOperator(op) && ParseForMatching(text) == Some(bound)
    ensures GhsaVerdict(ComparatorText(pad, op, gap, text), v) == if Holds(op, v, bound) then Affected else NotAffected
  {
    ComparatorIsRead(pad, op, gap, text, bound);
    OneComparator(ComparatorText(pad, op, gap, text), Comparator(OperatorOf(op), bound), v);
    SatisfiesHolds(op, v, bound);
  }

  /** Two comparators, as in `>= 1.2.0, < 2.0.0`. */
  lemma TwoComparatorsMeaning(op: string, text: string, bound: Version, pad: string, op': string, text': string,
                              bound': Version, gap: string, v: Version)
    requires Blanks(pad) && Blanks(gap) && IsOperator(op) && ParseForMatching(text) == Some(bound)
    requires IsOperator(op') && ParseForMatching(text') == Some(bound')
    ensures GhsaVerdict(ComparatorText("", op, gap, text) + ("," + ComparatorText(pad, op', gap, text')), v)
         == if Holds(op, v, bound) && Holds(op', v, bound') then Affected else NotAffected
  {
    ComparatorIsRead("", op, gap, text, bound);
    ComparatorIsRead(pad, op', gap, text', bound');
    SatisfiesHolds(op, v, bound);
    SatisfiesHolds(op', v, bound');
    TwoComparators(ComparatorText("", op, gap, text), ComparatorText(pad, op', gap, text'),
                   Comparator(OperatorOf(op), bound), Comparator(OperatorOf(op'), bound'), v);
  }

  // ---------------------------------------------------------------- when joining joins

  ghost predicate JoinsWith(left: string, b: string, v: Version) {
    GhsaVerdict(left + SEP + b, v) == Max(GhsaVerdict(left, v), GhsaVerdict(b, v))
  }

  /** `all` is affected on its own but not behind bars, and `none` is not affected. */
  ghost predicate Witnesses(all: string, none: string, v: Version) {
    GhsaVerdict(all, v) == Affected && GhsaVerdict("|| " + all, v) == Unknown && GhsaVerdict(none, v) == NotAffected
  }

  /** Bars before a text without bars leave nothing to be read. */
  lemma BarsBeforePlain(text: string, v: Version)
    requires NoBars(text)
    ensures GhsaVerdict("|| " + text, v) == Unknown
  {
    var s := "|| " + text;
    forall j: int ensures !OccursAt(s, SEP, j) {
      NoOccurrence(s, SEP, j, if j == 0 then 0 else 1);
    }
    assert Split(s, SEP) == [s];
    VerdictOfOnePiece(s, v);
    LeadingBarsAreUnknown(text, v);
  }

  const ZERO := Version(0, 0, 0, ["0"])

  /** No version precedes 0.0.0-0. */
  lemma ZeroIsLeast(v: Version)
    requires WellFormed(v)
    ensures !Lt(v, ZERO)
  {
    VersionsCompare(ZERO, v);
    if v.pre != [] {
      assert WellFormedIdentifier(v.pre[0]) && ["0"][1..] == [] && "0"[..0] == "";
      if AllDigits(v.pre[0]) {
        NumericIdentifiersCompareByValue("0", v.pre[0]);
        assert SemVer.Value("0") == 0;
        assert CompareNat(0, SemVer.Value(v.pre[0])) != Greater;
      }
      assert AllDigits("0") && CompareIdentifier("0", v.pre[0]) != Greater;
      assert CompareIdentifiers(["0"], v.pre) == CompareIdentifier("0", v.pre[0]).Then(CompareIdentifiers([], v.pre[1..]));
      assert CompareIdentifiers(["0"], v.pre) != Greater;
    }
  }

  lemma WitnessesFrom(text: string, least: Version, v: Version)
    requires ParseForMatching(text) == Some(least) && !Lt(v, least)
    ensures Witnesses(ComparatorText("", ">=", "", text), ComparatorText("", "<", "", text), v)
  {
    ComparatorIsRead("", ">=", "", text, least);
    ComparatorMeaning("", ">=", "", text, least, v);
    ComparatorMeaning("", "<", "", text, least, v);
    BarsBeforePlain(ComparatorText("", ">=", "", text), v);
  }

  lemma WitnessesExist(v: Version) returns (all: string, none: string)
    requires WellFormed(v)
    ensures Witnesses(all, none, v)
  {
    ZeroIsLeast(v);
    var zero :| zero == ZERO;
    RenderedVersionsMatch(zero);
    WitnessesFrom(Render(zero), zero, v);
    all, none := ComparatorText("", ">=", "", Render(zero)), ComparatorText("", "<", "", Render(zero));
  }

  lemma DanglingJoin(left: string, b: string, v: Version)
    requires Dangling(left)
    ensures JoinsWith(left, b, v) <==>
              Max(GhsaVerdict(WithoutBars(left), v), GhsaVerdict("|| " + b, v))
              == Max(GhsaVerdict(left, v), GhsaVerdict(b, v))
  {
    GhsaVerdictOfJoin(left, b, v);
  }

  lemma DanglingJoinsExactlyWhen(left: string, v: Version)
    requires WellFormed(v) && Dangling(left)
    ensures (forall b: string :: JoinsWith(left, b, v)) <==> GhsaVerdict(left, v) == Affected
  {
    DanglingVerdict(left, v);
    if GhsaVerdict(left, v) == Affected {
      forall b: string ensures JoinsWith(left, b, v) {
        DanglingJoin(left, b, v);
      }
    } else {
      var all, none := WitnessesExist(v);
      DanglingJoin(left, all, v);
      DanglingJoin(left, none, v);
      LeadingBarsAreUnknown(none, v);
    }
  }

  /** A left text joins verdicts with every right text if and only if it is not dangling,
      or already affected. */
  lemma JoinsExactlyWhen(left: string, v: Version)
    requires WellFormed(v)
    ensures (forall b: string :: JoinsWith(left, b, v)) <==> !Dangling(left) || GhsaVerdict(left, v) == Affected
  {
    if Dangling(left) {
      DanglingJoinsExactlyWhen(left, v);
    } else {
      forall b: string ensures JoinsWith(left, b, v) {
        GhsaVerdictIsAJoin(left, b, v);
      }
    }
  }

  lemma BarsOnPlain(one: string, v: Version)
    requires NoBars(one)
    ensures Dangling(one + BARS) && WithoutBars(one + BARS) == one && GhsaVerdict(one + BARS, v) == Unknown
  {
    NoBarsNoSeparator(one);
    NoBarsNotDangling(one);
    BarsAppended(one);
    VerdictWithBars(one, v);
    assert Split(one, SEP)[..0] == [];
  }

  lemma JoinAfterBars(one: string, two: string, v: Version)
    requires NoBars(one) && NoBars(two)
    ensures GhsaVerdict(one + BARS + SEP + two, v) == Max(GhsaVerdict(one, v), Unknown)
  {
    BarsOnPlain(one, v);
    BarsBeforePlain(two, v);
    GhsaVerdictOfJoin(one + BARS, two, v);
  }

  /** Failing inputs, for any two bounds and a version between them: as in `<1.0.0 ||`
      followed by `<2.0.0` at 1.5.0, the dangling text takes the second comparator with
      it, which is satisfied, and the joined text leaves it open. */
  lemma DanglingTextLosesAnAlternative(low: Version, high: Version, v: Version)
    requires Renderable(low) && Renderable(high) && !Lt(v, low) && Lt(v, high)
    ensures var left, right := "<" + Render(low) + " ||", "<" + Render(high);
            && GhsaVerdict(left, v) == Unknown && GhsaVerdict(right, v) == Affected
            && GhsaVerdict(left + " || " + right, v) == Unknown
  {
    RenderedVersionsMatch(low);
    RenderedVersionsMatch(high);
    JoinLosesTheSecond(Render(low), Render(high), low, high, v);
  }

  lemma JoinLosesTheSecond(low: string, high: string, least: Version, bound: Version, v: Version)
    requires ParseForMatching(low) == Some(least) && !Lt(v, least)
    requires ParseForMatching(high) == Some(bound) && Lt(v, bound)
    ensures var left, right := "<" + low + BARS, "<" + high;
            && GhsaVerdict(left, v) == Unknown && GhsaVerdict(right, v) == Affected
            && GhsaVerdict(left + SEP + right, v) == Unknown
  {
    PlainComparator("<", low);
    PlainComparator("<", high);
    ComparatorIsRead("", "<", "", low, least);
    ComparatorIsRead("", "<", "", high, bound);
    ComparatorMeaning("", "<", "", low, least, v);
    ComparatorMeaning("", "<", "", high, bound, v);
    BarsOnPlain("<" + low, v);
    JoinAfterBars("<" + low, "<" + high, v);
  }

  lemma PlainComparator(op: string, text: string)
    ensures ComparatorText("", op, "", text) == op + text
  {
    assert "" + text == text;
  }
}
