/**
 What the merge answers, from the columns of the stored rows to the reported list.
 */
module AdvisoryAnswers {
  import opened Options
  import opened Text
  import opened SemVer
  import opened VersionTexts
  import opened AdvisoryRanges
  import opened AdvisoryMerge
  import GhsaJoins
  import OsvTexts

  type RustSec = (string, Version) -> Applicability

  // ---------------------------------------------------------------- formats

  /** None of the marks by which a stored text is recognised as OSV or RustSec. */
  predicate Unmarked(text: string) {
    && !Contains(text, "SEMVER(") && !Contains(text, "ECOSYSTEM(")
    && !Contains(text, "patched=") && !Contains(text, "unaffected=") && !Contains(text, "withdrawn=")
  }

  /** No parenthesis and no semicolon, and no letter before an equals sign. */
  predicate SignsOnly(text: string) {
    && (forall i :: 0 <= i < |text| ==> text[i] != '(' && text[i] != ';')
    && (forall i :: 0 < i < |text| && text[i] == '=' ==> !('a' <= text[i - 1] <= 'z'))
  }

  lemma MarkIsAbsent(text: string, mark: string)
    requires SignsOnly(text) && |mark| >= 2
    requires mark[|mark| - 1] == '(' || (mark[|mark| - 1] == '=' && 'a' <= mark[|mark| - 2] <= 'z')
    ensures !Contains(text, mark)
  {
    var last := |mark| - 1;
    forall j: int ensures !OccursAt(text, mark, j) {
      NoOccurrence(text, mark, j, if 0 <= j && j + last < |text| && text[j + last] == mark[last] then last - 1 else last);
    }
  }

  lemma SignsAreUnmarked(text: string)
    requires SignsOnly(text)
    ensures Unmarked(text)
  {
    MarkIsAbsent(text, "SEMVER(");
    MarkIsAbsent(text, "ECOSYSTEM(");
    MarkIsAbsent(text, "patched=");
    MarkIsAbsent(text, "unaffected=");
    MarkIsAbsent(text, "withdrawn=");
  }

  lemma OneClauseWithdrawn(text: string)
    requires OsvTexts.NoSemicolons(text)
    ensures IsWithdrawn(text) <==> StartsWith(text, "withdrawn=")
  {
    OsvTexts.NoSemicolonNoSeparator(text);
    assert Split(text, "; ")[0] == text;
  }

  lemma StartsOtherwise(text: string, p: string)
    requires p != "" && (text == "" || text[0] != p[0])
    ensures !StartsWith(text, p)
  {
    assert |p| <= |text| ==> text[..|p|][0] == text[0];
  }

  lemma ComparatorSigns(pad: string, op: string, gap: string, text: string)
    requires GhsaJoins.Blanks(pad) && GhsaJoins.Blanks(gap) && GhsaJoins.IsOperator(op) && VersionText(text)
    ensures SignsOnly(GhsaJoins.ComparatorText(pad, op, gap, text))
    ensures !IsWithdrawn(GhsaJoins.ComparatorText(pad, op, gap, text))
  {
    var s := GhsaJoins.ComparatorText(pad, op, gap, text);
    forall i | 0 <= i < |s| ensures s[i] != '(' && s[i] != ';' && (i > 0 && s[i] == '=' ==> !('a' <= s[i - 1] <= 'z')) {
      CharacterOf(pad, op, gap, text, i);
      if i > 0 {
        CharacterOf(pad, op, gap, text, i - 1);
      }
    }
    OneClauseWithdrawn(s);
    CharacterOf(pad, op, gap, text, 0);
    StartsOtherwise(s, "withdrawn=");
  }

  /** Blanks and signs come first, version characters after. */
  lemma CharacterOf(pad: string, op: string, gap: string, text: string, i: nat)
    requires GhsaJoins.Blanks(pad) && GhsaJoins.Blanks(gap) && GhsaJoins.IsOperator(op) && VersionText(text)
    requires i < |GhsaJoins.ComparatorText(pad, op, gap, text)|
    ensures var c := GhsaJoins.ComparatorText(pad, op, gap, text)[i];
            if i < |pad| + |op| then c == ' ' || c == '<' || c == '>' || c == '=' else c == ' ' || VersionChar(c)
  {
  }

  /** A stored GHSA text of signs and versions is judged by its comparators. */
  lemma GhsaTextsAreJudged(rustsec: RustSec, text: string, version: string, v: Version)
    requires SignsOnly(text) && !IsWithdrawn(text) && ParseForMatching(version) == Some(v)
    ensures RangeApplicability(rustsec, "ghsa", text, version) == GhsaVerdict(text, v)
  {
    SignsAreUnmarked(text);
  }

  /** A stored OSV text is judged by its events, whatever its source. */
  lemma OsvTextsAreJudged(rustsec: RustSec, source: string, ecosystem: bool, events: string, version: string, v: Version)
    requires OsvTexts.NoSemicolons(events) && ParseForMatching(version) == Some(v)
    ensures RangeApplicability(rustsec, source, OsvTexts.RangeText(ecosystem, events), version)
         == OsvVerdict(OsvTexts.RangeText(ecosystem, events), v)
  {
    var text := OsvTexts.RangeText(ecosystem, events);
    var mark := if ecosystem then "ECOSYSTEM(" else "SEMVER(";
    assert text[0..|mark|] == mark;
    assert OccursAt(text, mark, 0);
    assert OsvTexts.NoSemicolons(text);
    OneClauseWithdrawn(text);
    StartsOtherwise(text, "withdrawn=");
  }

  /** A row of RustSec, or one whose text has a mark of its format. */
  predicate IsRustSec(source: string, text: string) {
    || source == "rustsec_db"
    || Contains(text, "patched=") || Contains(text, "unaffected=") || Contains(text, "withdrawn=")
  }

  /** A RustSec text gets the verdict that the library gives. */
  lemma RustSecTextsAreJudged(rustsec: RustSec, source: string, text: string, version: string, v: Version)
    requires IsRustSec(source, text) && !Contains(text, "SEMVER(") && !Contains(text, "ECOSYSTEM(") && !IsWithdrawn(text)
    requires ParseForMatching(version) == Some(v)
    ensures RangeApplicability(rustsec, source, text, version) == rustsec(text, v)
  {
  }

  /** Nothing is known of a text without marks from any other source. */
  lemma OtherSourcesAreUnknown(rustsec: RustSec, source: string, text: string, version: string)
    requires source != "ghsa" && source != "rustsec_db" && Unmarked(text) && !IsWithdrawn(text)
    ensures RangeApplicability(rustsec, source, text, version) == Unknown
  {
  }

  /** Nothing is known for a version that cannot be read. */
  lemma UnreadableVersionsAreUnknown(rustsec: RustSec, source: string, text: string, version: string)
    requires ParseForMatching(version) == None && !IsWithdrawn(text)
    ensures RangeApplicability(rustsec, source, text, version) == Unknown
  {
  }

  // ---------------------------------------------------------------- answers about one row

  lemma OneRowCounts(row: Row, q: Query, id: string, other: Row)
    ensures Counts([row], q, id, other) <==> other == row && row.advisoryId == id && q.Verdict(row) != NotAffected
  {
  }

  lemma TwoEntriesAscend(list: seq<VersionAdvisory>, id: string)
    requires Ascending(list) && forall i :: 0 <= i < |list| ==> list[i].row.advisoryId == id
    ensures |list| > 1 ==> StringLt(id, id)
  {
    if |list| > 1 {
      assert StringLt(list[0].row.advisoryId, list[1].row.advisoryId);
    }
  }

  /** The answer about a single row is that row with its verdict, or nothing. */
  lemma OneRowAnswer(row: Row, q: Query, list: seq<VersionAdvisory>)
    requires IsAnswer([row], q, list)
    ensures list == if q.Withdraws(row) || q.Verdict(row) == NotAffected then []
                    else [VersionAdvisory(q.Verdict(row), row)]
  {
    forall id, other ensures Counts([row], q, id, other) <==> other == row && row.advisoryId == id && q.Verdict(row) != NotAffected {
      OneRowCounts(row, q, id, other);
    }
    assert row in [row];
    forall i | 0 <= i < |list| ensures list[i] == VersionAdvisory(q.Verdict(row), row) {
      assert IsRepresentative([row], q, list[i].row.advisoryId, list[i].row);
      assert Counts([row], q, list[i].row.advisoryId, list[i].row);
    }
    var id := row.advisoryId;
    assert Mentions(list, id) <==> Reported([row], q, id);
    assert Reported([row], q, id) <==> !q.Withdraws(row) && q.Verdict(row) != NotAffected by {
      assert Suppressed([row], q, id) <==> q.Withdraws(row);
      assert Counts([row], q, id, row) <==> q.Verdict(row) != NotAffected;
    }
    if |list| > 0 {
      assert list[0].row.advisoryId == id;
    }
    TwoEntriesAscend(list, id);
    StringOrder(id, id, id);
  }

  /** A row whose range text decides. */
  predicate RangeDecides(row: Row, versionId: int) {
    !row.requiresResync && row.versionId != Some(versionId)
  }

  /** A GHSA row with one comparator: reported as affected if and only if the relation
      holds, and otherwise not at all. */
  lemma GhsaRowAnswer(rustsec: RustSec, versionId: int, version: string, v: Version, row: Row, pad: string, op: string,
                      gap: string, text: string, bound: Version, list: seq<VersionAdvisory>)
    requires ParseForMatching(version) == Some(v) && RangeDecides(row, versionId) && row.source == "ghsa"
    requires GhsaJoins.Blanks(pad) && GhsaJoins.Blanks(gap) && GhsaJoins.IsOperator(op)
    requires ParseForMatching(text) == Some(bound) && row.affectedRange == GhsaJoins.ComparatorText(pad, op, gap, text)
    requires IsAnswer([row], QueryFor(rustsec, versionId, version), list)
    ensures list == if GhsaJoins.Holds(op, v, bound) then [VersionAdvisory(Affected, row)] else []
  {
    MatchingTexts(text);
    ComparatorSigns(pad, op, gap, text);
    GhsaTextsAreJudged(rustsec, row.affectedRange, version, v);
    GhsaJoins.ComparatorMeaning(pad, op, gap, text, bound, v);
    OneRowAnswer(row, QueryFor(rustsec, versionId, version), list);
  }

  /** An OSV row with one interval. */
  lemma OsvRowAnswer(rustsec: RustSec, versionId: int, version: string, v: Version, row: Row, ecosystem: bool,
                     i: string, a: Version, f: string, b: Version, list: seq<VersionAdvisory>)
    requires ParseForMatching(version) == Some(v) && RangeDecides(row, versionId)
    requires ParseForMatching(i) == Some(a) && ParseForMatching(f) == Some(b)
    requires row.affectedRange
          == OsvTexts.RangeText(ecosystem, OsvTexts.ClauseText("introduced", i) + ("," + OsvTexts.ClauseText("fixed", f)))
    requires IsAnswer([row], QueryFor(rustsec, versionId, version), list)
    ensures list == if Leq(a, v) && (Lt(v, b) || Lt(b, a)) then [VersionAdvisory(Affected, row)] else []
  {
    OsvTexts.OpensIsRead(i, a);
    OsvTexts.FixedIsRead(f, b);
    var events := OsvTexts.ClauseText("introduced", i) + ("," + OsvTexts.ClauseText("fixed", f));
    OsvTextsAreJudged(rustsec, row.source, ecosystem, events, version, v);
    NoWithdrawalInRange(ecosystem, events);
    OsvTexts.IntroducedFixed(ecosystem, i, a, f, b, v);
    OneRowAnswer(row, QueryFor(rustsec, versionId, version), list);
  }

  lemma NoWithdrawalInRange(ecosystem: bool, events: string)
    requires OsvTexts.NoSemicolons(events)
    ensures !IsWithdrawn(OsvTexts.RangeText(ecosystem, events))
  {
    var text := OsvTexts.RangeText(ecosystem, events);
    assert OsvTexts.NoSemicolons(text);
    OneClauseWithdrawn(text);
    StartsOtherwise(text, "withdrawn=");
  }

  /** A RustSec row reports the verdict of the library. */
  lemma RustSecRowAnswer(rustsec: RustSec, versionId: int, version: string, v: Version, row: Row,
                         list: seq<VersionAdvisory>)
    requires ParseForMatching(version) == Some(v) && RangeDecides(row, versionId)
    requires IsRustSec(row.source, row.affectedRange)
    requires !Contains(row.affectedRange, "SEMVER(") && !Contains(row.affectedRange, "ECOSYSTEM(")
    requires !IsWithdrawn(row.affectedRange) && IsAnswer([row], QueryFor(rustsec, versionId, version), list)
    ensures list == if rustsec(row.affectedRange, v) == NotAffected then []
                    else [VersionAdvisory(rustsec(row.affectedRange, v), row)]
  {
    RustSecTextsAreJudged(rustsec, row.source, row.affectedRange, version, v);
    OneRowAnswer(row, QueryFor(rustsec, versionId, version), list);
  }

  /** Reported as unknown: a row awaiting re-sync, whatever else it says; any row when the
      version cannot be read; a row of an unknown source without a known format. */
  lemma UnknownRowAnswer(rustsec: RustSec, versionId: int, version: string, row: Row, list: seq<VersionAdvisory>)
    requires IsAnswer([row], QueryFor(rustsec, versionId, version), list)
    requires || row.requiresResync
             || (RangeDecides(row, versionId) && !IsWithdrawn(row.affectedRange) && ParseForMatching(version) == None)
             || (RangeDecides(row, versionId) && !IsWithdrawn(row.affectedRange) && Unmarked(row.affectedRange)
                 && row.source != "ghsa" && row.source != "rustsec_db")
    ensures list == [VersionAdvisory(Unknown, row)]
  {
    OneRowAnswer(row, QueryFor(rustsec, versionId, version), list);
  }

  /** A row for this very version is reported as affected unless it is withdrawn. */
  lemma ExplicitRowAnswer(rustsec: RustSec, versionId: int, version: string, row: Row, list: seq<VersionAdvisory>)
    requires IsAnswer([row], QueryFor(rustsec, versionId, version), list)
    requires !row.requiresResync && row.versionId == Some(versionId)
    ensures list == if IsWithdrawn(row.affectedRange) then [] else [VersionAdvisory(Affected, row)]
  {
    OneRowAnswer(row, QueryFor(rustsec, versionId, version), list);
  }

  // ---------------------------------------------------------------- answers about many rows

  /** No row of the ID that is up to date records a withdrawal. */
  ghost predicate NotWithdrawn(rows: seq<Row>, id: string) {
    forall row :: row in rows && row.advisoryId == id && !row.requiresResync ==> !IsWithdrawn(row.affectedRange)
  }

  lemma ReportedRow(rows: seq<Row>, q: Query, row: Row, list: seq<VersionAdvisory>) returns (i: nat)
    requires IsAnswer(rows, q, list) && row in rows && q.Verdict(row) != NotAffected
    requires !Suppressed(rows, q, row.advisoryId)
    ensures i < |list| && list[i].row.advisoryId == row.advisoryId
    ensures Rank(q.Verdict(row)) <= Rank(list[i].applicability) && q.Priority(row) <= q.Priority(list[i].row)
  {
    assert Counts(rows, q, row.advisoryId, row);
    assert Mentions(list, row.advisoryId);
    i :| 0 <= i < |list| && list[i].row.advisoryId == row.advisoryId;
    AnswerIsTheMaximum(rows, q, list, i, row);
  }

  lemma NotWithdrawnIsNotSuppressed(rustsec: RustSec, versionId: int, version: string, rows: seq<Row>, id: string)
    ensures Suppressed(rows, QueryFor(rustsec, versionId, version), id) <==> !NotWithdrawn(rows, id)
  {
  }

  /** An ID with a row awaiting re-sync is reported, unless it is withdrawn. */
  lemma ResyncIsReported(rustsec: RustSec, versionId: int, version: string, rows: seq<Row>, row: Row,
                         list: seq<VersionAdvisory>) returns (i: nat)
    requires IsAnswer(rows, QueryFor(rustsec, versionId, version), list)
    requires row in rows && row.requiresResync && NotWithdrawn(rows, row.advisoryId)
    ensures i < |list| && list[i].row.advisoryId == row.advisoryId && list[i].applicability != NotAffected
    ensures (forall r :: r in rows && r.advisoryId == row.advisoryId ==> r.requiresResync) ==>
              list[i].applicability == Unknown
  {
    NotWithdrawnIsNotSuppressed(rustsec, versionId, version, rows, row.advisoryId);
    i := ReportedRow(rows, QueryFor(rustsec, versionId, version), row, list);
    assert IsRepresentative(rows, QueryFor(rustsec, versionId, version), list[i].row.advisoryId, list[i].row);
  }

  /** An ID with an up-to-date row for this very version is affected, and such a row
      represents it, unless it is withdrawn. */
  lemma ExplicitMatchIsAffected(rustsec: RustSec, versionId: int, version: string, rows: seq<Row>, row: Row,
                                list: seq<VersionAdvisory>) returns (i: nat)
    requires IsAnswer(rows, QueryFor(rustsec, versionId, version), list)
    requires row in rows && !row.requiresResync && row.versionId == Some(versionId) && NotWithdrawn(rows, row.advisoryId)
    ensures i < |list| && list[i].row.advisoryId == row.advisoryId
    ensures list[i].applicability == Affected && list[i].row.versionId == Some(versionId) && !list[i].row.requiresResync
  {
    NotWithdrawnIsNotSuppressed(rustsec, versionId, version, rows, row.advisoryId);
    i := ReportedRow(rows, QueryFor(rustsec, versionId, version), row, list);
    assert IsRepresentative(rows, QueryFor(rustsec, versionId, version), list[i].row.advisoryId, list[i].row);
  }

  /** A withdrawal that is up to date suppresses its ID, whatever the other rows say. */
  lemma WithdrawnIsNotReported(rustsec: RustSec, versionId: int, version: string, rows: seq<Row>, row: Row,
                               list: seq<VersionAdvisory>)
    requires IsAnswer(rows, QueryFor(rustsec, versionId, version), list)
    requires row in rows && !row.requiresResync && IsWithdrawn(row.affectedRange)
    ensures forall i :: 0 <= i < |list| ==> list[i].row.advisoryId != row.advisoryId
  {
    assert Suppressed(rows, QueryFor(rustsec, versionId, version), row.advisoryId);
    assert !Reported(rows, QueryFor(rustsec, versionId, version), row.advisoryId);
    forall i | 0 <= i < |list| ensures list[i].row.advisoryId != row.advisoryId {
      assert list[i].row.advisoryId == row.advisoryId ==> Mentions(list, row.advisoryId);
    }
  }

  /** Among rows of equal priority the representative has the least source; among equal
      sources the least range text; among equal texts no version id, or the least. */
  lemma RepresentativeComesFirst(rows: seq<Row>, q: Query, list: seq<VersionAdvisory>, i: nat, other: Row)
    requires IsAnswer(rows, q, list) && i < |list| && Counts(rows, q, list[i].row.advisoryId, other)
    requires q.Priority(other) == q.Priority(list[i].row)
    ensures var row := list[i].row;
            || StringLt(row.source, other.source)
            || (row.source == other.source && StringLt(row.affectedRange, other.affectedRange))
            || (row.source == other.source && row.affectedRange == other.affectedRange
                && (row.versionId == None || (other.versionId.Some? && row.versionId.value <= other.versionId.value)))
  {
    assert IsRepresentative(rows, q, list[i].row.advisoryId, list[i].row);
    StringsCompare(list[i].row.source, other.source);
    StringsCompare(list[i].row.affectedRange, other.affectedRange);
  }
}
