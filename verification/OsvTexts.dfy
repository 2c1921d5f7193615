/**
 What stored OSV range texts mean, from the text to the verdict.
 */
module OsvTexts {
  import opened Options
  import opened Text
  import opened SemVer
  import opened VersionTexts
  import opened AdvisoryRanges

  // ---------------------------------------------------------------- clauses

  /** A clause kind: a word. */
  predicate Word(kind: string) {
    kind != "" && forall i :: 0 <= i < |kind| ==> 'a' <= kind[i] <= 'z' || kind[i] == '_'
  }

  lemma ClauseIsCut(kind: string, value: string)
    requires Word(kind) && value != "" && !IsWhitespace(value[|value| - 1])
    ensures SplitOnce(Trim(kind + ("=" + value)), "=") == Some((kind, value))
  {
    var s := kind + ("=" + value);
    NoBlanks(s);
    AbsentCharacter(kind, "=");
    ShortSeparatorsAreSeamless(kind, "=");
    FirstInJoin(kind, value, "=");
    JoinIsAppend(kind, "=", value);
    assert s[..|kind|] == kind && s[|kind| + 1..] == value;
  }

  lemma VersionTextEnds(text: string)
    requires VersionText(text)
    ensures !IsWhitespace(text[|text| - 1]) && Find(text, "*") == None && Find(text, ",") == None
  {
    AbsentCharacter(text, "*");
    AbsentCharacter(text, ",");
  }

  lemma ZeroIsNoVersion(text: string)
    requires text == "0"
    ensures ParseForMatching(text).None?
  {
    AbsentCharacter(text, "+");
    AbsentCharacter(text, "-");
    AbsentCharacter(text, ".");
    assert StripPrefix(text, "v") == None by {
      assert text[..1][0] == text[0];
    }
  }

  /** What a clause with a version says. */
  function ClauseOf(kind: string, bound: Version): Option<Clause> {
    if kind == "introduced" then Some(Event(Transition(Some(bound), Introduced)))
    else if kind == "fixed" then Some(Event(Transition(Some(bound), Fixed)))
    else if kind == "last_affected" then Some(Event(Transition(Some(bound), LastAffected)))
    else if kind == "limit" then Some(Limit(Some(bound)))
    else None
  }

  function ClauseText(kind: string, value: string): string {
    kind + ("=" + value)
  }

  /** A clause of any kind with a version; a kind that is none of the four is malformed. */
  lemma VersionClause(kind: string, text: string, bound: Version)
    requires Word(kind) && ParseForMatching(text) == Some(bound)
    ensures ParseClause(ClauseText(kind, text)) == ClauseOf(kind, bound)
  {
    MatchingTexts(text);
    VersionTextEnds(text);
    if text == "0" {
      ZeroIsNoVersion(text);
    }
    ClauseIsCut(kind, text);
  }

  /** `introduced=0` opens at the start of all versions; no other kind takes a `0`. */
  lemma ZeroClause(kind: string, value: string)
    requires Word(kind) && value == "0"
    ensures ParseClause(ClauseText(kind, value)) == if kind == "introduced" then Some(Event(Transition(None, Introduced))) else None
  {
    ZeroIsNoVersion(value);
    AbsentCharacter(value, "*");
    ClauseIsCut(kind, value);
  }

  /** `limit=*` does not limit; no other kind takes a `*`. */
  lemma StarClause(kind: string, value: string)
    requires Word(kind) && value == "*"
    ensures ParseClause(ClauseText(kind, value)) == if kind == "limit" then Some(Limit(None)) else None
  {
    assert OccursAt(value, "*", 0);
    if ParseForMatching(value).Some? {
      MatchingTexts(value);
    }
    ClauseIsCut(kind, value);
  }

  // ---------------------------------------------------------------- lists of clauses

  predicate NoSemicolons(s: string) {
    forall i :: 0 <= i < |s| ==> s[i] != ';'
  }

  predicate NoCommas(s: string) {
    forall i :: 0 <= i < |s| ==> s[i] != ','
  }

  lemma OneClause(text: string)
    requires NoCommas(text)
    ensures Clauses(text) == [ParseClause(text)]
  {
    AbsentCharacter(text, ",");
  }

  lemma MoreClauses(text: string, rest: string)
    requires NoCommas(text)
    ensures Clauses(text + ("," + rest)) == [ParseClause(text)] + Clauses(rest)
  {
    AbsentCharacter(text, ",");
    ShortSeparatorsAreSeamless(text, ",");
    SplitOfAtomJoin(text, rest, ",");
    ParseOneMore(text, Split(rest, ","));
  }

  lemma ParseOneMore(text: string, pieces: seq<string>)
    ensures ParseClauses([text] + pieces) == [ParseClause(text)] + ParseClauses(pieces)
  {
    var all := [text] + pieces;
    assert all[0] == text && forall i :: 0 <= i < |pieces| ==> all[i + 1] == pieces[i];
  }

  /** `SEMVER(...)` or `ECOSYSTEM(...)`. */
  function RangeText(ecosystem: bool, events: string): string {
    (if ecosystem then "ECOSYSTEM(" else "SEMVER(") + (events + ")")
  }

  lemma RangeIsRead(ecosystem: bool, events: string)
    ensures OsvRangeText(RangeText(ecosystem, events)) == Some(events)
  {
    var range := RangeText(ecosystem, events);
    var prefix := if ecosystem then "ECOSYSTEM(" else "SEMVER(";
    assert range[..|prefix|] == prefix && range[|prefix|..] == events + ")";
    assert range[0] == prefix[0] && (|range| >= 7 ==> range[..7][0] == prefix[0]);
    assert (events + ")")[|events|..] == ")" && (events + ")")[..|events|] == events;
  }

  lemma NoSemicolonNoSeparator(text: string)
    requires NoSemicolons(text)
    ensures Split(text, "; ") == [text]
  {
    forall j: int ensures !OccursAt(text, "; ", j) {
      NoOccurrence(text, "; ", j, 0);
    }
  }

  lemma VerdictOfOneRange(range: string, v: Version)
    requires Split(range, "; ") == [range]
    ensures OsvVerdict(range, v) == OsvRangeVerdict(range, v)
  {
    var verdicts := OsvVerdicts([range], v);
    assert verdicts[0] == OsvRangeVerdict(range, v) && verdicts[1..] == [];
    assert MaxOf(verdicts) == verdicts[0];
  }

  /** The verdict of a text with one range is that of its events. */
  lemma OneRange(ecosystem: bool, events: string, v: Version)
    requires NoSemicolons(events)
    ensures OsvVerdict(RangeText(ecosystem, events), v) == EventsVerdict(events, v)
  {
    var range := RangeText(ecosystem, events);
    assert NoSemicolons(range);
    NoSemicolonNoSeparator(range);
    RangeIsRead(ecosystem, events);
    VerdictOfOneRange(range, v);
  }

  /** The verdict of events, by the declarative rule on their clauses. */
  lemma EventsMeetTheSchema(events: string, v: Version)
    ensures EventsVerdict(events, v)
         == if !OsvEvaluable(Clauses(events)) then Unknown
            else if OsvAffected(Clauses(events), v) then Affected else NotAffected
  {
    OsvSweepMeetsTheSchema(Clauses(events), v);
  }

  // ---------------------------------------------------------------- one interval

  /** One introduction and one end. */
  lemma IntervalVerdict(x: Option<Version>, y: Option<Version>, kind: OsvEvent, v: Version)
    requires kind != Introduced
    ensures var clauses := [Some(Event(Transition(x, Introduced))), Some(Event(Transition(y, kind)))];
            && OsvEvaluable(clauses)
            && (OsvAffected(clauses, v) <==>
                  AtOrAfter(v, x) && (CompareBound(x, y).Greater? || !Applies(Transition(y, kind), v)))
  {
    var start, end := Transition(x, Introduced), Transition(y, kind);
    var clauses := [Some(Event(start)), Some(Event(end))];
    assert clauses[0] == Some(Event(start)) && clauses[1] == Some(Event(end));
    assert Lists(clauses, start) && Lists(clauses, end);
    assert forall t: Transition :: Lists(clauses, t) <==> t == start || t == end;
    assert forall l: Option<Version> :: !ListsLimit(clauses, l);
  }

  /** One introduction and one limit. */
  lemma LimitedVerdict(x: Option<Version>, l: Option<Version>, v: Version)
    ensures var clauses := [Some(Event(Transition(x, Introduced))), Some(Limit(l))];
            && OsvEvaluable(clauses)
            && (OsvAffected(clauses, v) <==> AtOrAfter(v, x) && BelowLimit(v, l))
  {
    var start := Transition(x, Introduced);
    var clauses := [Some(Event(start)), Some(Limit(l))];
    assert clauses[0] == Some(Event(start)) && clauses[1] == Some(Limit(l));
    assert Lists(clauses, start) && ListsLimit(clauses, l);
    assert forall t: Transition :: Lists(clauses, t) <==> t == start;
    assert forall m: Option<Version> :: ListsLimit(clauses, m) <==> m == l;
  }

  predicate PlainClause(text: string) {
    NoCommas(text) && NoSemicolons(text)
  }

  lemma ClausesArePlain(kind: string, value: string)
    requires Word(kind) && (VersionText(value) || value == "*")
    ensures PlainClause(ClauseText(kind, value))
  {
  }

  /** The verdict of a range of two clauses. */
  lemma TwoClauses(ecosystem: bool, one: string, two: string, v: Version)
    requires PlainClause(one) && PlainClause(two)
    ensures OsvVerdict(RangeText(ecosystem, one + ("," + two)), v)
         == (if !OsvEvaluable([ParseClause(one), ParseClause(two)]) then Unknown
             else if OsvAffected([ParseClause(one), ParseClause(two)], v) then Affected else NotAffected)
  {
    MoreClauses(one, two);
    OneClause(two);
    assert [ParseClause(one)] + [ParseClause(two)] == [ParseClause(one), ParseClause(two)];
    OneRange(ecosystem, one + ("," + two), v);
    EventsMeetTheSchema(one + ("," + two), v);
  }

  lemma IntervalText(ecosystem: bool, one: string, x: Option<Version>, two: string, y: Option<Version>, kind: OsvEvent,
                     v: Version)
    requires PlainClause(one) && ParseClause(one) == Some(Event(Transition(x, Introduced)))
    requires PlainClause(two) && ParseClause(two) == Some(Event(Transition(y, kind))) && kind != Introduced
    ensures OsvVerdict(RangeText(ecosystem, one + ("," + two)), v)
         == if AtOrAfter(v, x) && (CompareBound(x, y).Greater? || !Applies(Transition(y, kind), v)) then Affected
            else NotAffected
  {
    TwoClauses(ecosystem, one, two, v);
    IntervalVerdict(x, y, kind, v);
  }

  lemma LimitedText(ecosystem: bool, one: string, x: Option<Version>, two: string, l: Option<Version>, v: Version)
    requires PlainClause(one) && ParseClause(one) == Some(Event(Transition(x, Introduced)))
    requires PlainClause(two) && ParseClause(two) == Some(Limit(l))
    ensures OsvVerdict(RangeText(ecosystem, one + ("," + two)), v)
         == if AtOrAfter(v, x) && BelowLimit(v, l) then Affected else NotAffected
  {
    TwoClauses(ecosystem, one, two, v);
    LimitedVerdict(x, l, v);
  }

  lemma ClauseIsRead(kind: string, text: string, bound: Version)
    requires Word(kind) && ParseForMatching(text) == Some(bound)
    ensures PlainClause(ClauseText(kind, text)) && ParseClause(ClauseText(kind, text)) == ClauseOf(kind, bound)
  {
    MatchingTexts(text);
    ClausesArePlain(kind, text);
    VersionClause(kind, text, bound);
  }

  lemma ZeroIsRead(kind: string, value: string)
    requires kind == "introduced" && value == "0"
    ensures PlainClause(ClauseText(kind, value))
    ensures ParseClause(ClauseText(kind, value)) == Some(Event(Transition(None, Introduced)))
  {
    ClausesArePlain(kind, value);
    ZeroClause(kind, value);
  }

  predicate Opens(text: string, x: Option<Version>) {
    PlainClause(text) && ParseClause(text) == Some(Event(Transition(x, Introduced)))
  }

  predicate Closes(text: string, kind: OsvEvent, b: Version) {
    PlainClause(text) && kind != Introduced && ParseClause(text) == Some(Event(Transition(Some(b), kind)))
  }

  lemma FixedInterval(a: Version, b: Version, v: Version)
    ensures AtOrAfter(v, Some(a)) && (CompareBound(Some(a), Some(b)).Greater? || !Applies(Transition(Some(b), Fixed), v))
       <==> Leq(a, v) && (Lt(v, b) || Lt(b, a))
  {
    VersionsCompare(a, b);
    VersionsCompare(b, v);
  }

  lemma LastAffectedInterval(a: Version, b: Version, v: Version)
    ensures AtOrAfter(v, Some(a)) && (CompareBound(Some(a), Some(b)).Greater? || !Applies(Transition(Some(b), LastAffected), v))
       <==> Leq(a, v) && (Leq(v, b) || Lt(b, a))
  {
    VersionsCompare(a, b);
    VersionsCompare(b, v);
  }

  lemma OpenedAndClosed(ecosystem: bool, one: string, a: Version, two: string, kind: OsvEvent, b: Version, v: Version)
    requires Opens(one, Some(a)) && Closes(two, kind, b)
    ensures OsvVerdict(RangeText(ecosystem, one + ("," + two)), v)
         == if Leq(a, v) && ((if kind == Fixed then Lt(v, b) else Leq(v, b)) || Lt(b, a)) then Affected else NotAffected
  {
    IntervalText(ecosystem, one, Some(a), two, Some(b), kind, v);
    FixedInterval(a, b, v);
    LastAffectedInterval(a, b, v);
  }

  lemma OpensIsRead(text: string, bound: Version)
    requires ParseForMatching(text) == Some(bound)
    ensures Opens(ClauseText("introduced", text), Some(bound))
  {
    ClauseIsRead("introduced", text, bound);
  }

  lemma FixedIsRead(text: string, bound: Version)
    requires ParseForMatching(text) == Some(bound)
    ensures Closes(ClauseText("fixed", text), Fixed, bound)
  {
    ClauseIsRead("fixed", text, bound);
  }

  lemma LastAffectedIsRead(text: string, bound: Version)
    requires ParseForMatching(text) == Some(bound)
    ensures Closes(ClauseText("last_affected", text), LastAffected, bound)
  {
    ClauseIsRead("last_affected", text, bound);
  }

  /** `introduced=a,fixed=b`: affected from `a` on and below `b`. A fix below the
      introduction ends nothing. */
  lemma IntroducedFixed(ecosystem: bool, i: string, a: Version, f: string, b: Version, v: Version)
    requires ParseForMatching(i) == Some(a) && ParseForMatching(f) == Some(b)
    ensures OsvVerdict(RangeText(ecosystem, ClauseText("introduced", i) + ("," + ClauseText("fixed", f))), v)
         == if Leq(a, v) && (Lt(v, b) || Lt(b, a)) then Affected else NotAffected
  {
    OpensIsRead(i, a);
    FixedIsRead(f, b);
    OpenedAndClosed(ecosystem, ClauseText("introduced", i), a, ClauseText("fixed", f), Fixed, b, v);
  }

  /** `introduced=a,last_affected=b`: affected from `a` on and up to `b`. */
  lemma IntroducedLastAffected(ecosystem: bool, i: string, a: Version, l: string, b: Version, v: Version)
    requires ParseForMatching(i) == Some(a) && ParseForMatching(l) == Some(b)
    ensures OsvVerdict(RangeText(ecosystem, ClauseText("introduced", i) + ("," + ClauseText("last_affected", l))), v)
         == if Leq(a, v) && (Leq(v, b) || Lt(b, a)) then Affected else NotAffected
  {
    OpensIsRead(i, a);
    LastAffectedIsRead(l, b);
    OpenedAndClosed(ecosystem, ClauseText("introduced", i), a, ClauseText("last_affected", l), LastAffected, b, v);
  }

  /** `introduced=0,fixed=b`: every version below `b`. */
  lemma FromTheStartFixed(ecosystem: bool, zero: string, f: string, b: Version, v: Version)
    requires zero == "0" && ParseForMatching(f) == Some(b)
    ensures OsvVerdict(RangeText(ecosystem, ClauseText("introduced", zero) + ("," + ClauseText("fixed", f))), v)
         == if Lt(v, b) then Affected else NotAffected
  {
    ZeroIsRead("introduced", zero);
    ClauseIsRead("fixed", f, b);
    IntervalText(ecosystem, ClauseText("introduced", zero), None, ClauseText("fixed", f), Some(b), Fixed, v);
    VersionsCompare(b, v);
  }

  /** `introduced=0,last_affected=b`: every version up to `b`. */
  lemma FromTheStartLastAffected(ecosystem: bool, zero: string, l: string, b: Version, v: Version)
    requires zero == "0" && ParseForMatching(l) == Some(b)
    ensures OsvVerdict(RangeText(ecosystem, ClauseText("introduced", zero) + ("," + ClauseText("last_affected", l))), v)
         == if Leq(v, b) then Affected else NotAffected
  {
    ZeroIsRead("introduced", zero);
    ClauseIsRead("last_affected", l, b);
    IntervalText(ecosystem, ClauseText("introduced", zero), None, ClauseText("last_affected", l), Some(b), LastAffected, v);
    VersionsCompare(b, v);
  }

  lemma LimitIsRead(text: string, bound: Version)
    requires ParseForMatching(text) == Some(bound)
    ensures PlainClause(ClauseText("limit", text)) && ParseClause(ClauseText("limit", text)) == Some(Limit(Some(bound)))
  {
    ClauseIsRead("limit", text, bound);
  }

  lemma StarIsRead(star: string)
    requires star == "*"
    ensures PlainClause(ClauseText("limit", star)) && ParseClause(ClauseText("limit", star)) == Some(Limit(None))
  {
    ClausesArePlain("limit", star);
    StarClause("limit", star);
  }

  /** `introduced=a,limit=b`: from `a` on and below the limit. */
  lemma IntroducedLimited(ecosystem: bool, i: string, a: Version, l: string, b: Version, v: Version)
    requires ParseForMatching(i) == Some(a) && ParseForMatching(l) == Some(b)
    ensures OsvVerdict(RangeText(ecosystem, ClauseText("introduced", i) + ("," + ClauseText("limit", l))), v)
         == if Leq(a, v) && Lt(v, b) then Affected else NotAffected
  {
    OpensIsRead(i, a);
    LimitIsRead(l, b);
    LimitedText(ecosystem, ClauseText("introduced", i), Some(a), ClauseText("limit", l), Some(b), v);
  }

  /** `introduced=a,limit=*`: every version from `a` on. */
  lemma IntroducedUnlimited(ecosystem: bool, i: string, a: Version, star: string, v: Version)
    requires ParseForMatching(i) == Some(a) && star == "*"
    ensures OsvVerdict(RangeText(ecosystem, ClauseText("introduced", i) + ("," + ClauseText("limit", star))), v)
         == if Leq(a, v) then Affected else NotAffected
  {
    OpensIsRead(i, a);
    StarIsRead(star);
    LimitedText(ecosystem, ClauseText("introduced", i), Some(a), ClauseText("limit", star), None, v);
  }

  /** A clause of any other kind leaves the range open, whatever else it says. */
  lemma UnknownKindIsUnknown(ecosystem: bool, kind: string, text: string, bound: Version, rest: string, v: Version)
    requires Word(kind) && kind != "introduced" && kind != "fixed" && kind != "last_affected" && kind != "limit"
    requires ParseForMatching(text) == Some(bound) && NoSemicolons(rest)
    ensures OsvVerdict(RangeText(ecosystem, ClauseText(kind, text) + ("," + rest)), v) == Unknown
  {
    ClauseIsRead(kind, text, bound);
    MoreClauses(ClauseText(kind, text), rest);
    var events := ClauseText(kind, text) + ("," + rest);
    assert Clauses(events)[0] == None;
    OneRange(ecosystem, events, v);
    EventsMeetTheSchema(events, v);
  }
}
