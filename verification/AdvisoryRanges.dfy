/**
 Applicability of one stored advisory range to one version: the OSV sweep, the
 GHSA comparators and the choice between the formats.
 */
module AdvisoryRanges {
  import opened Options
  import opened Text
  import opened SemVer
  import opened Sorting

  datatype Applicability = Affected | NotAffected | Unknown

  function Rank(a: Applicability): nat {
    match a
    case NotAffected => 0
    case Unknown => 1
    case Affected => 2
  }

  /** The join of two verdicts in NotAffected < Unknown < Affected. */
  function Max(a: Applicability, b: Applicability): Applicability {
    if Rank(a) < Rank(b) then b else a
  }

  function MaxOf(verdicts: seq<Applicability>): Applicability {
    if verdicts == [] then NotAffected else Max(verdicts[0], MaxOf(verdicts[1..]))
  }

  lemma {:induction false} MaxOfConcat(a: seq<Applicability>, b: seq<Applicability>)
    ensures MaxOf(a + b) == Max(MaxOf(a), MaxOf(b))
  {
    if a == [] {
      assert a + b == b;
    } else {
      MaxOfConcat(a[1..], b);
      assert (a + b)[1..] == a[1..] + b;
    }
  }

  /** The verdict of each part. */
  function Verdicts(parts: seq<string>, verdict: string -> Applicability): seq<Applicability> {
    seq(|parts|, i requires 0 <= i < |parts| => verdict(parts[i]))
  }

  lemma VerdictsConcat(a: seq<string>, b: seq<string>, verdict: string -> Applicability)
    ensures MaxOf(Verdicts(a + b, verdict)) == Max(MaxOf(Verdicts(a, verdict)), MaxOf(Verdicts(b, verdict)))
  {
    assert Verdicts(a + b, verdict) == Verdicts(a, verdict) + Verdicts(b, verdict);
    MaxOfConcat(Verdicts(a, verdict), Verdicts(b, verdict));
  }

  /** The join is the least verdict that is at least every given one. */
  lemma {:induction false} MaxOfIsLeastUpperBound(verdicts: seq<Applicability>, bound: Applicability)
    ensures Rank(MaxOf(verdicts)) <= Rank(bound)
       <==> forall i :: 0 <= i < |verdicts| ==> Rank(verdicts[i]) <= Rank(bound)
  {
    if verdicts != [] {
      MaxOfIsLeastUpperBound(verdicts[1..], bound);
      assert forall i :: 1 <= i < |verdicts| ==> verdicts[i] == verdicts[1..][i - 1];
    }
  }

  lemma {:induction false} MaxOfIsAttained(verdicts: seq<Applicability>)
    ensures MaxOf(verdicts) == NotAffected || MaxOf(verdicts) in verdicts
  {
    if verdicts != [] {
      MaxOfIsAttained(verdicts[1..]);
    }
  }

  /** Which verdicts occur decides the join: neither their order nor how often
      they are repeated matters. */
  lemma JoinIgnoresOrderAndRepetition(a: seq<Applicability>, b: seq<Applicability>)
    requires forall x :: x in a <==> x in b
    ensures MaxOf(a) == MaxOf(b)
  {
    MaxOfIsLeastUpperBound(a, MaxOf(a));
    MaxOfIsLeastUpperBound(b, MaxOf(b));
    MaxOfIsLeastUpperBound(a, MaxOf(b));
    MaxOfIsLeastUpperBound(b, MaxOf(a));
    assert forall i :: 0 <= i < |a| ==> a[i] in b;
    assert forall i :: 0 <= i < |b| ==> b[i] in a;
  }

  // ---------------------------------------------------------------- OSV events

  datatype OsvEvent = Introduced | Fixed | LastAffected

  /** A state change at a version; no bound is the start of all versions. */
  datatype Transition = Transition(bound: Option<Version>, kind: OsvEvent)

  /** Limits are independent of the transitions; no bound is positive infinity. */
  datatype OsvRange = OsvRange(events: seq<Transition>, limits: seq<Option<Version>>)

  datatype Clause = Limit(limit: Option<Version>) | Event(transition: Transition)

  function KindRank(k: OsvEvent): nat {
    match k
    case Introduced => 0
    case Fixed => 1
    case LastAffected => 2
  }

  function CompareBound(a: Option<Version>, b: Option<Version>): Ordering {
    match (a, b)
    case (None, None) => Equal
    case (None, Some(_)) => Less
    case (Some(_), None) => Greater
    case (Some(x), Some(y)) => Compare(x, y)
  }

  predicate TransitionLeq(a: Transition, b: Transition) {
    !CompareBound(a.bound, b.bound).Then(CompareNat(KindRank(a.kind), KindRank(b.kind))).Greater?
  }

  lemma TransitionOrderIsTotal()
    ensures TotalOrder(TransitionLeq)
  {
    forall a: Transition, b: Transition
      ensures TransitionLeq(a, b) || TransitionLeq(b, a)
      ensures TransitionLeq(a, b) && TransitionLeq(b, a) ==> a == b
    {
      if a.bound.Some? && b.bound.Some? {
        VersionsCompare(a.bound.value, b.bound.value);
      }
    }
    forall a: Transition, b: Transition, c: Transition | TransitionLeq(a, b) && TransitionLeq(b, c)
      ensures TransitionLeq(a, c)
    {
      if a.bound.Some? && b.bound.Some? && c.bound.Some? {
        var x, y, z := a.bound.value, b.bound.value, c.bound.value;
        PrecedenceIsATotalOrder(x, y, z);
        VersionsCompare(x, y);
        VersionsCompare(y, z);
        VersionsCompare(x, z);
      }
    }
  }

  /** Sorting leaves one arrangement of the events, whatever order they came in. */
  lemma EventSortIsCanonical(a: seq<Transition>, b: seq<Transition>)
    requires multiset(a) == multiset(b)
    ensures Sort(a, TransitionLeq) == Sort(b, TransitionLeq)
  {
    TransitionOrderIsTotal();
    SortSorts(a, TransitionLeq);
    SortSorts(b, TransitionLeq);
    SortedIsUnique(Sort(a, TransitionLeq), Sort(b, TransitionLeq), TransitionLeq);
  }

  // ---------------------------------------------------------------- OSV parsing

  function ParseKind(kind: string): Option<OsvEvent> {
    if kind == "introduced" then Some(Introduced)
    else if kind == "fixed" then Some(Fixed)
    else if kind == "last_affected" then Some(LastAffected)
    else None
  }

  function ParseClause(text: string): Option<Clause> {
    match SplitOnce(Trim(text), "=")
    case None => None
    case Some((kind, value)) =>
      if kind == "limit" then
        if Contains(value, "*") then Some(Limit(None))
        else match ParseForMatching(value)
          case None => None
          case Some(bound) => Some(Limit(Some(bound)))
      else
        match ParseKind(kind)
        case None => None
        case Some(event) =>
          if event == Introduced && value == "0" then Some(Event(Transition(None, Introduced)))
          else match ParseForMatching(value)
            case None => None
            case Some(bound) => Some(Event(Transition(Some(bound), event)))
  }

  function ParseClauses(pieces: seq<string>): seq<Option<Clause>> {
    seq(|pieces|, i requires 0 <= i < |pieces| => ParseClause(pieces[i]))
  }

  function Transitions(clauses: seq<Option<Clause>>): seq<Transition> {
    if clauses == [] then []
    else
      var last := |clauses| - 1;
      match clauses[last]
      case Some(Event(t)) => Transitions(clauses[..last]) + [t]
      case _ => Transitions(clauses[..last])
  }

  function Limits(clauses: seq<Option<Clause>>): seq<Option<Version>> {
    if clauses == [] then []
    else
      var last := |clauses| - 1;
      match clauses[last]
      case Some(Limit(l)) => Limits(clauses[..last]) + [l]
      case _ => Limits(clauses[..last])
  }

  lemma {:induction false} TransitionsAreTheClauses(clauses: seq<Option<Clause>>, t: Transition)
    ensures t in Transitions(clauses) <==> Some(Event(t)) in clauses
  {
    if clauses != [] {
      TransitionsAreTheClauses(clauses[..|clauses| - 1], t);
    }
  }

  lemma {:induction false} LimitsAreTheClauses(clauses: seq<Option<Clause>>, l: Option<Version>)
    ensures l in Limits(clauses) <==> Some(Limit(l)) in clauses
  {
    if clauses != [] {
      LimitsAreTheClauses(clauses[..|clauses| - 1], l);
    }
  }

  predicate HasKind(events: seq<Transition>, kind: OsvEvent) {
    exists i :: 0 <= i < |events| && events[i].kind == kind
  }

  predicate Coherent(events: seq<Transition>) {
    HasKind(events, Introduced) && !(HasKind(events, Fixed) && HasKind(events, LastAffected))
  }

  function OsvRangeOf(clauses: seq<Option<Clause>>): Option<OsvRange> {
    if None in clauses || !Coherent(Transitions(clauses)) then None
    else Some(OsvRange(Sort(Transitions(clauses), TransitionLeq), Limits(clauses)))
  }

  /** The clauses of a comma-separated event list. */
  function Clauses(text: string): seq<Option<Clause>> {
    ParseClauses(Split(text, ","))
  }

  /** Collects stored OSV events; gives up at the first malformed clause. */
  method ParseOsvEvents(clauses: seq<Option<Clause>>) returns (r: Option<OsvRange>)
    ensures r == OsvRangeOf(clauses)
  {
    var events: seq<Transition>, limits: seq<Option<Version>> := [], [];
    for i := 0 to |clauses|
      invariant None !in clauses[..i]
      invariant events == Transitions(clauses[..i])
      invariant limits == Limits(clauses[..i])
    {
      assert clauses[..i + 1][..i] == clauses[..i];
      match clauses[i] {
        case None => return None;
        case Some(Limit(limit)) => limits := limits + [limit];
        case Some(Event(transition)) => events := events + [transition];
      }
    }
    assert clauses[..|clauses|] == clauses;
    if !Coherent(events) {
      return None;
    }
    return Some(OsvRange(Sort(events, TransitionLeq), limits));
  }

  // ---------------------------------------------------------------- OSV sweep

  predicate AtOrAfter(v: Version, bound: Option<Version>) {
    bound.None? || Leq(bound.value, v)
  }

  predicate After(v: Version, bound: Option<Version>) {
    bound.Some? && Lt(bound.value, v)
  }

  predicate BelowLimit(v: Version, limit: Option<Version>) {
    limit.None? || Lt(v, limit.value)
  }

  /** A transition takes effect for `v`: an exclusive end at its version, an
      inclusive end only past it. */
  predicate Applies(t: Transition, v: Version) {
    if t.kind == LastAffected then After(v, t.bound) else AtOrAfter(v, t.bound)
  }

  /** The state after sweeping the events in order: the last one that takes effect
      decides. */
  predicate Sweep(events: seq<Transition>, v: Version) {
    events != [] &&
    var last := |events| - 1;
    if Applies(events[last], v) then events[last].kind == Introduced else Sweep(events[..last], v)
  }

  predicate RangeAffects(range: OsvRange, v: Version) {
    && (range.limits == [] || exists i :: 0 <= i < |range.limits| && BelowLimit(v, range.limits[i]))
    && Sweep(range.events, v)
  }

  method OsvRangeAffects(range: OsvRange, version: Version) returns (affected: bool)
    ensures affected == RangeAffects(range, version)
  {
    if range.limits != [] && !exists i :: 0 <= i < |range.limits| && BelowLimit(version, range.limits[i]) {
      return false;
    }
    affected := false;
    for i := 0 to |range.events|
      invariant affected == Sweep(range.events[..i], version)
    {
      var event := range.events[i];
      assert range.events[..i + 1][..i] == range.events[..i];
      match event.kind {
        case Introduced => if AtOrAfter(version, event.bound) { affected := true; }
        case Fixed => if AtOrAfter(version, event.bound) { affected := false; }
        case LastAffected => if After(version, event.bound) { affected := false; }
      }
    }
    assert range.events[..|range.events|] == range.events;
  }

  /** `c` ends, for `v`, the interval that `start` opens. */
  ghost predicate Ends(c: Transition, start: Transition, v: Version) {
    && c.kind != Introduced
    && !CompareBound(start.bound, c.bound).Greater?
    && Applies(c, v)
  }

  /** Some introduced version is at or before `v` and nothing ends its interval:
      no fixed f with i <= f <= v and no last_affected l with i <= l < v. */
  ghost predicate InsideAnInterval(events: seq<Transition>, v: Version) {
    exists i :: 0 <= i < |events| && events[i].kind == Introduced && AtOrAfter(v, events[i].bound)
      && forall j :: 0 <= j < |events| ==> !Ends(events[j], events[i], v)
  }

  lemma {:induction false} LastEffectiveEvent(events: seq<Transition>, v: Version) returns (k: int)
    ensures -1 <= k < |events|
    ensures forall j :: k < j < |events| ==> !Applies(events[j], v)
    ensures k >= 0 ==> Applies(events[k], v)
    ensures Sweep(events, v) <==> k >= 0 && events[k].kind == Introduced
  {
    if events == [] {
      k := -1;
    } else if Applies(events[|events| - 1], v) {
      k := |events| - 1;
    } else {
      var rest := events[..|events| - 1];
      k := LastEffectiveEvent(rest, v);
      assert forall j :: 0 <= j < |rest| ==> rest[j] == events[j];
    }
  }

  lemma LastIntroductionIsOpen(events: seq<Transition>, v: Version, k: nat)
    requires SortedBy(events, TransitionLeq) && k < |events| && events[k].kind == Introduced
    requires forall j :: k < j < |events| ==> !Applies(events[j], v)
    ensures forall j :: 0 <= j < |events| ==> !Ends(events[j], events[k], v)
  {
    forall j | 0 <= j < |events| ensures !Ends(events[j], events[k], v) {
      if j < k {
        assert TransitionLeq(events[j], events[k]);
        CompareBoundFlips(events[j].bound, events[k].bound);
      }
    }
  }

  lemma OpenIntervalEndsTheSweep(events: seq<Transition>, v: Version, i: nat, k: int)
    requires SortedBy(events, TransitionLeq) && i < |events| && events[i].kind == Introduced && Applies(events[i], v)
    requires forall j :: 0 <= j < |events| ==> !Ends(events[j], events[i], v)
    requires -1 <= k < |events| && (k >= 0 ==> Applies(events[k], v))
    requires forall j :: k < j < |events| ==> !Applies(events[j], v)
    ensures k >= 0 && events[k].kind == Introduced
  {
    assert i <= k;
    if i < k {
      assert TransitionLeq(events[i], events[k]);
      assert !Ends(events[k], events[i], v);
    }
  }

  /** On sorted events the sweep finds exactly the versions inside an interval. */
  lemma SweepIsIntervalMembership(events: seq<Transition>, v: Version)
    requires SortedBy(events, TransitionLeq)
    ensures Sweep(events, v) <==> InsideAnInterval(events, v)
  {
    var k := LastEffectiveEvent(events, v);
    if Sweep(events, v) {
      LastIntroductionIsOpen(events, v, k);
    }
    if InsideAnInterval(events, v) {
      var i :| 0 <= i < |events| && events[i].kind == Introduced && AtOrAfter(v, events[i].bound)
        && forall j :: 0 <= j < |events| ==> !Ends(events[j], events[i], v);
      OpenIntervalEndsTheSweep(events, v, i, k);
    }
  }

  lemma CompareBoundFlips(a: Option<Version>, b: Option<Version>)
    ensures CompareBound(b, a) == CompareBound(a, b).Flip()
  {
    if a.Some? && b.Some? {
      VersionsCompare(a.value, b.value);
    }
  }

  // ---------------------------------------------------------------- OSV evaluation

  ghost predicate Lists(clauses: seq<Option<Clause>>, t: Transition) {
    Some(Event(t)) in clauses
  }

  ghost predicate ListsLimit(clauses: seq<Option<Clause>>, l: Option<Version>) {
    Some(Limit(l)) in clauses
  }

  /** A range can be evaluated when every clause is well formed, one of them
      introduces, and fixed and last_affected are not mixed. */
  ghost predicate OsvEvaluable(clauses: seq<Option<Clause>>) {
    && None !in clauses
    && (exists t: Transition :: Lists(clauses, t) && t.kind == Introduced)
    && !((exists t: Transition :: Lists(clauses, t) && t.kind == Fixed)
         && (exists t: Transition :: Lists(clauses, t) && t.kind == LastAffected))
  }

  /** The Evaluation section of the OSV schema: below some limit, if there are
      limits, and inside an interval that nothing has ended. */
  ghost predicate OsvAffected(clauses: seq<Option<Clause>>, v: Version) {
    && ((forall l: Option<Version> :: !ListsLimit(clauses, l))
        || (exists l: Option<Version> :: ListsLimit(clauses, l) && BelowLimit(v, l)))
    && exists start: Transition :: Lists(clauses, start) && start.kind == Introduced
         && AtOrAfter(v, start.bound)
         && forall c: Transition :: Lists(clauses, c) ==> !Ends(c, start, v)
  }

  lemma KindsAreTheClauses(clauses: seq<Option<Clause>>, kind: OsvEvent)
    ensures HasKind(Transitions(clauses), kind)
       <==> exists t: Transition :: Lists(clauses, t) && t.kind == kind
  {
    var events := Transitions(clauses);
    forall t: Transition ensures t in events <==> Lists(clauses, t) {
      TransitionsAreTheClauses(clauses, t);
    }
    assert forall i :: 0 <= i < |events| ==> events[i] in events;
  }

  /** A range is evaluated exactly when its clauses are well formed, and then the
      sweep over the sorted events agrees with the declarative rule. */
  lemma OsvSweepMeetsTheSchema(clauses: seq<Option<Clause>>, v: Version)
    ensures OsvRangeOf(clauses).Some? <==> OsvEvaluable(clauses)
    ensures OsvRangeOf(clauses).Some? ==>
              (RangeAffects(OsvRangeOf(clauses).value, v) <==> OsvAffected(clauses, v))
  {
    KindsAreTheClauses(clauses, Introduced);
    KindsAreTheClauses(clauses, Fixed);
    KindsAreTheClauses(clauses, LastAffected);
    LimitsMeetTheSchema(clauses, v);
    IntervalsMeetTheSchema(clauses, v);
  }

  lemma LimitsMeetTheSchema(clauses: seq<Option<Clause>>, v: Version)
    ensures var limits := Limits(clauses);
      (limits == [] || exists i :: 0 <= i < |limits| && BelowLimit(v, limits[i]))
      <==> ((forall l: Option<Version> :: !ListsLimit(clauses, l))
            || (exists l: Option<Version> :: ListsLimit(clauses, l) && BelowLimit(v, l)))
  {
    var limits := Limits(clauses);
    forall l: Option<Version> ensures l in limits <==> ListsLimit(clauses, l) {
      LimitsAreTheClauses(clauses, l);
    }
    assert forall i :: 0 <= i < |limits| ==> limits[i] in limits;
    if limits != [] {
      assert ListsLimit(clauses, limits[0]);
    }
  }

  lemma IntervalsMeetTheSchema(clauses: seq<Option<Clause>>, v: Version)
    ensures Sweep(Sort(Transitions(clauses), TransitionLeq), v)
       <==> exists start: Transition :: Lists(clauses, start) && start.kind == Introduced
              && AtOrAfter(v, start.bound)
              && forall c: Transition :: Lists(clauses, c) ==> !Ends(c, start, v)
  {
    var events := Sort(Transitions(clauses), TransitionLeq);
    TransitionOrderIsTotal();
    SortSorts(Transitions(clauses), TransitionLeq);
    SameElements(events, Transitions(clauses));
    SweepIsIntervalMembership(events, v);
    forall t: Transition ensures t in events <==> Lists(clauses, t) {
      TransitionsAreTheClauses(clauses, t);
    }
    assert forall i :: 0 <= i < |events| ==> events[i] in events;
  }

  /** The verdict of a range depends only on which clauses its text lists;
      permuting or repeating them changes nothing. */
  lemma OsvVerdictIgnoresEventOrder(a: string, b: string, v: Version)
    requires forall p :: p in Split(a, ",") <==> p in Split(b, ",")
    ensures EventsVerdict(a, v) == EventsVerdict(b, v)
  {
    var ca, cb := Clauses(a), Clauses(b);
    ClausesFollowPieces(Split(a, ","), Split(b, ","));
    ClausesFollowPieces(Split(b, ","), Split(a, ","));
    assert forall t: Transition :: Lists(ca, t) <==> Lists(cb, t);
    assert forall l: Option<Version> :: ListsLimit(ca, l) <==> ListsLimit(cb, l);
    OsvSweepMeetsTheSchema(ca, v);
    OsvSweepMeetsTheSchema(cb, v);
  }

  lemma ClausesFollowPieces(a: seq<string>, b: seq<string>)
    requires forall p :: p in a ==> p in b
    ensures forall c :: c in ParseClauses(a) ==> c in ParseClauses(b)
  {
    forall c | c in ParseClauses(a) ensures c in ParseClauses(b) {
      var i :| 0 <= i < |a| && ParseClauses(a)[i] == c;
      assert a[i] in b;
      var j :| 0 <= j < |b| && b[j] == a[i];
      assert ParseClauses(b)[j] == c;
    }
  }

  function EventsVerdict(text: string, v: Version): Applicability {
    match OsvRangeOf(Clauses(text))
    case None => Unknown
    case Some(range) => if RangeAffects(range, v) then Affected else NotAffected
  }

  /** One range, `SEMVER(...)` or `ECOSYSTEM(...)`. */
  function OsvRangeText(range: string): Option<string> {
    var rest := match StripPrefix(range, "SEMVER(")
      case Some(rest) => Some(rest)
      case None => StripPrefix(range, "ECOSYSTEM(");
    match rest
    case None => None
    case Some(text) => StripSuffix(text, ")")
  }

  function OsvRangeVerdict(range: string, v: Version): Applicability {
    match OsvRangeText(range)
    case None => Unknown
    case Some(text) => EventsVerdict(text, v)
  }

  function OsvVerdictOf(v: Version): string -> Applicability {
    range => OsvRangeVerdict(range, v)
  }

  function OsvVerdicts(ranges: seq<string>, v: Version): seq<Applicability> {
    Verdicts(ranges, OsvVerdictOf(v))
  }

  /** All ranges of an advisory, joined by `; `. */
  function OsvVerdict(affectedRange: string, v: Version): Applicability {
    MaxOf(OsvVerdicts(Split(affectedRange, "; "), v))
  }

  method EvaluateOsvRange(range: string, version: Version) returns (verdict: Applicability)
    ensures verdict == OsvRangeVerdict(range, version)
  {
    var text := OsvRangeText(range);
    if text.None? {
      return Unknown;
    }
    var events := ParseOsvEvents(Clauses(text.value));
    if events.None? {
      return Unknown;
    }
    var affects := OsvRangeAffects(events.value, version);
    return if affects then Affected else NotAffected;
  }

  method OsvApplicability(affectedRange: string, version: Version) returns (a: Applicability)
    ensures a == OsvVerdict(affectedRange, version)
  {
    var unknown := false;
    var ranges := Split(affectedRange, "; ");
    ghost var verdicts := OsvVerdicts(ranges, version);
    for i := 0 to |ranges|
      invariant MaxOf(verdicts[..i]) == if unknown then Unknown else NotAffected
    {
      MaxOfStep(verdicts, i);
      var verdict := EvaluateOsvRange(ranges[i], version);
      assert verdicts[i] == verdict;
      match verdict {
        case Affected => return Affected;
        case NotAffected =>
        case Unknown => unknown := true;
      }
    }
    assert verdicts[..|ranges|] == verdicts;
    return if unknown then Unknown else NotAffected;
  }

  /** One more verdict raises the join to its own level; `Affected` settles it. */
  lemma MaxOfStep(verdicts: seq<Applicability>, i: nat)
    requires i < |verdicts|
    ensures MaxOf(verdicts[..i + 1]) == Max(MaxOf(verdicts[..i]), verdicts[i])
    ensures verdicts[i] == Affected ==> MaxOf(verdicts) == Affected
  {
    assert verdicts[..i + 1] == verdicts[..i] + [verdicts[i]];
    MaxOfConcat(verdicts[..i], [verdicts[i]]);
    MaxOfIsLeastUpperBound(verdicts, MaxOf(verdicts));
  }

  /** Adding ranges joins verdicts, so an added range never lowers the verdict. */
  lemma OsvVerdictIsAJoin(a: string, b: string, v: Version)
    ensures OsvVerdict(a + "; " + b, v) == Max(OsvVerdict(a, v), OsvVerdict(b, v))
    ensures Rank(OsvVerdict(a, v)) <= Rank(OsvVerdict(a + "; " + b, v))
  {
    ShortSeparatorsAreSeamless(LastPiece(a, "; "), "; ");
    SplitOfJoin(a, b, "; ");
    OsvVerdictsConcat(Split(a, "; "), Split(b, "; "), v);
  }

  lemma OsvVerdictsConcat(a: seq<string>, b: seq<string>, v: Version)
    ensures MaxOf(OsvVerdicts(a + b, v)) == Max(MaxOf(OsvVerdicts(a, v)), MaxOf(OsvVerdicts(b, v)))
  {
    VerdictsConcat(a, b, OsvVerdictOf(v));
  }

  /** Each range contributes the verdict it has on its own. */
  lemma OsvPieceVerdict(affectedRange: string, v: Version, k: nat)
    requires k < |Split(affectedRange, "; ")|
    ensures OsvVerdict(Split(affectedRange, "; ")[k], v) == OsvRangeVerdict(Split(affectedRange, "; ")[k], v)
  {
    PiecesAreAtoms(affectedRange, "; ", k);
    var piece := Split(affectedRange, "; ")[k];
    var verdicts := OsvVerdicts([piece], v);
    assert verdicts[0] == OsvRangeVerdict(piece, v) && verdicts[1..] == [];
    assert MaxOf(verdicts) == verdicts[0];
  }

  // ---------------------------------------------------------------- GHSA

  datatype Operator = AtLeast | AtMost | Above | Below | Exactly

  datatype Comparator = Comparator(operator: Operator, bound: Version)

  /** The operators are tried in this order, so `>=` is never read as `>`. */
  function ParseOperator(text: string): Option<(Operator, string)> {
    if StartsWith(text, ">=") then Some((AtLeast, text[2..]))
    else if StartsWith(text, "<=") then Some((AtMost, text[2..]))
    else if StartsWith(text, ">") then Some((Above, text[1..]))
    else if StartsWith(text, "<") then Some((Below, text[1..]))
    else if StartsWith(text, "=") then Some((Exactly, text[1..]))
    else None
  }

  function ParseComparator(text: string): Option<Comparator> {
    match ParseOperator(Trim(text))
    case None => None
    case Some((operator, rest)) =>
      match ParseForMatching(Trim(rest))
      case None => None
      case Some(bound) => Some(Comparator(operator, bound))
  }

  predicate Satisfies(v: Version, c: Comparator) {
    match c.operator
    case AtLeast => Leq(c.bound, v)
    case AtMost => Leq(v, c.bound)
    case Above => Lt(c.bound, v)
    case Below => Lt(v, c.bound)
    case Exactly => v == c.bound
  }

  function ParseComparators(parts: seq<string>): seq<Option<Comparator>> {
    seq(|parts|, i requires 0 <= i < |parts| => ParseComparator(parts[i]))
  }

  /** One alternative: unknown if any comparator is malformed, otherwise affected
      exactly when the version satisfies them all. */
  function ComparatorsVerdict(comparators: seq<Option<Comparator>>, v: Version): Applicability {
    if None in comparators then Unknown
    else if forall c | c in comparators :: c.Some? ==> Satisfies(v, c.value) then Affected
    else NotAffected
  }

  function AlternativeVerdict(alternative: string, v: Version): Applicability {
    ComparatorsVerdict(ParseComparators(Split(alternative, ",")), v)
  }

  function GhsaVerdictOf(v: Version): string -> Applicability {
    alternative => AlternativeVerdict(alternative, v)
  }

  function GhsaVerdicts(alternatives: seq<string>, v: Version): seq<Applicability> {
    Verdicts(alternatives, GhsaVerdictOf(v))
  }

  /** All alternatives, joined by ` || `. */
  function GhsaVerdict(ranges: string, v: Version): Applicability {
    MaxOf(GhsaVerdicts(Split(ranges, " || "), v))
  }

  method EvaluateAlternative(comparators: seq<Option<Comparator>>, version: Version)
    returns (valid: bool, matches: bool)
    ensures ComparatorsVerdict(comparators, version)
         == if !valid then Unknown else if matches then Affected else NotAffected
  {
    valid, matches := true, true;
    for j := 0 to |comparators|
      invariant valid <==> None !in comparators[..j]
      invariant matches <==> forall c | c in comparators[..j] :: c.Some? ==> Satisfies(version, c.value)
    {
      assert comparators[..j + 1] == comparators[..j] + [comparators[j]];
      match comparators[j] {
        case None => valid := false;
        case Some(c) => matches := matches && Satisfies(version, c);
      }
    }
    assert comparators[..|comparators|] == comparators;
  }

  method GhsaApplicability(ranges: string, version: Version) returns (a: Applicability)
    ensures a == GhsaVerdict(ranges, version)
  {
    var unknown := false;
    var alternatives := Split(ranges, " || ");
    ghost var verdicts := GhsaVerdicts(alternatives, version);
    for i := 0 to |alternatives|
      invariant MaxOf(verdicts[..i]) == if unknown then Unknown else NotAffected
    {
      MaxOfStep(verdicts, i);
      var valid, matches := EvaluateAlternative(ParseComparators(Split(alternatives[i], ",")), version);
      assert verdicts[i] == AlternativeVerdict(alternatives[i], version);
      if valid && matches {
        return Affected;
      }
      unknown := unknown || !valid;
    }
    assert verdicts[..|alternatives|] == verdicts;
    return if unknown then Unknown else NotAffected;
  }

  /** Each alternative contributes the verdict it has on its own. */
  lemma GhsaPieceVerdict(ranges: string, v: Version, k: nat)
    requires k < |Split(ranges, " || ")|
    ensures GhsaVerdict(Split(ranges, " || ")[k], v) == AlternativeVerdict(Split(ranges, " || ")[k], v)
  {
    PiecesAreAtoms(ranges, " || ", k);
    var piece := Split(ranges, " || ")[k];
    var verdicts := GhsaVerdicts([piece], v);
    assert verdicts[0] == AlternativeVerdict(piece, v) && verdicts[1..] == [];
    assert MaxOf(verdicts) == verdicts[0];
  }

  // ---------------------------------------------------------------- choice of format

  predicate IsWithdrawn(affectedRange: string) {
    var clauses := Split(affectedRange, "; ");
    exists i :: 0 <= i < |clauses| && StartsWith(clauses[i], "withdrawn=")
  }

  /** `rustsec` is the verdict that the RustSec library gives for its own format. */
  function RangeApplicability(rustsec: (string, Version) -> Applicability,
                              source: string, affectedRange: string, version: string): Applicability
  {
    if IsWithdrawn(affectedRange) then NotAffected
    else
      match ParseForMatching(version)
      case None => Unknown
      case Some(v) =>
        if Contains(affectedRange, "SEMVER(") || Contains(affectedRange, "ECOSYSTEM(") then
          OsvVerdict(affectedRange, v)
        else if source == "rustsec_db" || Contains(affectedRange, "patched=")
                || Contains(affectedRange, "unaffected=") || Contains(affectedRange, "withdrawn=") then
          rustsec(affectedRange, v)
        else if source == "ghsa" then GhsaVerdict(affectedRange, v)
        else Unknown
  }

  /** A text joined to another is withdrawn exactly when one of the two is. */
  lemma WithdrawalOfJoin(a: string, b: string)
    ensures IsWithdrawn(a + "; " + b) <==> IsWithdrawn(a) || IsWithdrawn(b)
  {
    var pa, pb := Split(a, "; "), Split(b, "; ");
    ShortSeparatorsAreSeamless(LastPiece(a, "; "), "; ");
    SplitOfJoin(a, b, "; ");
    SomeWithdrawnOfConcat(pa, pb);
  }

  ghost predicate SomeWithdrawn(clauses: seq<string>) {
    exists i :: 0 <= i < |clauses| && StartsWith(clauses[i], "withdrawn=")
  }

  lemma SomeWithdrawnOfConcat(a: seq<string>, b: seq<string>)
    ensures SomeWithdrawn(a + b) <==> SomeWithdrawn(a) || SomeWithdrawn(b)
  {
    assert forall i :: 0 <= i < |a| ==> (a + b)[i] == a[i];
    assert forall i :: 0 <= i < |b| ==> (a + b)[|a| + i] == b[i];
  }

  lemma ContainedInLonger(a: string, rest: string, sep: string)
    requires Contains(a, sep)
    ensures Contains(a + rest, sep)
  {
    var i := Find(a, sep).value;
    assert (a + rest)[i..i + |sep|] == a[i..i + |sep|];
    assert OccursAt(a + rest, sep, i);
  }

  /** Appending clauses to a stored OSV text: one that records a withdrawal clears the
      verdict, any other never lowers it. */
  lemma AppendedClausesOnlyRaise(rustsec: (string, Version) -> Applicability, source: string, a: string, b: string,
                                 version: string)
    requires Contains(a, "SEMVER(") || Contains(a, "ECOSYSTEM(")
    ensures IsWithdrawn(b) ==> RangeApplicability(rustsec, source, a + "; " + b, version) == NotAffected
    ensures !IsWithdrawn(b) ==>
              Rank(RangeApplicability(rustsec, source, a, version))
              <= Rank(RangeApplicability(rustsec, source, a + "; " + b, version))
  {
    WithdrawalOfJoin(a, b);
    if Contains(a, "SEMVER(") {
      ContainedInLonger(a, "; " + b, "SEMVER(");
    } else {
      ContainedInLonger(a, "; " + b, "ECOSYSTEM(");
    }
    assert a + ("; " + b) == a + "; " + b;
    if ParseForMatching(version).Some? {
      OsvVerdictIsAJoin(a, b, ParseForMatching(version).value);
    }
  }
}
