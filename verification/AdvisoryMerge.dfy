/**
 Merging the stored rows of one crate into one verdict per advisory ID for one of
 its versions.
 */
module AdvisoryMerge {
  import opened Options
  import opened SemVer
  import opened Sorting
  import opened AdvisoryRanges

  /** A stored row. `other` stands for the columns that the merge never looks at. */
  datatype Row = Row(advisoryId: string, source: string, affectedRange: string, versionId: Option<int>,
                     requiresResync: bool, other: string)

  datatype VersionAdvisory = VersionAdvisory(applicability: Applicability, row: Row)

  /** The version asked about: its row id, the verdict that a stored range of a given
      source has for it, and which range texts record a withdrawal. */
  datatype Query = Query(versionId: int, range: (string, string) -> Applicability, withdrawn: string -> bool) {
    predicate Explicit(row: Row) {
      row.versionId == Some(versionId)
    }

    function Verdict(row: Row): Applicability {
      if row.requiresResync then Unknown
      else if Explicit(row) then Affected
      else range(row.source, row.affectedRange)
    }

    /** A withdrawal that is trusted suppresses every record of its ID. */
    predicate Withdraws(row: Row) {
      !row.requiresResync && withdrawn(row.affectedRange)
    }

    /** (is affected, is an explicit match), compared lexicographically. */
    function Priority(row: Row): nat {
      (if Verdict(row) == Affected then 2 else 0) + (if Explicit(row) then 1 else 0)
    }
  }

  function QueryFor(rustsec: (string, Version) -> Applicability, versionId: int, version: string): Query {
    Query(versionId, (source, affectedRange) => RangeApplicability(rustsec, source, affectedRange, version),
          affectedRange => IsWithdrawn(affectedRange))
  }

  // ---------------------------------------------------------------- orders

  function CompareVersionId(a: Option<int>, b: Option<int>): Ordering {
    match (a, b)
    case (None, None) => Equal
    case (None, Some(_)) => Less
    case (Some(_), None) => Greater
    case (Some(x), Some(y)) => if x < y then Less else if x > y then Greater else Equal
  }

  function CompareKey(a: Row, b: Row): Ordering {
    CompareString(a.source, b.source)
    .Then(CompareString(a.affectedRange, b.affectedRange))
    .Then(CompareVersionId(a.versionId, b.versionId))
  }

  predicate KeyLeq(a: Row, b: Row) {
    !CompareKey(a, b).Greater?
  }

  predicate StringLt(a: string, b: string) {
    CompareString(a, b).Less?
  }

  lemma StringOrder(a: string, b: string, c: string)
    ensures StringLt(a, b) || a == b || StringLt(b, a)
    ensures !StringLt(a, a)
    ensures StringLt(a, b) && StringLt(b, c) ==> StringLt(a, c)
  {
    StringsCompare(a, b);
    StringsCompare(a, a);
    if StringLt(a, b) && StringLt(b, c) {
      StringsAreTransitive(a, b, c);
    }
  }

  lemma KeysCompare(a: Row, b: Row)
    ensures CompareKey(b, a) == CompareKey(a, b).Flip()
    ensures CompareKey(a, b).Equal?
       <==> a.source == b.source && a.affectedRange == b.affectedRange && a.versionId == b.versionId
  {
    StringsCompare(a.source, b.source);
    StringsCompare(a.affectedRange, b.affectedRange);
  }

  lemma KeysAreTransitive(a: Row, b: Row, c: Row)
    requires KeyLeq(a, b) && KeyLeq(b, c)
    ensures KeyLeq(a, c)
  {
    StringsCompare(a.source, b.source);
    StringsCompare(b.source, c.source);
    StringsCompare(a.affectedRange, b.affectedRange);
    StringsCompare(b.affectedRange, c.affectedRange);
    StringOrder(a.source, b.source, c.source);
    StringOrder(a.affectedRange, b.affectedRange, c.affectedRange);
  }

  lemma KeyOrderIsTotal()
    ensures TotalPreorder(KeyLeq)
  {
    forall a: Row, b: Row ensures KeyLeq(a, b) || KeyLeq(b, a) {
      KeysCompare(a, b);
    }
    forall a: Row, b: Row, c: Row | KeyLeq(a, b) && KeyLeq(b, c) ensures KeyLeq(a, c) {
      KeysAreTransitive(a, b, c);
    }
  }

  // ---------------------------------------------------------------- what the answer is

  ghost predicate Suppressed(rows: seq<Row>, q: Query, id: string) {
    exists row :: row in rows && row.advisoryId == id && q.Withdraws(row)
  }

  /** `row` speaks for or leaves open that `id` affects the version. */
  ghost predicate Counts(rows: seq<Row>, q: Query, id: string, row: Row) {
    row in rows && row.advisoryId == id && q.Verdict(row) != NotAffected
  }

  ghost predicate Reported(rows: seq<Row>, q: Query, id: string) {
    !Suppressed(rows, q, id) && exists row :: Counts(rows, q, id, row)
  }

  /** The least row in sort order among those of greatest priority. */
  ghost predicate IsRepresentative(rows: seq<Row>, q: Query, id: string, row: Row) {
    && Counts(rows, q, id, row)
    && forall other :: Counts(rows, q, id, other) ==>
         q.Priority(other) < q.Priority(row) || (q.Priority(other) == q.Priority(row) && KeyLeq(row, other))
  }

  ghost predicate Ascending(list: seq<VersionAdvisory>) {
    forall i, j :: 0 <= i < j < |list| ==> StringLt(list[i].row.advisoryId, list[j].row.advisoryId)
  }

  ghost predicate Mentions(list: seq<VersionAdvisory>, id: string) {
    exists i :: 0 <= i < |list| && list[i].row.advisoryId == id
  }

  /** One entry, in ID order, for each reported ID, carrying its representative and
      that row's verdict. The order of `rows` plays no part. */
  ghost predicate IsAnswer(rows: seq<Row>, q: Query, list: seq<VersionAdvisory>) {
    && Ascending(list)
    && (forall id :: Mentions(list, id) <==> Reported(rows, q, id))
    && (forall i :: 0 <= i < |list| ==>
          && IsRepresentative(rows, q, list[i].row.advisoryId, list[i].row)
          && list[i].applicability == q.Verdict(list[i].row))
  }

  /** Affected evidence wins over unknown, and unknown over not affected. */
  lemma AnswerIsTheMaximum(rows: seq<Row>, q: Query, list: seq<VersionAdvisory>, i: nat, row: Row)
    requires IsAnswer(rows, q, list) && i < |list|
    requires row in rows && row.advisoryId == list[i].row.advisoryId
    ensures Rank(q.Verdict(row)) <= Rank(list[i].applicability)
  {
    if q.Verdict(row) != NotAffected {
      assert Counts(rows, q, list[i].row.advisoryId, row);
    }
  }

  datatype Summary = Summary(id: string, applicability: Applicability, source: string, affectedRange: string,
                             versionId: Option<int>)

  function SummaryOf(a: VersionAdvisory): Summary {
    Summary(a.row.advisoryId, a.applicability, a.row.source, a.row.affectedRange, a.row.versionId)
  }

  function Summaries(list: seq<VersionAdvisory>): seq<Summary> {
    seq(|list|, i requires 0 <= i < |list| => SummaryOf(list[i]))
  }

  lemma RepresentativesAgree(rows: seq<Row>, rows': seq<Row>, q: Query, a: VersionAdvisory, b: VersionAdvisory)
    requires forall row :: row in rows <==> row in rows'
    requires a.row.advisoryId == b.row.advisoryId
    requires IsRepresentative(rows, q, a.row.advisoryId, a.row) && a.applicability == q.Verdict(a.row)
    requires IsRepresentative(rows', q, b.row.advisoryId, b.row) && b.applicability == q.Verdict(b.row)
    ensures SummaryOf(a) == SummaryOf(b)
  {
    assert Counts(rows, q, a.row.advisoryId, b.row) && Counts(rows', q, b.row.advisoryId, a.row);
    KeysCompare(a.row, b.row);
  }

  lemma {:induction false} AscendingIdsAgree(a: seq<VersionAdvisory>, b: seq<VersionAdvisory>, k: nat)
    requires Ascending(a) && Ascending(b) && k <= |a|
    requires forall id :: Mentions(a, id) <==> Mentions(b, id)
    ensures k <= |b| && forall i :: 0 <= i < k ==> a[i].row.advisoryId == b[i].row.advisoryId
  {
    if k > 0 {
      AscendingIdsAgree(a, b, k - 1);
      var id := a[k - 1].row.advisoryId;
      assert Mentions(a, id);
      var j :| 0 <= j < |b| && b[j].row.advisoryId == id;
      StringOrder(id, id, id);
      assert j >= k - 1;
      var id' := b[k - 1].row.advisoryId;
      assert Mentions(b, id');
      var i :| 0 <= i < |a| && a[i].row.advisoryId == id';
      StringOrder(id', id, id');
      StringOrder(id, id', id);
      assert i >= k - 1;
      assert j > k - 1 ==> StringLt(id', id);
      assert i > k - 1 ==> StringLt(id, id');
    }
  }

  /** Reordering or repeating the rows does not change what is reported: same IDs,
      verdicts, sources, ranges and version ids, in the same order. */
  lemma AnswerIgnoresRowOrder(rows: seq<Row>, rows': seq<Row>, q: Query,
                              a: seq<VersionAdvisory>, b: seq<VersionAdvisory>)
    requires forall row :: row in rows <==> row in rows'
    requires IsAnswer(rows, q, a) && IsAnswer(rows', q, b)
    ensures Summaries(a) == Summaries(b)
  {
    forall id ensures Mentions(a, id) <==> Mentions(b, id) {
      assert Reported(rows, q, id) <==> Reported(rows', q, id) by {
        assert forall row :: Counts(rows, q, id, row) <==> Counts(rows', q, id, row);
      }
    }
    AscendingIdsAgree(a, b, |a|);
    AscendingIdsAgree(b, a, |b|);
    forall i | 0 <= i < |a| ensures SummaryOf(a[i]) == SummaryOf(b[i]) {
      RepresentativesAgree(rows, rows', q, a[i], b[i]);
    }
  }

  // ---------------------------------------------------------------- grouping by ID

  ghost predicate AscendingIds(ids: seq<string>) {
    forall i, j :: 0 <= i < j < |ids| ==> StringLt(ids[i], ids[j])
  }

  function InsertId(ids: seq<string>, id: string): seq<string> {
    if ids == [] || StringLt(id, ids[0]) then [id] + ids
    else if ids[0] == id then ids
    else [ids[0]] + InsertId(ids[1..], id)
  }

  lemma {:induction false} InsertIdInserts(ids: seq<string>, id: string)
    requires AscendingIds(ids)
    ensures AscendingIds(InsertId(ids, id))
    ensures forall x :: x in InsertId(ids, id) <==> x in ids || x == id
  {
    var ids' := InsertId(ids, id);
    if ids == [] || StringLt(id, ids[0]) {
      forall j | 0 < j < |ids'| ensures StringLt(id, ids'[j]) {
        StringOrder(id, ids[0], ids[j - 1]);
      }
    } else if ids[0] != id {
      InsertIdInserts(ids[1..], id);
      StringOrder(id, ids[0], id);
      var tail := InsertId(ids[1..], id);
      forall j | 0 <= j < |tail| ensures StringLt(ids[0], tail[j]) {
        assert tail[j] in tail;
      }
      assert ids == [ids[0]] + ids[1..];
    }
  }

  lemma AscendingIdsAreDistinct(ids: seq<string>)
    requires AscendingIds(ids)
    ensures forall i, j :: 0 <= i < j < |ids| ==> ids[i] != ids[j]
  {
    forall i, j | 0 <= i < j < |ids| ensures ids[i] != ids[j] {
      StringOrder(ids[i], ids[i], ids[i]);
    }
  }

  ghost predicate Grouped(byId: map<string, seq<Row>>, rows: seq<Row>) {
    && (forall row :: row in rows ==> row.advisoryId in byId && row in byId[row.advisoryId])
    && (forall id :: id in byId ==> forall row :: row in byId[id] ==> row in rows && row.advisoryId == id)
  }

  /** The rows of each ID, and the IDs in ascending order: an ordered map. */
  method GroupById(rows: seq<Row>) returns (byId: map<string, seq<Row>>, ids: seq<string>)
    ensures Grouped(byId, rows)
    ensures AscendingIds(ids) && forall id :: id in ids <==> id in byId
  {
    byId, ids := map[], [];
    for i := 0 to |rows|
      invariant Grouped(byId, rows[..i])
      invariant AscendingIds(ids) && forall id :: id in ids <==> id in byId
    {
      var row := rows[i];
      assert rows[..i + 1] == rows[..i] + [row];
      var group := if row.advisoryId in byId then byId[row.advisoryId] else [];
      byId := byId[row.advisoryId := group + [row]];
      InsertIdInserts(ids, row.advisoryId);
      ids := InsertId(ids, row.advisoryId);
    }
    assert rows[..|rows|] == rows;
  }

  // ---------------------------------------------------------------- the merge

  /** What has been selected among the rows looked at so far. */
  ghost predicate SelectedSoFar(rows: seq<Row>, q: Query, id: string, selected: Option<VersionAdvisory>) {
    match selected
    case None => forall row :: !Counts(rows, q, id, row)
    case Some(a) => IsRepresentative(rows, q, id, a.row) && a.applicability == q.Verdict(a.row)
  }

  lemma SelectionStep(before: seq<Row>, row: Row, q: Query, id: string, selected: Option<VersionAdvisory>)
    requires row.advisoryId == id
    requires forall other :: other in before ==> KeyLeq(other, row)
    requires SelectedSoFar(before, q, id, selected)
    ensures SelectedSoFar(before + [row], q, id,
              if q.Verdict(row) == NotAffected then selected
              else if selected.None? || q.Priority(row) > q.Priority(selected.value.row)
              then Some(VersionAdvisory(q.Verdict(row), row))
              else selected)
  {
    KeysCompare(row, row);
    assert forall other :: Counts(before + [row], q, id, other) <==>
             Counts(before, q, id, other) || (other == row && q.Verdict(row) != NotAffected);
  }

  /** Selects among the rows of one ID: the first of greatest priority in sort
      order, unless the ID is withdrawn. */
  method SelectAdvisory(id: string, rows: seq<Row>, q: Query) returns (selected: Option<VersionAdvisory>)
    requires forall row :: row in rows ==> row.advisoryId == id
    ensures selected.Some? <==> Reported(rows, q, id)
    ensures selected.Some? ==> SelectedSoFar(rows, q, id, selected)
  {
    var sorted := Sort(rows, KeyLeq);
    KeyOrderIsTotal();
    SortSorts(rows, KeyLeq);
    SameElements(sorted, rows);
    if row :| row in sorted && q.Withdraws(row) {
      assert row in rows;
      return None;
    }
    selected := None;
    for i := 0 to |sorted|
      invariant SelectedSoFar(sorted[..i], q, id, selected)
    {
      var row := sorted[i];
      assert row in sorted && sorted[..i + 1] == sorted[..i] + [row];
      SelectionStep(sorted[..i], row, q, id, selected);
      var applicability := q.Verdict(row);
      if applicability == NotAffected {
        continue;
      }
      if selected.None? || q.Priority(row) > q.Priority(selected.value.row) {
        selected := Some(VersionAdvisory(applicability, row));
      }
    }
    assert sorted[..|sorted|] == sorted;
    SelectionIgnoresOrder(sorted, rows, q, id, selected);
  }

  lemma SelectionIgnoresOrder(sorted: seq<Row>, rows: seq<Row>, q: Query, id: string, selected: Option<VersionAdvisory>)
    requires forall row :: row in sorted <==> row in rows
    ensures SelectedSoFar(sorted, q, id, selected) <==> SelectedSoFar(rows, q, id, selected)
    ensures Reported(sorted, q, id) <==> Reported(rows, q, id)
  {
    assert forall row :: Counts(sorted, q, id, row) <==> Counts(rows, q, id, row);
  }

  /** The answer restricted to some of the IDs. */
  ghost predicate IsPartialAnswer(rows: seq<Row>, q: Query, ids: seq<string>, list: seq<VersionAdvisory>) {
    && Ascending(list)
    && (forall i :: 0 <= i < |list| ==>
          && list[i].row.advisoryId in ids
          && SelectedSoFar(rows, q, list[i].row.advisoryId, Some(list[i])))
    && (forall id :: Mentions(list, id) <==> id in ids && Reported(rows, q, id))
  }

  lemma GroupHoldsItsRows(rows: seq<Row>, q: Query, byId: map<string, seq<Row>>, id: string)
    requires Grouped(byId, rows) && id in byId
    ensures Reported(byId[id], q, id) <==> Reported(rows, q, id)
    ensures forall a :: SelectedSoFar(byId[id], q, id, a) <==> SelectedSoFar(rows, q, id, a)
  {
    assert forall row :: Counts(byId[id], q, id, row) <==> Counts(rows, q, id, row);
  }

  lemma PartialAnswerGrows(rows: seq<Row>, q: Query, ids: seq<string>, id: string,
                           list: seq<VersionAdvisory>, selected: Option<VersionAdvisory>)
    requires forall x :: x in ids ==> StringLt(x, id)
    requires IsPartialAnswer(rows, q, ids, list)
    requires selected.Some? <==> Reported(rows, q, id)
    requires selected.Some? ==> SelectedSoFar(rows, q, id, selected)
    ensures IsPartialAnswer(rows, q, ids + [id], if selected.Some? then list + [selected.value] else list)
  {
    if selected.Some? {
      var list' := list + [selected.value];
      forall x ensures Mentions(list', x) <==> Mentions(list, x) || x == id {
        if Mentions(list, x) {
          var k :| 0 <= k < |list| && list[k].row.advisoryId == x;
          assert list'[k].row.advisoryId == x;
        }
        assert list'[|list|].row.advisoryId == id;
      }
    }
  }

  method AdvisoriesForQuery(rows: seq<Row>, q: Query) returns (list: seq<VersionAdvisory>)
    ensures IsAnswer(rows, q, list)
  {
    var byId, ids := GroupById(rows);
    AscendingIdsAreDistinct(ids);
    list := [];
    for i := 0 to |ids|
      invariant IsPartialAnswer(rows, q, ids[..i], list)
    {
      var id := ids[i];
      assert id in ids && ids[..i + 1] == ids[..i] + [id];
      GroupHoldsItsRows(rows, q, byId, id);
      var selected := SelectAdvisory(id, byId[id], q);
      PartialAnswerGrows(rows, q, ids[..i], id, list, selected);
      if selected.Some? {
        list := list + [selected.value];
      }
    }
    assert ids[..|ids|] == ids;
    assert forall id :: Reported(rows, q, id) ==> id in ids;
  }

  method AdvisoriesForVersion(rows: seq<Row>, versionId: int, version: string,
                              rustsec: (string, Version) -> Applicability)
    returns (list: seq<VersionAdvisory>)
    ensures IsAnswer(rows, QueryFor(rustsec, versionId, version), list)
  {
    list := AdvisoriesForQuery(rows, QueryFor(rustsec, versionId, version));
  }

  // ---------------------------------------------------------------- counts

  ghost predicate HasVerdict(rows: seq<Row>, q: Query, id: string, verdict: Applicability) {
    exists row :: row in rows && row.advisoryId == id && q.Verdict(row) == verdict
  }

  /** IDs that are not withdrawn and that some row says affect the version. */
  ghost function AffectedIds(rows: seq<Row>, q: Query): set<string> {
    set row | row in rows && !Suppressed(rows, q, row.advisoryId) && HasVerdict(rows, q, row.advisoryId, Affected)
      :: row.advisoryId
  }

  /** IDs that are not withdrawn, that no row says affect the version, and that some
      row leaves open. */
  ghost function UnknownIds(rows: seq<Row>, q: Query): set<string> {
    set row | row in rows && !Suppressed(rows, q, row.advisoryId) && !HasVerdict(rows, q, row.advisoryId, Affected)
              && HasVerdict(rows, q, row.advisoryId, Unknown)
      :: row.advisoryId
  }

  ghost function IdsWith(list: seq<VersionAdvisory>, verdict: Applicability): set<string> {
    set i | 0 <= i < |list| && list[i].applicability == verdict :: list[i].row.advisoryId
  }

  lemma AnswerVerdicts(rows: seq<Row>, q: Query, list: seq<VersionAdvisory>)
    requires IsAnswer(rows, q, list)
    ensures IdsWith(list, Affected) == AffectedIds(rows, q)
    ensures IdsWith(list, Unknown) == UnknownIds(rows, q)
  {
    forall i | 0 <= i < |list|
      ensures list[i].applicability == Affected ==> list[i].row.advisoryId in AffectedIds(rows, q)
      ensures list[i].applicability == Unknown ==> list[i].row.advisoryId in UnknownIds(rows, q)
    {
      assert Mentions(list, list[i].row.advisoryId);
      if list[i].applicability == Unknown && HasVerdict(rows, q, list[i].row.advisoryId, Affected) {
        var row :| row in rows && row.advisoryId == list[i].row.advisoryId && q.Verdict(row) == Affected;
        AnswerIsTheMaximum(rows, q, list, i, row);
      }
    }
    forall id | id in AffectedIds(rows, q) ensures id in IdsWith(list, Affected) {
      var row :| row in rows && row.advisoryId == id && q.Verdict(row) == Affected;
      assert Counts(rows, q, id, row) && Mentions(list, id);
      var i :| 0 <= i < |list| && list[i].row.advisoryId == id;
      AnswerIsTheMaximum(rows, q, list, i, row);
    }
    forall id | id in UnknownIds(rows, q) ensures id in IdsWith(list, Unknown) {
      var row :| row in rows && row.advisoryId == id && q.Verdict(row) == Unknown;
      assert Counts(rows, q, id, row) && Mentions(list, id);
      var i :| 0 <= i < |list| && list[i].row.advisoryId == id;
      AnswerIsTheMaximum(rows, q, list, i, row);
    }
  }

  /** The counts are the numbers of distinct affected and undetermined IDs. */
  method AdvisoryCounts(rows: seq<Row>, q: Query) returns (affected: nat, unknown: nat)
    ensures affected == |AffectedIds(rows, q)|
    ensures unknown == |UnknownIds(rows, q)|
  {
    var list := AdvisoriesForQuery(rows, q);
    affected, unknown := 0, 0;
    for i := 0 to |list|
      invariant affected == |IdsWith(list[..i], Affected)| && unknown == |IdsWith(list[..i], Unknown)|
    {
      IdsGrow(list, i, Affected);
      IdsGrow(list, i, Unknown);
      match list[i].applicability {
        case Affected => affected := affected + 1;
        case Unknown => unknown := unknown + 1;
        case NotAffected =>
      }
    }
    assert list[..|list|] == list;
    AnswerVerdicts(rows, q, list);
  }

  lemma IdsGrow(list: seq<VersionAdvisory>, i: nat, verdict: Applicability)
    requires Ascending(list) && i < |list|
    ensures |IdsWith(list[..i + 1], verdict)|
         == |IdsWith(list[..i], verdict)| + if list[i].applicability == verdict then 1 else 0
  {
    var id := list[i].row.advisoryId;
    var ids, ids' := IdsWith(list[..i], verdict), IdsWith(list[..i + 1], verdict);
    StringOrder(id, id, id);
    assert forall k :: 0 <= k < i ==> list[k].row.advisoryId != id;
    assert id !in ids;
    forall x ensures x in ids' <==> x in ids || (x == id && list[i].applicability == verdict) {
      IdsWithMember(list, i, verdict, x);
    }
    assert ids' == if list[i].applicability == verdict then ids + {id} else ids;
  }

  lemma IdsWithMember(list: seq<VersionAdvisory>, i: nat, verdict: Applicability, x: string)
    requires i < |list|
    ensures x in IdsWith(list[..i + 1], verdict)
       <==> x in IdsWith(list[..i], verdict) || (x == list[i].row.advisoryId && list[i].applicability == verdict)
  {
    var a, b := list[..i], list[..i + 1];
    assert b == a + [list[i]];
    if x in IdsWith(a, verdict) {
      var k :| 0 <= k < |a| && a[k].applicability == verdict && a[k].row.advisoryId == x;
      assert b[k] == a[k];
    }
    if x in IdsWith(b, verdict) {
      var k :| 0 <= k < |b| && b[k].applicability == verdict && b[k].row.advisoryId == x;
      assert k < i ==> a[k] == b[k];
    }
    assert b[i] == list[i];
  }

  /** Every entry is counted once, as affected or as unknown. */
  lemma CountsCoverTheAnswer(rows: seq<Row>, q: Query, list: seq<VersionAdvisory>)
    requires IsAnswer(rows, q, list)
    ensures |AffectedIds(rows, q)| + |UnknownIds(rows, q)| == |list|
  {
    AnswerVerdicts(rows, q, list);
    CountsCoverPrefix(list, |list|);
    assert list[..|list|] == list;
  }

  lemma {:induction false} CountsCoverPrefix(list: seq<VersionAdvisory>, k: nat)
    requires Ascending(list) && k <= |list|
    requires forall i :: 0 <= i < |list| ==> list[i].applicability != NotAffected
    ensures |IdsWith(list[..k], Affected)| + |IdsWith(list[..k], Unknown)| == k
  {
    if k > 0 {
      CountsCoverPrefix(list, k - 1);
      IdsGrow(list, k - 1, Affected);
      IdsGrow(list, k - 1, Unknown);
    }
  }
}
