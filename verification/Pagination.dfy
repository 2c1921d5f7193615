/**
 Cursor and page-number pagination over a fixed, ordered result set. Offsets, limits
 and page numbers are 32-bit; arithmetic that the program does not saturate wraps
 around, as it does in a release build.
 */
module Pagination {
  import opened Options
  import opened Base64

  const U32_RANGE: nat := 0x1_0000_0000

  type U32 = n: int | 0 <= n < U32_RANGE

  /** A decoded cursor. `filters` stands for the query it belongs to. */
  datatype Token = Token(v: nat, offset: U32, limit: U32, filters: string)

  datatype Params = Params(offset: U32, limit: U32, effectivePage: U32)

  datatype Result<T> = Ok(value: T) | Err

  function SaturatingAdd(a: U32, b: U32): U32 {
    if a + b < U32_RANGE then a + b else U32_RANGE - 1
  }

  function WrappingMul(a: U32, b: U32): U32 {
    (a * b) % U32_RANGE
  }

  // ---------------------------------------------------------------- cursors as text

  /** The serialisation of tokens: any encoding of them as bytes. */
  datatype Codec = Codec(write: Token -> seq<Byte>, read: seq<Byte> -> Option<Token>) {
    ghost predicate Valid() {
      forall t: Token :: read(write(t)) == Some(t)
    }
  }

  function EncodeCursor(codec: Codec, t: Token): string {
    Encode(UrlSafeNoPad, codec.write(t))
  }

  function DecodeCursor(codec: Codec, text: string): Result<Token> {
    match Decode(UrlSafeNoPad, text)
    case None => Err
    case Some(bytes) =>
      match codec.read(bytes)
      case None => Err
      case Some(t) => if t.v != 1 || t.limit == 0 then Err else Ok(t)
  }

  /** A cursor is accepted back, unchanged, exactly when it has version 1 and a page
      size. */
  lemma CursorsRoundTrip(codec: Codec, t: Token)
    requires codec.Valid()
    ensures DecodeCursor(codec, EncodeCursor(codec, t)) == if t.v == 1 && t.limit > 0 then Ok(t) else Err
  {
    DecodeOfEncode(UrlSafeNoPad, codec.write(t));
  }

  // ---------------------------------------------------------------- resolution

  function PageOfOffset(offset: U32, limit: U32): U32
    requires limit > 0
  {
    SaturatingAdd(offset / limit, 1)
  }

  function Resolve(token: Option<Token>, explicitLimit: bool, requestedLimit: U32, page: U32): Result<Params>
    requires page >= 1 && (token.Some? ==> token.value.limit > 0)
  {
    match token
    case Some(t) =>
      if explicitLimit && requestedLimit != t.limit then Err
      else Ok(Params(t.offset, t.limit, PageOfOffset(t.offset, t.limit)))
    case None =>
      Ok(Params(WrappingMul(page - 1, requestedLimit), requestedLimit, page))
  }

  /** A cursor is refused if and only if a limit is given that differs from its own;
      otherwise it names the page, whether its own limit is repeated or not. */
  lemma CursorNamesThePage(t: Token, explicitLimit: bool, requestedLimit: U32, page: U32)
    requires page >= 1 && t.limit > 0
    ensures Resolve(Some(t), explicitLimit, requestedLimit, page) == Err <==> explicitLimit && requestedLimit != t.limit
    ensures !explicitLimit || requestedLimit == t.limit ==>
              && Resolve(Some(t), explicitLimit, requestedLimit, page).Ok?
              && Resolve(Some(t), explicitLimit, requestedLimit, page).value.offset == t.offset
              && Resolve(Some(t), explicitLimit, requestedLimit, page).value.limit == t.limit
  {
  }

  /** The page number of an offset is that of the page with this row, if it can be
      represented. */
  lemma PageHoldsTheOffset(offset: U32, limit: U32)
    requires limit > 0
    ensures var page := PageOfOffset(offset, limit);
            page >= 1 && (page - 1) * limit <= offset && (offset < page * limit || page == offset == U32_RANGE - 1)
  {
    var q := offset / limit;
    ProductOfSum(q, 1, limit);
    if q + 1 == U32_RANGE {
      ProductOfSum(q - 1, 1, limit);
    }
  }

  /** The rows that the database returns. */
  function Query<T>(rows: seq<T>, offset: nat, count: nat): seq<T> {
    if offset >= |rows| then []
    else if offset + count >= |rows| then rows[offset..]
    else rows[offset..offset + count]
  }

  datatype Page<T> = Page(items: seq<T>, hasMore: bool, nextCursor: Option<string>)

  /** Truncates to the page size and, when something was cut off, names where to go on. */
  method ApplyPaginationLimit<T>(codec: Codec, fetched: seq<T>, limit: U32, offset: U32, filters: string)
    returns (page: Page<T>)
    ensures page.hasMore <==> |fetched| > limit
    ensures page.items == if |fetched| > limit then fetched[..limit] else fetched
    ensures page.nextCursor
         == if page.hasMore then Some(EncodeCursor(codec, Token(1, SaturatingAdd(offset, limit), limit, filters))) else None
  {
    var items := fetched;
    var hasMore := |items| > limit;
    if hasMore {
      items := items[..limit];
    }
    var nextCursor := None;
    if hasMore {
      nextCursor := Some(EncodeCursor(codec, Token(1, SaturatingAdd(offset, limit), limit, filters)));
    }
    return Page(items, hasMore, nextCursor);
  }

  /** One page: a row more than its size is fetched to see whether anything follows. */
  method FetchPage<T>(codec: Codec, rows: seq<T>, p: Params, filters: string) returns (page: Page<T>)
    requires p.limit > 0 && |rows| < U32_RANGE
    ensures page.items == Query(rows, p.offset, p.limit)
    ensures page.hasMore <==> p.offset + p.limit < |rows|
    ensures page.nextCursor
         == if page.hasMore then Some(EncodeCursor(codec, Token(1, p.offset + p.limit, p.limit, filters))) else None
  {
    var fetched := Query(rows, p.offset, SaturatingAdd(p.limit, 1));
    page := ApplyPaginationLimit(codec, fetched, p.limit, p.offset, filters);
  }

  // ---------------------------------------------------------------- following cursors

  datatype Visit<T> = Visit(params: Params, items: seq<T>)

  /** `b` is the page that the cursor of `a` leads to. */
  ghost predicate Follows<T>(rows: seq<T>, a: Visit<T>, b: Visit<T>) {
    && a.params.offset + a.params.limit < |rows|
    && b.params.offset == a.params.offset + a.params.limit && b.params.limit == a.params.limit > 0
    && b.params.effectivePage == PageOfOffset(b.params.offset, b.params.limit)
  }

  ghost predicate VisitOk<T>(rows: seq<T>, first: Params, visits: seq<Visit<T>>, i: nat)
    requires i < |visits|
  {
    && visits[i].items == Query(rows, visits[i].params.offset, visits[i].params.limit)
    && if i == 0 then visits[i].params == first else Follows(rows, visits[i - 1], visits[i])
  }

  ghost predicate IsWalk<T>(rows: seq<T>, first: Params, visits: seq<Visit<T>>) {
    visits != [] && forall i :: 0 <= i < |visits| ==> VisitOk(rows, first, visits, i)
  }

  lemma WalkPrefix<T>(rows: seq<T>, first: Params, visits: seq<Visit<T>>, n: nat)
    requires IsWalk(rows, first, visits) && 0 < n <= |visits|
    ensures IsWalk(rows, first, visits[..n])
  {
    forall i | 0 <= i < n ensures VisitOk(rows, first, visits[..n], i) {
      assert VisitOk(rows, first, visits, i);
    }
  }

  lemma WalkExtends<T>(rows: seq<T>, first: Params, visits: seq<Visit<T>>, next: Visit<T>)
    requires IsWalk(rows, first, visits) && Follows(rows, visits[|visits| - 1], next)
    requires next.items == Query(rows, next.params.offset, next.params.limit)
    ensures IsWalk(rows, first, visits + [next])
  {
    forall i | 0 <= i < |visits| + 1 ensures VisitOk(rows, first, visits + [next], i) {
      assert i < |visits| ==> VisitOk(rows, first, visits, i);
    }
  }

  function AllItems<T>(visits: seq<Visit<T>>): seq<T> {
    if visits == [] then [] else AllItems(visits[..|visits| - 1]) + visits[|visits| - 1].items
  }

  /** Follows next_cursor from a first page until there is none. It ends, on a page
      that reaches the end of the result set. */
  method FollowCursors<T>(codec: Codec, rows: seq<T>, first: Params, filters: string) returns (visits: seq<Visit<T>>)
    requires codec.Valid() && first.limit > 0 && |rows| < U32_RANGE
    ensures IsWalk(rows, first, visits)
    ensures visits[|visits| - 1].params.offset + first.limit >= |rows|
  {
    var p := first;
    var page := FetchPage(codec, rows, p, filters);
    visits := [Visit(p, page.items)];
    assert VisitOk(rows, first, visits, 0);
    while page.nextCursor.Some?
      invariant IsWalk(rows, first, visits) && visits[|visits| - 1].params == p && p.limit == first.limit
      invariant page.hasMore <==> p.offset + p.limit < |rows|
      invariant page.nextCursor
             == if page.hasMore then Some(EncodeCursor(codec, Token(1, p.offset + p.limit, p.limit, filters))) else None
      decreases |rows| - p.offset
    {
      CursorsRoundTrip(codec, Token(1, p.offset + p.limit, p.limit, filters));
      var token := DecodeCursor(codec, page.nextCursor.value);
      p := Resolve(Some(token.value), false, p.limit, 1).value;
      page := FetchPage(codec, rows, p, filters);
      WalkExtends(rows, first, visits, Visit(p, page.items));
      visits := visits + [Visit(p, page.items)];
    }
  }

  lemma AdjacentQueries<T>(rows: seq<T>, offset: nat, count: nat, more: nat)
    requires offset + count <= |rows|
    ensures Query(rows, offset, count) + Query(rows, offset + count, more) == Query(rows, offset, count + more)
  {
  }

  /** Where a walk has got to. */
  lemma {:induction false} WalkGoesForward<T>(rows: seq<T>, first: Params, visits: seq<Visit<T>>, k: nat)
    requires IsWalk(rows, first, visits) && k < |visits|
    ensures visits[k].params.limit == first.limit && first.offset <= visits[k].params.offset
  {
    assert VisitOk(rows, first, visits, k);
    if k > 0 {
      WalkGoesForward(rows, first, visits, k - 1);
    }
  }

  /** The pages of a walk are, together, the rows from its start up to the end of its
      last page, each once and in order. */
  lemma {:induction false} WalkYieldsTheRows<T>(rows: seq<T>, first: Params, visits: seq<Visit<T>>)
    requires IsWalk(rows, first, visits)
    ensures visits[|visits| - 1].params.limit == first.limit && first.offset <= visits[|visits| - 1].params.offset
    ensures AllItems(visits) == Query(rows, first.offset, visits[|visits| - 1].params.offset - first.offset + first.limit)
  {
    var n := |visits| - 1;
    WalkGoesForward(rows, first, visits, n);
    assert VisitOk(rows, first, visits, n);
    if n == 0 {
      assert AllItems(visits) == [] + visits[0].items;
    } else {
      WalkPrefix(rows, first, visits, n);
      WalkYieldsTheRows(rows, first, visits[..n]);
      LastVisit(rows, first, visits);
    }
  }

  lemma LastVisit<T>(rows: seq<T>, first: Params, visits: seq<Visit<T>>)
    requires IsWalk(rows, first, visits) && |visits| > 1
    requires var at := visits[|visits| - 2].params.offset;
             first.offset <= at
             && AllItems(visits[..|visits| - 1]) == Query(rows, first.offset, at - first.offset + first.limit)
    ensures first.offset <= visits[|visits| - 1].params.offset
    ensures AllItems(visits) == Query(rows, first.offset, visits[|visits| - 1].params.offset - first.offset + first.limit)
  {
    var n := |visits| - 1;
    assert VisitOk(rows, first, visits, n);
    WalkGoesForward(rows, first, visits, n);
    var count: nat := visits[n].params.offset - first.offset;
    var before := AllItems(visits[..n]);
    assert before == Query(rows, first.offset, count);
    assert visits[n].items == Query(rows, first.offset + count, first.limit);
    AdjacentQueries(rows, first.offset, count, first.limit);
  }

  /** Every page of a walk but the last is full. */
  lemma EarlierPagesAreFull<T>(rows: seq<T>, first: Params, visits: seq<Visit<T>>, k: nat)
    requires IsWalk(rows, first, visits) && k < |visits| - 1
    ensures |visits[k].items| == first.limit
  {
    assert VisitOk(rows, first, visits, k) && VisitOk(rows, first, visits, k + 1);
    WalkGoesForward(rows, first, visits, k);
  }

  lemma QueryToTheEnd<T>(rows: seq<T>, offset: nat, count: nat)
    requires offset + count >= |rows|
    ensures Query(rows, offset, count) == if offset <= |rows| then rows[offset..] else []
  {
  }

  /** Following cursors to the end yields every remaining row exactly once, in order. */
  lemma CompleteWalkYieldsEverything<T>(rows: seq<T>, first: Params, visits: seq<Visit<T>>)
    requires IsWalk(rows, first, visits) && first.limit > 0
    requires visits[|visits| - 1].params.offset + first.limit >= |rows|
    ensures AllItems(visits) == if first.offset <= |rows| then rows[first.offset..] else []
  {
    WalkYieldsTheRows(rows, first, visits);
    QueryToTheEnd(rows, first.offset, visits[|visits| - 1].params.offset - first.offset + first.limit);
  }

  lemma ProductOfSum(a: nat, b: nat, d: nat)
    ensures (a + b) * d == a * d + b * d
  {
  }

  lemma {:induction false} WalkOffsets<T>(rows: seq<T>, first: Params, visits: seq<Visit<T>>, k: nat)
    requires IsWalk(rows, first, visits) && k < |visits|
    ensures visits[k].params.limit == first.limit
    ensures visits[k].params.offset == first.offset + k * first.limit
  {
    assert VisitOk(rows, first, visits, k);
    if k > 0 {
      WalkOffsets(rows, first, visits, k - 1);
      ProductOfSum(k - 1, 1, first.limit);
    }
  }

  lemma Unwrapped(a: U32, b: U32, product: U32)
    requires product == a * b
    ensures WrappingMul(a, b) == product
  {
  }

  /** The offset of a page leads back to the page. */
  lemma PageOfItsOffset(page: U32, limit: U32, offset: U32)
    requires limit > 0 && page >= 1 && offset == (page - 1) * limit
    ensures PageOfOffset(offset, limit) == page
  {
    DivideExactly(page - 1, limit, offset);
  }

  /** Starting from a page number, the k-th page reached by cursors is the page with
      that number plus k: asking for it by number resolves to the very same page. */
  lemma CursorsAgreeWithPageNumbers<T>(rows: seq<T>, first: Params, visits: seq<Visit<T>>, k: nat)
    requires first.limit > 0 && first.effectivePage >= 1 && first.effectivePage + k < U32_RANGE
    requires first.offset == (first.effectivePage - 1) * first.limit
    requires IsWalk(rows, first, visits) && k < |visits|
    ensures Resolve(None, true, first.limit, first.effectivePage + k) == Ok(visits[k].params)
    ensures visits[k].params.effectivePage == first.effectivePage + k
  {
    WalkOffsets(rows, first, visits, k);
    ProductOfSum(first.effectivePage - 1, k, first.limit);
    Unwrapped(first.effectivePage - 1 + k, first.limit, visits[k].params.offset);
    PageOfItsOffset(first.effectivePage + k, first.limit, visits[k].params.offset);
    assert VisitOk(rows, first, visits, k);
  }

  lemma {:induction false} ProductGrows(a: nat, b: nat, d: nat)
    requires a < b
    ensures a * d + d <= b * d
    decreases b
  {
    assert b * d == (b - 1) * d + d;
    if a < b - 1 {
      ProductGrows(a, b - 1, d);
    }
  }

  lemma DivideExactly(n: nat, d: nat, x: nat)
    requires d > 0 && x == n * d
    ensures x / d == n
  {
    var q := x / d;
    assert q * d <= x < q * d + d;
    if q < n {
      ProductGrows(q, n, d);
    } else if n < q {
      ProductGrows(n, q, d);
    }
  }

  // ---------------------------------------------------------------- where page numbers fail

  function PageByNumber<T>(rows: seq<T>, page: U32, limit: U32): seq<T>
    requires page >= 1
  {
    Query(rows, Resolve(None, true, limit, page).value.offset, limit)
  }

  /** A page number selects the rows it should for every result set exactly when the
      position of its first row is representable; beyond that it wraps around to rows
      that were already shown. */
  lemma PageNumberIsExactUnlessItWraps(page: U32, limit: U32)
    requires page >= 1 && limit >= 1
    ensures (forall rows: seq<int> :: PageByNumber(rows, page, limit) == Query(rows, (page - 1) * limit, limit))
       <==> (page - 1) * limit < U32_RANGE
  {
    var at := (page - 1) * limit;
    if at >= U32_RANGE {
      var wrapped := WrappingMul(page - 1, limit);
      assert wrapped < at;
      var rows := seq(wrapped + 1, i => i);
      assert |PageByNumber(rows, page, limit)| == 1;
      assert Query(rows, at, limit) == [];
    } else {
      assert WrappingMul(page - 1, limit) == at;
    }
  }

  /** A page number that goes wrong at the largest page size of the version listing:
      it shows rows from position 204 on. */
  lemma PageNumberWrapExample()
    ensures Resolve(None, true, 500, 8_589_936) == Ok(Params(204, 500, 8_589_936))
  {
  }
}
