/**
 The source files of crate versions and the index rows extracted from them: symbols,
 types, impls and traits. Each operation is one transaction; an insert that violates
 a constraint fails and takes the whole transaction back.
 */
module IndexTables {
  import opened Options
  import opened Glob

  const RUSTDOC := "rustdoc_json"
  const RUSTDOC_SOURCE_PATH_PREFIX := "rustdoc-json/"

  datatype File = File(version: int, path: string)

  /** What was extracted: a name and kind, the rustdoc item if known, and the rest. */
  datatype Item = Item(name: string, kind: string, item: Option<int>, detail: string)

  /** Traits belong to no file. */
  datatype Home = NoFile | InFile(id: int)

  datatype Row = Row(version: int, file: Home, source: string, content: Item)

  datatype Batch = Batch(symbols: seq<Item>, types: seq<Item>, impls: seq<Item>, traits: seq<Item>)

  datatype Kind = Symbols | Types | Impls | Traits

  datatype Tables = Tables(files: map<int, File>, nextId: int,
                           symbols: seq<Row>, types: seq<Row>, impls: seq<Row>, traits: seq<Row>)
  {
    function Of(kind: Kind): seq<Row> {
      match kind
      case Symbols => symbols
      case Types => types
      case Impls => impls
      case Traits => traits
    }

    function With(kind: Kind, rows: seq<Row>): Tables {
      match kind
      case Symbols => this.(symbols := rows)
      case Types => this.(types := rows)
      case Impls => this.(impls := rows)
      case Traits => this.(traits := rows)
    }
  }

  datatype Counts = Counts(symbols: nat, types: nat, impls: nat, traits: nat)

  /** What a successful write reports: a count of the items it was given. */
  function ReportedCounts(batch: Batch): Counts {
    Counts(|batch.symbols|, |batch.types|, |batch.impls|, |batch.traits|)
  }

  // ---------------------------------------------------------------- constraints

  /** One row per rustdoc item and version; for traits, one per item, version and source. */
  predicate ItemClash(kind: Kind, a: Row, b: Row) {
    && a.version == b.version && a.source == b.source && a.content.item.Some? && a.content.item == b.content.item
    && (kind == Traits || a.source == RUSTDOC)
  }

  /** Types from other sources: one row per version, file, name and kind. */
  predicate NameClash(kind: Kind, a: Row, b: Row) {
    && kind == Types && a.source != RUSTDOC && b.source != RUSTDOC
    && a.version == b.version && a.file == b.file
    && a.content.name == b.content.name && a.content.kind == b.content.kind
  }

  predicate FileExists(files: map<int, File>, row: Row) {
    row.file.InFile? ==> row.file.id in files
  }

  predicate ClashesItem(kind: Kind, table: seq<Row>, row: Row) {
    exists i :: 0 <= i < |table| && ItemClash(kind, table[i], row)
  }

  predicate ClashesName(kind: Kind, table: seq<Row>, row: Row) {
    exists i :: 0 <= i < |table| && NameClash(kind, table[i], row)
  }

  /** A row lies in an existing file of its own version. */
  predicate AtHome(files: map<int, File>, kind: Kind, row: Row) {
    if kind == Traits then row.file.NoFile?
    else row.file.InFile? && row.file.id in files && files[row.file.id].version == row.version
  }

  ghost predicate TableInv(files: map<int, File>, kind: Kind, table: seq<Row>) {
    && (forall i :: 0 <= i < |table| ==> AtHome(files, kind, table[i]))
    && (forall i, j :: 0 <= i < j < |table| ==> !ItemClash(kind, table[i], table[j]))
    && (forall i, j :: 0 <= i < j < |table| ==> !NameClash(kind, table[i], table[j]))
  }

  ghost predicate FilesInv(files: map<int, File>, nextId: int) {
    && (forall id :: id in files ==> id < nextId)
    && (forall a, b :: a in files && b in files && files[a] == files[b] ==> a == b)
  }

  ghost predicate TablesInv(t: Tables) {
    FilesInv(t.files, t.nextId) && forall kind: Kind :: TableInv(t.files, kind, t.Of(kind))
  }

  // ---------------------------------------------------------------- deleting

  /** The rows that a delete statement names. */
  datatype Scope =
    | OfFile(file: int)
    | OfFileFrom(file: int, source: string)
    | OfVersion(version: int, source: string)
    | OfVersionFiles(version: int, files: set<int>)
    | OfFiles(files: set<int>)

  predicate InScope(scope: Scope, row: Row) {
    match scope
    case OfFile(file) => row.file == InFile(file)
    case OfFileFrom(file, source) => row.file == InFile(file) && row.source == source
    case OfVersion(version, source) => row.version == version && row.source == source
    case OfVersionFiles(version, files) => row.version == version && row.file.InFile? && row.file.id in files
    case OfFiles(files) => row.file.InFile? && row.file.id in files
  }

  /** The rows that are inside the scope, or those outside it, in order. */
  function Pick(table: seq<Row>, scope: Scope, inside: bool): seq<Row> {
    if table == [] then []
    else
      var last := table[|table| - 1];
      Pick(table[..|table| - 1], scope, inside) + if InScope(scope, last) == inside then [last] else []
  }

  lemma {:induction false} PickedRows(table: seq<Row>, scope: Scope, inside: bool)
    ensures forall row :: row in Pick(table, scope, inside) <==> row in table && InScope(scope, row) == inside
  {
    if table != [] {
      var before, last := table[..|table| - 1], table[|table| - 1];
      PickedRows(before, scope, inside);
      assert table == before + [last];
    }
  }

  lemma {:induction false} PickConcat(a: seq<Row>, b: seq<Row>, scope: Scope, inside: bool)
    ensures Pick(a + b, scope, inside) == Pick(a, scope, inside) + Pick(b, scope, inside)
  {
    if b == [] {
      assert a + b == a;
    } else {
      var before, last := b[..|b| - 1], b[|b| - 1];
      assert (a + b)[..|a + b| - 1] == a + before && (a + b)[|a + b| - 1] == last;
      PickConcat(a, before, scope, inside);
    }
  }

  lemma {:induction false} PickUniform(table: seq<Row>, scope: Scope, inside: bool)
    requires forall i :: 0 <= i < |table| ==> InScope(scope, table[i]) == inside
    ensures Pick(table, scope, inside) == table && Pick(table, scope, !inside) == []
  {
    if table != [] {
      PickUniform(table[..|table| - 1], scope, inside);
      assert InScope(scope, table[|table| - 1]) == inside;
      assert table == table[..|table| - 1] + [table[|table| - 1]];
    }
  }

  lemma PickNone(table: seq<Row>, scope: Scope, outside: bool)
    requires forall row :: row in table ==> InScope(scope, row) != outside
    ensures Pick(table, scope, outside) == [] && Pick(table, scope, !outside) == table
  {
    forall i | 0 <= i < |table| ensures InScope(scope, table[i]) == !outside {
      assert table[i] in table;
    }
    PickUniform(table, scope, !outside);
  }

  lemma {:induction false} PickKeepsTable(files: map<int, File>, kind: Kind, table: seq<Row>, scope: Scope, inside: bool)
    requires TableInv(files, kind, table)
    ensures TableInv(files, kind, Pick(table, scope, inside))
  {
    if table != [] {
      var before, last := table[..|table| - 1], table[|table| - 1];
      PickKeepsTable(files, kind, before, scope, inside);
      PickedRows(before, scope, inside);
      forall i | 0 <= i < |Pick(before, scope, inside)|
        ensures !ItemClash(kind, Pick(before, scope, inside)[i], last) && !NameClash(kind, Pick(before, scope, inside)[i], last)
      {
        assert Pick(before, scope, inside)[i] in before;
      }
    }
  }

  // ---------------------------------------------------------------- inserting

  function RowOf(kind: Kind, version: int, file: int, source: string, item: Item): Row {
    Row(version, if kind == Traits then NoFile else InFile(file), source, item)
  }

  function RowsOf(kind: Kind, version: int, file: int, source: string, items: seq<Item>): seq<Row> {
    seq(|items|, i requires 0 <= i < |items| => RowOf(kind, version, file, source, items[i]))
  }

  function ItemsOf(batch: Batch, kind: Kind): seq<Item> {
    match kind
    case Symbols => batch.symbols
    case Types => batch.types
    case Impls => batch.impls
    case Traits => batch.traits
  }

  /** One insert: a type whose name clashes is skipped. */
  function Inserted(files: map<int, File>, kind: Kind, table: seq<Row>, row: Row): Option<seq<Row>> {
    if ClashesName(kind, table, row) then Some(table)
    else if ClashesItem(kind, table, row) || !FileExists(files, row) then None
    else Some(table + [row])
  }

  function InsertedAll(files: map<int, File>, kind: Kind, table: seq<Row>, rows: seq<Row>): Option<seq<Row>> {
    if rows == [] then Some(table)
    else
      match InsertedAll(files, kind, table, rows[..|rows| - 1])
      case None => None
      case Some(t) => Inserted(files, kind, t, rows[|rows| - 1])
  }

  /** The rows whose names clash neither with the table nor with an earlier row. */
  function Fresh(kind: Kind, table: seq<Row>, rows: seq<Row>): seq<Row> {
    if rows == [] then []
    else
      var before, last := rows[..|rows| - 1], rows[|rows| - 1];
      Fresh(kind, table, before) + if ClashesName(kind, table + before, last) then [] else [last]
  }

  /** No row breaks a constraint that makes the insert fail. */
  ghost predicate Insertable(files: map<int, File>, kind: Kind, table: seq<Row>, rows: seq<Row>) {
    && (forall i :: 0 <= i < |rows| ==> FileExists(files, rows[i]))
    && (forall i :: 0 <= i < |rows| ==> !ClashesItem(kind, table + rows[..i], rows[i]))
  }

  lemma {:induction false} FreshRows(kind: Kind, table: seq<Row>, rows: seq<Row>)
    ensures forall row :: row in Fresh(kind, table, rows) ==> row in rows
    ensures kind != Types ==> Fresh(kind, table, rows) == rows
    ensures forall row :: row in rows && row.source == RUSTDOC ==> row in Fresh(kind, table, rows)
    ensures (forall row :: row in rows ==> row.source == RUSTDOC) ==> Fresh(kind, table, rows) == rows
  {
    if rows != [] {
      var before, last := rows[..|rows| - 1], rows[|rows| - 1];
      FreshRows(kind, table, before);
      assert rows == before + [last];
    }
  }

  lemma NameClashIsTransitive(kind: Kind, a: Row, b: Row, c: Row)
    ensures NameClash(kind, a, b) && NameClash(kind, b, c) ==> NameClash(kind, a, c)
    ensures NameClash(kind, a, b) ==> NameClash(kind, b, a) && NameClash(kind, a, a)
  {
  }

  /** Leaving out clashing rows does not change which names are taken. */
  lemma {:induction false} FreshTakesTheSameNames(kind: Kind, table: seq<Row>, rows: seq<Row>, row: Row)
    ensures ClashesName(kind, table + Fresh(kind, table, rows), row) <==> ClashesName(kind, table + rows, row)
  {
    if rows != [] {
      var before, last := rows[..|rows| - 1], rows[|rows| - 1];
      FreshTakesTheSameNames(kind, table, before, row);
      FreshTakesTheSameNames(kind, table, before, last);
      assert table + rows == (table + before) + [last];
      ClashesAppend(kind, table + before, last, row);
      ClashesAppend(kind, table + Fresh(kind, table, before), last, row);
      if ClashesName(kind, table + before, last) {
        assert Fresh(kind, table, rows) == Fresh(kind, table, before);
        ClashPasses(kind, table + before, last, row);
      } else {
        assert table + Fresh(kind, table, rows) == (table + Fresh(kind, table, before)) + [last];
      }
    } else {
      assert table + Fresh(kind, table, rows) == table + rows;
    }
  }

  lemma ClashesAppend(kind: Kind, table: seq<Row>, last: Row, row: Row)
    ensures ClashesName(kind, table + [last], row) <==> ClashesName(kind, table, row) || NameClash(kind, last, row)
    ensures ClashesItem(kind, table + [last], row) <==> ClashesItem(kind, table, row) || ItemClash(kind, last, row)
  {
    var all := table + [last];
    assert all[|table|] == last && forall i :: 0 <= i < |table| ==> all[i] == table[i];
  }

  lemma ClashPasses(kind: Kind, table: seq<Row>, last: Row, row: Row)
    requires ClashesName(kind, table, last)
    ensures NameClash(kind, last, row) ==> ClashesName(kind, table, row)
  {
    var i :| 0 <= i < |table| && NameClash(kind, table[i], last);
    NameClashIsTransitive(kind, table[i], last, row);
  }

  /** A skipped row cannot clash as an item. */
  lemma {:induction false} FreshTakesTheSameItems(kind: Kind, table: seq<Row>, rows: seq<Row>, row: Row)
    ensures ClashesItem(kind, table + Fresh(kind, table, rows), row) <==> ClashesItem(kind, table + rows, row)
  {
    if rows != [] {
      var before, last := rows[..|rows| - 1], rows[|rows| - 1];
      FreshTakesTheSameItems(kind, table, before, row);
      assert table + rows == (table + before) + [last];
      ClashesAppend(kind, table + before, last, row);
      ClashesAppend(kind, table + Fresh(kind, table, before), last, row);
      if ClashesName(kind, table + before, last) {
        assert Fresh(kind, table, rows) == Fresh(kind, table, before);
        assert !ItemClash(kind, last, row);
      } else {
        assert table + Fresh(kind, table, rows) == (table + Fresh(kind, table, before)) + [last];
      }
    } else {
      assert table + Fresh(kind, table, rows) == table + rows;
    }
  }

  lemma InsertablePrefix(files: map<int, File>, kind: Kind, table: seq<Row>, rows: seq<Row>)
    requires rows != []
    ensures var before, last := rows[..|rows| - 1], rows[|rows| - 1];
            Insertable(files, kind, table, rows) <==>
              Insertable(files, kind, table, before) && FileExists(files, last) && !ClashesItem(kind, table + before, last)
  {
    var n := |rows| - 1;
    assert forall i :: 0 <= i < n ==> rows[..n][..i] == rows[..i] && rows[..n][i] == rows[i];
    assert forall i :: 0 <= i < n ==>
             ClashesItem(kind, table + rows[..n][..i], rows[..n][i]) == ClashesItem(kind, table + rows[..i], rows[i]);
  }

  /** A type whose name clashes is in a file that exists and is not a rustdoc item. */
  lemma SkippedIsHarmless(files: map<int, File>, kind: Kind, table: seq<Row>, row: Row)
    requires ClashesName(kind, table, row)
    ensures forall other :: !ItemClash(kind, other, row)
    ensures (forall i :: 0 <= i < |table| ==> FileExists(files, table[i])) ==> FileExists(files, row)
  {
  }

  /** Inserting rows one by one either fails, because some row breaks a constraint, or
      appends exactly the rows whose names are not taken. */
  lemma {:induction false} InsertedAllExactly(files: map<int, File>, kind: Kind, table: seq<Row>, rows: seq<Row>)
    requires forall i :: 0 <= i < |table| ==> FileExists(files, table[i])
    ensures InsertedAll(files, kind, table, rows)
         == if Insertable(files, kind, table, rows) then Some(table + Fresh(kind, table, rows)) else None
  {
    if rows == [] {
      assert table + [] == table;
    } else {
      var before, last := rows[..|rows| - 1], rows[|rows| - 1];
      InsertedAllExactly(files, kind, table, before);
      InsertablePrefix(files, kind, table, rows);
      if Insertable(files, kind, table, before) {
        var t := table + Fresh(kind, table, before);
        FreshTakesTheSameNames(kind, table, before, last);
        FreshTakesTheSameItems(kind, table, before, last);
        assert Fresh(kind, table, rows) == Fresh(kind, table, before) + if ClashesName(kind, t, last) then [] else [last];
        if ClashesName(kind, t, last) {
          FreshRows(kind, table, before);
          SkippedIsHarmless(files, kind, t, last);
          assert t == table + Fresh(kind, table, rows);
        } else {
          assert t + [last] == table + Fresh(kind, table, rows);
        }
      }
    }
  }

  lemma InsertKeepsTable(files: map<int, File>, kind: Kind, table: seq<Row>, row: Row)
    requires TableInv(files, kind, table) && AtHome(files, kind, row) && Inserted(files, kind, table, row).Some?
    ensures TableInv(files, kind, Inserted(files, kind, table, row).value)
  {
    if !ClashesName(kind, table, row) {
      assert forall i :: 0 <= i < |table| ==> !ItemClash(kind, table[i], row) && !NameClash(kind, table[i], row);
    }
  }

  lemma {:induction false} InsertedAllKeepsTable(files: map<int, File>, kind: Kind, table: seq<Row>, rows: seq<Row>)
    requires TableInv(files, kind, table) && forall i :: 0 <= i < |rows| ==> AtHome(files, kind, rows[i])
    requires InsertedAll(files, kind, table, rows).Some?
    ensures TableInv(files, kind, InsertedAll(files, kind, table, rows).value)
  {
    if rows != [] {
      InsertedAllKeepsTable(files, kind, table, rows[..|rows| - 1]);
      InsertKeepsTable(files, kind, InsertedAll(files, kind, table, rows[..|rows| - 1]).value, rows[|rows| - 1]);
    }
  }

  // ---------------------------------------------------------------- replacing

  /** What a clear statement leaves: the file-level one does not touch traits. */
  function Cleared(t: Tables, scope: Scope): Tables {
    t.(symbols := Pick(t.symbols, scope, false), types := Pick(t.types, scope, false),
       impls := Pick(t.impls, scope, false),
       traits := if scope.OfVersion? then Pick(t.traits, scope, false) else t.traits)
  }

  function WithBatch(t: Tables, version: int, file: int, source: string, batch: Batch): Option<Tables> {
    var symbols := InsertedAll(t.files, Symbols, t.symbols, RowsOf(Symbols, version, file, source, batch.symbols));
    var types := InsertedAll(t.files, Types, t.types, RowsOf(Types, version, file, source, batch.types));
    var impls := InsertedAll(t.files, Impls, t.impls, RowsOf(Impls, version, file, source, batch.impls));
    var traits := InsertedAll(t.files, Traits, t.traits, RowsOf(Traits, version, file, source, batch.traits));
    if symbols.Some? && types.Some? && impls.Some? && traits.Some? then
      Some(t.(symbols := symbols.value, types := types.value, impls := impls.value, traits := traits.value))
    else None
  }

  function Replaced(t: Tables, scope: Scope, version: int, file: int, source: string, batch: Batch): Option<Tables> {
    WithBatch(Cleared(t, scope), version, file, source, batch)
  }

  /** Callers name a file of the version they index. */
  predicate OwnFile(t: Tables, version: int, file: int) {
    file in t.files ==> t.files[file].version == version
  }

  predicate ReplaceScope(scope: Scope, version: int, file: int, source: string) {
    scope == OfFile(file) || scope == OfVersion(version, source)
  }

  lemma ClearedKeepsInv(t: Tables, scope: Scope)
    requires TablesInv(t)
    ensures TablesInv(Cleared(t, scope))
  {
    forall kind: Kind ensures TableInv(t.files, kind, Cleared(t, scope).Of(kind)) {
      assert TableInv(t.files, kind, t.Of(kind));
      PickKeepsTable(t.files, kind, t.Of(kind), scope, false);
    }
  }

  lemma KindReplaced(t: Tables, scope: Scope, version: int, file: int, source: string, batch: Batch, kind: Kind)
    ensures Replaced(t, scope, version, file, source, batch).Some? ==>
              InsertedAll(t.files, kind, Cleared(t, scope).Of(kind), RowsOf(kind, version, file, source, ItemsOf(batch, kind)))
              == Some(Replaced(t, scope, version, file, source, batch).value.Of(kind))
  {
  }

  /** No row of the batch for this table breaks a constraint. */
  ghost predicate Fits(t: Tables, version: int, file: int, source: string, batch: Batch, kind: Kind) {
    Insertable(t.files, kind, t.Of(kind), RowsOf(kind, version, file, source, ItemsOf(batch, kind)))
  }

  /** A batch can be written exactly when no row of it breaks a constraint against the
      table or an earlier row of the batch. */
  lemma BatchSucceedsExactly(t: Tables, version: int, file: int, source: string, batch: Batch)
    requires TablesInv(t)
    ensures WithBatch(t, version, file, source, batch).Some? <==>
              forall kind: Kind :: Fits(t, version, file, source, batch, kind)
  {
    forall kind: Kind
      ensures Fits(t, version, file, source, batch, kind) <==>
                InsertedAll(t.files, kind, t.Of(kind), RowsOf(kind, version, file, source, ItemsOf(batch, kind))).Some?
    {
      assert TableInv(t.files, kind, t.Of(kind));
      InsertedAllExactly(t.files, kind, t.Of(kind), RowsOf(kind, version, file, source, ItemsOf(batch, kind)));
    }
    assert (forall kind: Kind :: Fits(t, version, file, source, batch, kind)) <==>
             Fits(t, version, file, source, batch, Symbols) && Fits(t, version, file, source, batch, Types)
             && Fits(t, version, file, source, batch, Impls) && Fits(t, version, file, source, batch, Traits);
  }

  /** A replacement succeeds exactly when no row of the batch breaks a constraint
      against what is left or an earlier row of the batch. */
  lemma ReplaceSucceedsExactly(t: Tables, scope: Scope, version: int, file: int, source: string, batch: Batch)
    requires TablesInv(t)
    ensures Replaced(t, scope, version, file, source, batch).Some? <==>
              forall kind: Kind :: Fits(Cleared(t, scope), version, file, source, batch, kind)
  {
    ClearedKeepsInv(t, scope);
    BatchSucceedsExactly(Cleared(t, scope), version, file, source, batch);
  }

  lemma ReplaceKeepsInv(t: Tables, scope: Scope, version: int, file: int, source: string, batch: Batch)
    requires TablesInv(t) && OwnFile(t, version, file)
    requires Replaced(t, scope, version, file, source, batch).Some?
    ensures TablesInv(Replaced(t, scope, version, file, source, batch).value)
  {
    var t' := Replaced(t, scope, version, file, source, batch).value;
    ClearedKeepsInv(t, scope);
    ReplaceSucceedsExactly(t, scope, version, file, source, batch);
    forall kind: Kind ensures TableInv(t.files, kind, t'.Of(kind)) {
      KindReplaced(t, scope, version, file, source, batch, kind);
      var left, rows := Cleared(t, scope).Of(kind), RowsOf(kind, version, file, source, ItemsOf(batch, kind));
      assert TableInv(t.files, kind, left) && Fits(Cleared(t, scope), version, file, source, batch, kind);
      assert forall i :: 0 <= i < |rows| ==> FileExists(t.files, rows[i]);
      InsertedAllKeepsTable(t.files, kind, left, rows);
    }
  }

  lemma ReplacedTable(t: Tables, scope: Scope, version: int, file: int, source: string, batch: Batch, kind: Kind)
    requires TablesInv(t) && Replaced(t, scope, version, file, source, batch).Some?
    ensures var left := Cleared(t, scope).Of(kind);
            Replaced(t, scope, version, file, source, batch).value.Of(kind)
            == left + Fresh(kind, left, RowsOf(kind, version, file, source, ItemsOf(batch, kind)))
  {
    ClearedKeepsInv(t, scope);
    assert TableInv(t.files, kind, Cleared(t, scope).Of(kind));
    KindReplaced(t, scope, version, file, source, batch, kind);
    InsertedAllExactly(t.files, kind, Cleared(t, scope).Of(kind), RowsOf(kind, version, file, source, ItemsOf(batch, kind)));
  }

  lemma AppendedInScope(kept: seq<Row>, added: seq<Row>, scope: Scope)
    requires forall row :: row in kept ==> !InScope(scope, row)
    requires forall row :: row in added ==> InScope(scope, row)
    ensures Pick(kept + added, scope, true) == added && Pick(kept + added, scope, false) == kept
  {
    PickConcat(kept, added, scope, true);
    PickConcat(kept, added, scope, false);
    PickNone(kept, scope, true);
    PickNone(added, scope, false);
    assert kept + [] == kept && [] + added == added;
  }

  lemma BatchRowsInScope(scope: Scope, kind: Kind, version: int, file: int, source: string, items: seq<Item>)
    requires ReplaceScope(scope, version, file, source) && (kind != Traits || scope.OfVersion?)
    ensures forall row :: row in RowsOf(kind, version, file, source, items) ==> InScope(scope, row)
  {
  }

  /** After a replacement the rows in its scope are exactly those of the batch, types
      without the ones whose name is taken; all other rows are as they were. The
      file-level replacement adds its traits to those already there. */
  lemma ReplaceLeavesTheBatch(t: Tables, scope: Scope, version: int, file: int, source: string, batch: Batch, kind: Kind)
    requires TablesInv(t) && ReplaceScope(scope, version, file, source)
    requires Replaced(t, scope, version, file, source, batch).Some?
    ensures var t' := Replaced(t, scope, version, file, source, batch).value;
            var rows := RowsOf(kind, version, file, source, ItemsOf(batch, kind));
            && t'.files == t.files && t'.nextId == t.nextId
            && (kind != Traits || scope.OfVersion? ==>
                  && Pick(t'.Of(kind), scope, false) == Pick(t.Of(kind), scope, false)
                  && Pick(t'.Of(kind), scope, true) == Fresh(kind, Pick(t.Of(kind), scope, false), rows))
            && (kind == Traits && scope.OfFile? ==> t'.traits == t.traits + rows)
  {
    var left, rows := Cleared(t, scope).Of(kind), RowsOf(kind, version, file, source, ItemsOf(batch, kind));
    ReplacedTable(t, scope, version, file, source, batch, kind);
    FreshRows(kind, left, rows);
    if kind != Traits || scope.OfVersion? {
      BatchRowsInScope(scope, kind, version, file, source, ItemsOf(batch, kind));
      PickedRows(t.Of(kind), scope, false);
      AppendedInScope(left, Fresh(kind, left, rows), scope);
    }
  }

  // ---------------------------------------------------------------- the types that are kept

  /** The first of the items for each name and kind. */
  function FirstOfEach(items: seq<Item>): seq<Item> {
    if items == [] then []
    else
      var before, last := items[..|items| - 1], items[|items| - 1];
      FirstOfEach(before)
      + if exists i :: 0 <= i < |before| && before[i].name == last.name && before[i].kind == last.kind then [] else [last]
  }

  lemma {:induction false} FreshAreTheFirst(left: seq<Row>, version: int, file: int, source: string, items: seq<Item>)
    requires source != RUSTDOC
    requires forall i :: 0 <= i < |left| && left[i].file == InFile(file) ==> left[i].source == RUSTDOC || left[i].version != version
    ensures Fresh(Types, left, RowsOf(Types, version, file, source, items))
         == RowsOf(Types, version, file, source, FirstOfEach(items))
  {
    if items != [] {
      var before, last := items[..|items| - 1], items[|items| - 1];
      var rows := RowsOf(Types, version, file, source, items);
      var rowsBefore := RowsOf(Types, version, file, source, before);
      FreshAreTheFirst(left, version, file, source, before);
      assert rows[..|rows| - 1] == rowsBefore && rows[|rows| - 1] == RowOf(Types, version, file, source, last);
      var all := left + rowsBefore;
      assert forall i :: 0 <= i < |before| ==> all[|left| + i] == RowOf(Types, version, file, source, before[i]);
      assert ClashesName(Types, all, rows[|rows| - 1]) <==>
               exists i :: 0 <= i < |before| && before[i].name == last.name && before[i].kind == last.kind;
    }
  }

  /** After a file-level replacement from a source other than rustdoc the types of the
      file are the first of the batch for each name and kind. */
  lemma FileReplacementKeepsFirstTypes(t: Tables, version: int, file: int, source: string, batch: Batch)
    requires TablesInv(t) && source != RUSTDOC && Replaced(t, OfFile(file), version, file, source, batch).Some?
    ensures Pick(Replaced(t, OfFile(file), version, file, source, batch).value.types, OfFile(file), true)
         == RowsOf(Types, version, file, source, FirstOfEach(batch.types))
  {
    var left := Pick(t.types, OfFile(file), false);
    ReplaceLeavesTheBatch(t, OfFile(file), version, file, source, batch, Types);
    PickedRows(t.types, OfFile(file), false);
    forall i | 0 <= i < |left| ensures left[i].file != InFile(file) {
      assert left[i] in left;
    }
    FreshAreTheFirst(left, version, file, source, batch.types);
  }

  predicate SameName(a: Item, b: Item) {
    a.name == b.name && a.kind == b.kind
  }

  ghost predicate DistinctNames(items: seq<Item>) {
    forall i, j :: 0 <= i < j < |items| ==> !SameName(items[i], items[j])
  }

  lemma {:induction false} FreshNamesAreFree(kind: Kind, table: seq<Row>, rows: seq<Row>)
    ensures forall i :: 0 <= i < |Fresh(kind, table, rows)| ==> !ClashesName(kind, table, Fresh(kind, table, rows)[i])
  {
    if rows != [] {
      var before, last := rows[..|rows| - 1], rows[|rows| - 1];
      FreshNamesAreFree(kind, table, before);
      assert forall i :: 0 <= i < |table| ==> (table + before)[i] == table[i];
      assert ClashesName(kind, table, last) ==> ClashesName(kind, table + before, last);
    }
  }

  lemma {:induction false} FreshWhenFree(kind: Kind, table: seq<Row>, rows: seq<Row>)
    requires forall i :: 0 <= i < |rows| ==> !ClashesName(kind, table, rows[i])
    ensures Fresh(kind, table, rows) == Fresh(kind, [], rows)
  {
    if rows != [] {
      var before, last := rows[..|rows| - 1], rows[|rows| - 1];
      assert forall i :: 0 <= i < |before| ==> before[i] == rows[i];
      FreshWhenFree(kind, table, before);
      var all := table + before;
      assert [] + before == before;
      assert forall i :: 0 <= i < |before| ==> all[|table| + i] == before[i];
      assert ClashesName(kind, before, last) ==> ClashesName(kind, all, last);
      assert forall i :: 0 <= i < |all| && NameClash(kind, all[i], last) ==>
               i >= |table| && NameClash(kind, before[i - |table|], last);
    }
  }

  /** A row whose name is taken by the table makes a difference. */
  lemma TakenNameIsMissed(kind: Kind, table: seq<Row>, rows: seq<Row>, k: nat)
    requires k < |rows| && ClashesName(kind, table, rows[k])
    ensures Fresh(kind, table, rows) != Fresh(kind, [], rows)
  {
    var first := Fresh(kind, [], rows);
    assert [] + rows == rows && [] + first == first;
    FreshTakesTheSameNames(kind, [], rows, rows[k]);
    var i :| 0 <= i < |table| && NameClash(kind, table[i], rows[k]);
    NameClashIsTransitive(kind, table[i], rows[k], table[i]);
    assert NameClash(kind, rows[k], rows[k]);
    assert ClashesName(kind, rows, rows[k]);
    var m :| 0 <= m < |first| && NameClash(kind, first[m], rows[k]);
    NameClashIsTransitive(kind, first[m], rows[k], table[i]);
    assert NameClash(kind, table[i], first[m]);
    FreshNamesAreFree(kind, table, rows);
  }

  ghost predicate Free(kind: Kind, table: seq<Row>, rows: seq<Row>) {
    forall i :: 0 <= i < |rows| ==> !ClashesName(kind, table, rows[i])
  }

  /** The table makes no difference exactly when no name of the rows is taken in it. */
  lemma FreshExactlyWhenFree(kind: Kind, table: seq<Row>, rows: seq<Row>)
    ensures Fresh(kind, table, rows) == Fresh(kind, [], rows) <==> Free(kind, table, rows)
  {
    if Free(kind, table, rows) {
      FreshWhenFree(kind, table, rows);
    } else {
      var k :| 0 <= k < |rows| && ClashesName(kind, table, rows[k]);
      TakenNameIsMissed(kind, table, rows, k);
    }
  }

  /** A version-level replacement from a source other than rustdoc writes the first
      types of the batch for each name and kind exactly when none of these names is
      already taken, in the same file, by rows of yet another source. */
  lemma VersionReplacementMayMissTypes(t: Tables, version: int, file: int, source: string, batch: Batch)
    requires TablesInv(t) && source != RUSTDOC
    requires Replaced(t, OfVersion(version, source), version, file, source, batch).Some?
    ensures Pick(Replaced(t, OfVersion(version, source), version, file, source, batch).value.types,
                 OfVersion(version, source), true)
            == RowsOf(Types, version, file, source, FirstOfEach(batch.types))
       <==> forall item :: item in batch.types ==>
              !ClashesName(Types, Pick(t.types, OfVersion(version, source), false), RowOf(Types, version, file, source, item))
  {
    var left := Pick(t.types, OfVersion(version, source), false);
    var rows := RowsOf(Types, version, file, source, batch.types);
    ReplaceLeavesTheBatch(t, OfVersion(version, source), version, file, source, batch, Types);
    FreshAreTheFirst([], version, file, source, batch.types);
    FreshExactlyWhenFree(Types, left, rows);
    forall item | item in batch.types && Free(Types, left, rows)
      ensures !ClashesName(Types, left, RowOf(Types, version, file, source, item))
    {
      var i :| 0 <= i < |batch.types| && batch.types[i] == item;
      assert !ClashesName(Types, left, rows[i]);
    }
    forall i | 0 <= i < |rows| ensures batch.types[i] in batch.types {
    }
  }

  predicate SameItem(a: Item, b: Item) {
    a.item.Some? && a.item == b.item
  }

  /** An earlier item has the same id. */
  ghost predicate Repeated(items: seq<Item>, i: nat)
    requires i < |items|
  {
    exists j :: 0 <= j < i && SameItem(items[j], items[i])
  }

  ghost predicate DistinctItems(items: seq<Item>) {
    forall i :: 0 <= i < |items| ==> !Repeated(items, i)
  }

  lemma RustdocRowClashes(left: seq<Row>, kind: Kind, version: int, file: int, items: seq<Item>, i: nat)
    requires i < |items|
    requires forall k :: 0 <= k < |left| ==> !InScope(OfVersion(version, RUSTDOC), left[k])
    ensures var rows := RowsOf(kind, version, file, RUSTDOC, items);
            ClashesItem(kind, left + rows[..i], rows[i]) <==> Repeated(items, i)
  {
    var rows := RowsOf(kind, version, file, RUSTDOC, items);
    var all := left + rows[..i];
    assert forall k :: 0 <= k < |left| ==> all[k] == left[k];
    assert forall j :: 0 <= j < i ==> all[|left| + j] == rows[j];
    assert forall j :: 0 <= j < i ==> ItemClash(kind, rows[j], rows[i]) == SameItem(items[j], items[i]);
    forall k | 0 <= k < |all| && ItemClash(kind, all[k], rows[i]) ensures Repeated(items, i) {
      assert k >= |left| && ItemClash(kind, rows[k - |left|], rows[i]);
      assert SameItem(items[k - |left|], items[i]);
    }
  }

  lemma RustdocRowsInsertable(files: map<int, File>, left: seq<Row>, kind: Kind, version: int, file: int, items: seq<Item>)
    requires forall k :: 0 <= k < |left| ==> !InScope(OfVersion(version, RUSTDOC), left[k])
    ensures Insertable(files, kind, left, RowsOf(kind, version, file, RUSTDOC, items)) <==>
              DistinctItems(items) && (kind == Traits || items == [] || file in files)
  {
    var rows := RowsOf(kind, version, file, RUSTDOC, items);
    forall i | 0 <= i < |items| ensures ClashesItem(kind, left + rows[..i], rows[i]) <==> Repeated(items, i) {
      RustdocRowClashes(left, kind, version, file, items, i);
    }
    assert forall i :: 0 <= i < |items| ==> (FileExists(files, rows[i]) <==> kind == Traits || file in files);
    if items != [] {
      assert FileExists(files, rows[0]) <==> kind == Traits || file in files;
    }
  }

  lemma RustdocBatchFits(t: Tables, version: int, file: int, batch: Batch, kind: Kind)
    ensures Fits(Cleared(t, OfVersion(version, RUSTDOC)), version, file, RUSTDOC, batch, kind) <==>
              && DistinctItems(ItemsOf(batch, kind))
              && (kind == Traits || ItemsOf(batch, kind) == [] || file in t.files)
  {
    var scope := OfVersion(version, RUSTDOC);
    var left := Pick(t.Of(kind), scope, false);
    PickedRows(t.Of(kind), scope, false);
    assert Cleared(t, scope).Of(kind) == left;
    forall k | 0 <= k < |left| ensures !InScope(scope, left[k]) {
      assert left[k] in left;
    }
    RustdocRowsInsertable(t.files, left, kind, version, file, ItemsOf(batch, kind));
  }

  /** A replacement of the rustdoc data of a version succeeds exactly when no table gets
      two rows for one item and the file exists, if it is needed; and then all four
      tables hold, for that version and source, the whole batch and nothing else. */
  lemma RustdocReplacementIsExact(t: Tables, version: int, file: int, batch: Batch)
    requires TablesInv(t)
    ensures Replaced(t, OfVersion(version, RUSTDOC), version, file, RUSTDOC, batch).Some? <==>
              forall kind: Kind ::
                && DistinctItems(ItemsOf(batch, kind))
                && (kind == Traits || ItemsOf(batch, kind) == [] || file in t.files)
    ensures Replaced(t, OfVersion(version, RUSTDOC), version, file, RUSTDOC, batch).Some? ==>
              forall kind: Kind ::
                Pick(Replaced(t, OfVersion(version, RUSTDOC), version, file, RUSTDOC, batch).value.Of(kind),
                     OfVersion(version, RUSTDOC), true)
                == RowsOf(kind, version, file, RUSTDOC, ItemsOf(batch, kind))
  {
    var scope := OfVersion(version, RUSTDOC);
    ReplaceSucceedsExactly(t, scope, version, file, RUSTDOC, batch);
    forall kind: Kind
      ensures Fits(Cleared(t, scope), version, file, RUSTDOC, batch, kind) <==>
                && DistinctItems(ItemsOf(batch, kind))
                && (kind == Traits || ItemsOf(batch, kind) == [] || file in t.files)
    {
      RustdocBatchFits(t, version, file, batch, kind);
    }
    if Replaced(t, scope, version, file, RUSTDOC, batch).Some? {
      forall kind: Kind
        ensures Pick(Replaced(t, scope, version, file, RUSTDOC, batch).value.Of(kind), scope, true)
             == RowsOf(kind, version, file, RUSTDOC, ItemsOf(batch, kind))
      {
        ReplaceLeavesTheBatch(t, scope, version, file, RUSTDOC, batch, kind);
        FreshRows(kind, Pick(t.Of(kind), scope, false), RowsOf(kind, version, file, RUSTDOC, ItemsOf(batch, kind)));
      }
    }
  }

  ghost predicate HoldsItems(rows: seq<Row>, version: int, file: Home, source: string, items: seq<Item>) {
    && |rows| == |items|
    && forall i :: 0 <= i < |items| ==>
         rows[i].version == version && rows[i].file == file && rows[i].source == source && rows[i].content == items[i]
  }

  /** So a rustdoc replacement can be read back: symbols, types and impls with their file,
      traits without, in the order of the batch. */
  lemma RustdocReplacementReadsBack(t: Tables, version: int, file: int, batch: Batch)
    requires TablesInv(t) && Replaced(t, OfVersion(version, RUSTDOC), version, file, RUSTDOC, batch).Some?
    ensures var t', scope := Replaced(t, OfVersion(version, RUSTDOC), version, file, RUSTDOC, batch).value, OfVersion(version, RUSTDOC);
            && HoldsItems(Pick(t'.symbols, scope, true), version, InFile(file), "rustdoc_json", batch.symbols)
            && HoldsItems(Pick(t'.types, scope, true), version, InFile(file), "rustdoc_json", batch.types)
            && HoldsItems(Pick(t'.impls, scope, true), version, InFile(file), "rustdoc_json", batch.impls)
            && HoldsItems(Pick(t'.traits, scope, true), version, NoFile, "rustdoc_json", batch.traits)
  {
    RustdocReplacementIsExact(t, version, file, batch);
    var t' := Replaced(t, OfVersion(version, RUSTDOC), version, file, RUSTDOC, batch).value;
    assert t'.Of(Symbols) == t'.symbols && t'.Of(Types) == t'.types && t'.Of(Impls) == t'.impls && t'.Of(Traits) == t'.traits;
  }

  // ---------------------------------------------------------------- pruning

  /** A path that belongs to rustdoc data, as the prune statements test it. */
  predicate RustdocPath(path: string) {
    LikeMatches(RUSTDOC_SOURCE_PATH_PREFIX + "%", path, Exact)
  }

  /** The test is for the prefix. */
  lemma RustdocPathIsAPrefixTest(path: string)
    ensures RustdocPath(path) <==>
              |RUSTDOC_SOURCE_PATH_PREFIX| <= |path|
              && path[..|RUSTDOC_SOURCE_PATH_PREFIX|] == RUSTDOC_SOURCE_PATH_PREFIX
  {
    PrefixPattern(RUSTDOC_SOURCE_PATH_PREFIX, path);
  }

  predicate IsStale(f: File, version: int, seen: seq<string>) {
    f.version == version && f.path !in seen && !RustdocPath(f.path)
  }

  function Stale(files: map<int, File>, version: int, seen: seq<string>): set<int> {
    set id | id in files && IsStale(files[id], version, seen)
  }

  function WithoutRows(t: Tables, scope: Scope): Tables {
    t.(symbols := Pick(t.symbols, scope, false), types := Pick(t.types, scope, false), impls := Pick(t.impls, scope, false))
  }

  /** Deleting files deletes the rows that point to them. */
  function WithoutFiles(t: Tables, files: set<int>): Tables {
    WithoutRows(t, OfFiles(files)).(files := map id | id in t.files && id !in files :: t.files[id])
  }

  /** Deletes the rows of some files of a version, and then the files. */
  function Dropped(t: Tables, version: int, files: set<int>): Tables {
    WithoutFiles(WithoutRows(t, OfVersionFiles(version, files)), files)
  }

  function Pruned(t: Tables, version: int, seen: seq<string>): Tables {
    Dropped(t, version, Stale(t.files, version, seen))
  }

  ghost predicate FilesOf(t: Tables, version: int, files: set<int>) {
    forall id :: id in files ==> id in t.files && t.files[id].version == version
  }

  lemma StaleFiles(t: Tables, version: int, seen: seq<string>)
    ensures FilesOf(t, version, Stale(t.files, version, seen))
  {
  }

  lemma RowsAtHome(t: Tables, kind: Kind)
    requires TablesInv(t)
    ensures TableInv(t.files, kind, t.Of(kind))
    ensures forall row :: row in t.Of(kind) ==> AtHome(t.files, kind, row)
  {
    assert TableInv(t.files, kind, t.Of(kind));
  }

  /** Deleting the rows first leaves nothing for the deletion of the files to cascade to. */
  lemma CascadeFindsNothing(t: Tables, version: int, files: set<int>, kind: Kind)
    requires TablesInv(t) && FilesOf(t, version, files)
    ensures Dropped(t, version, files).Of(kind) == WithoutRows(t, OfVersionFiles(version, files)).Of(kind)
  {
    if kind != Traits {
      var rest := Pick(t.Of(kind), OfVersionFiles(version, files), false);
      PickedRows(t.Of(kind), OfVersionFiles(version, files), false);
      RowsAtHome(t, kind);
      PickNone(rest, OfFiles(files), true);
    }
  }

  lemma DroppedRows(t: Tables, version: int, files: set<int>, kind: Kind)
    requires TablesInv(t) && FilesOf(t, version, files)
    ensures forall row :: row in Dropped(t, version, files).Of(kind) <==>
              row in t.Of(kind) && (row.file.InFile? ==> row.file.id in Dropped(t, version, files).files)
  {
    CascadeFindsNothing(t, version, files, kind);
    RowsAtHome(t, kind);
    if kind != Traits {
      PickedRows(t.Of(kind), OfVersionFiles(version, files), false);
    }
  }

  lemma DropOneTable(t: Tables, version: int, files: set<int>, kind: Kind)
    requires TablesInv(t) && FilesOf(t, version, files)
    ensures TableInv(Dropped(t, version, files).files, kind, Dropped(t, version, files).Of(kind))
  {
    RowsAtHome(t, kind);
    DroppedRows(t, version, files, kind);
    CascadeFindsNothing(t, version, files, kind);
    if kind != Traits {
      PickKeepsTable(t.files, kind, t.Of(kind), OfVersionFiles(version, files), false);
    }
    StillAtHome(t.files, Dropped(t, version, files).files, kind, Dropped(t, version, files).Of(kind));
  }

  lemma StillAtHome(files: map<int, File>, files': map<int, File>, kind: Kind, table: seq<Row>)
    requires TableInv(files, kind, table)
    requires forall id :: id in files' ==> id in files && files'[id] == files[id]
    requires forall row :: row in table && row.file.InFile? ==> row.file.id in files'
    ensures TableInv(files', kind, table)
  {
    forall i | 0 <= i < |table| ensures AtHome(files', kind, table[i]) {
      assert table[i] in table;
    }
  }

  lemma DroppedKeepsInv(t: Tables, version: int, files: set<int>)
    requires TablesInv(t) && FilesOf(t, version, files)
    ensures TablesInv(Dropped(t, version, files))
  {
    var t' := Dropped(t, version, files);
    forall kind: Kind ensures TableInv(t'.files, kind, t'.Of(kind)) {
      DropOneTable(t, version, files, kind);
    }
  }

  /** What pruning deletes, exactly: the files of the version that were not seen and
      are not rustdoc data, and the rows that lie in them. */
  lemma PruneDeletesWhatIsStale(t: Tables, version: int, seen: seq<string>)
    requires TablesInv(t)
    ensures TablesInv(Pruned(t, version, seen))
    ensures var t' := Pruned(t, version, seen);
            && (forall id :: id in t'.files <==>
                  id in t.files
                  && (t.files[id].version != version || t.files[id].path in seen || "rustdoc-json/" <= t.files[id].path))
            && (forall id :: id in t'.files ==> t'.files[id] == t.files[id])
            && (forall kind: Kind, row :: row in t'.Of(kind) <==>
                  row in t.Of(kind) && (row.file.InFile? ==> row.file.id in t'.files))
  {
    var files := Stale(t.files, version, seen);
    StaleFiles(t, version, seen);
    forall id | id in t.files
      ensures IsStale(t.files[id], version, seen) <==>
                t.files[id].version == version && t.files[id].path !in seen && !("rustdoc-json/" <= t.files[id].path)
    {
      RustdocPathIsAPrefixTest(t.files[id].path);
    }
    DroppedKeepsInv(t, version, files);
    forall kind: Kind
      ensures forall row :: row in Dropped(t, version, files).Of(kind) <==>
                row in t.Of(kind) && (row.file.InFile? ==> row.file.id in Dropped(t, version, files).files)
    {
      DroppedRows(t, version, files, kind);
    }
  }

  lemma {:induction false} PickElsewhere(table: seq<Row>, scope: Scope, other: Scope)
    requires forall row :: row in table && InScope(scope, row) ==> !InScope(other, row)
    ensures Pick(Pick(table, scope, false), other, true) == Pick(table, other, true)
  {
    if table != [] {
      var before, last := table[..|table| - 1], table[|table| - 1];
      PickElsewhere(before, scope, other);
      var rest := Pick(before, scope, false);
      if InScope(scope, last) {
        assert rest + [] == rest && Pick(before, other, true) + [] == Pick(before, other, true);
      } else {
        assert (rest + [last])[..|rest|] == rest;
      }
    }
  }

  // ---------------------------------------------------------------- runs

  ghost function FileAt(files: map<int, File>, version: int, path: string): Option<int> {
    if id :| id in files && files[id] == File(version, path) then Some(id) else None
  }

  ghost function Upserted(t: Tables, version: int, path: string): Tables {
    if FileAt(t.files, version, path).Some? then t
    else t.(files := t.files[t.nextId := File(version, path)], nextId := t.nextId + 1)
  }

  datatype Op =
    | Upsert(version: int, path: string)
    | ReplaceFile(version: int, file: int, source: string, batch: Batch)
    | ReplaceVersion(version: int, file: int, source: string, batch: Batch)
    | Prune(version: int, seen: seq<string>)

  ghost predicate Allowed(t: Tables, op: Op) {
    op.ReplaceFile? || op.ReplaceVersion? ==> OwnFile(t, op.version, op.file)
  }

  function Committed(t: Tables, result: Option<Tables>): Tables {
    if result.Some? then result.value else t
  }

  ghost function Apply(t: Tables, op: Op): Tables {
    match op
    case Upsert(version, path) => Upserted(t, version, path)
    case ReplaceFile(version, file, source, batch) =>
      Committed(t, Replaced(t, OfFile(file), version, file, source, batch))
    case ReplaceVersion(version, file, source, batch) =>
      Committed(t, Replaced(t, OfVersion(version, source), version, file, source, batch))
    case Prune(version, seen) => Pruned(t, version, seen)
  }

  ghost predicate IsRun(states: seq<Tables>, ops: seq<Op>) {
    && |states| == |ops| + 1
    && forall i :: 0 <= i < |ops| ==> Allowed(states[i], ops[i]) && states[i + 1] == Apply(states[i], ops[i])
  }

  lemma UpsertKeepsInv(t: Tables, version: int, path: string)
    requires TablesInv(t)
    ensures TablesInv(Upserted(t, version, path))
  {
    var t' := Upserted(t, version, path);
    assert FilesInv(t'.files, t'.nextId);
    forall kind: Kind ensures TableInv(t'.files, kind, t'.Of(kind)) {
      assert TableInv(t.files, kind, t.Of(kind)) && t'.Of(kind) == t.Of(kind);
      assert forall id :: id in t.files ==> id in t'.files && t'.files[id] == t.files[id];
    }
  }

  lemma StepKeepsInv(t: Tables, op: Op)
    requires TablesInv(t) && Allowed(t, op)
    ensures TablesInv(Apply(t, op))
  {
    match op {
      case Upsert(version, path) => UpsertKeepsInv(t, version, path);
      case ReplaceFile(version, file, source, batch) =>
        if Replaced(t, OfFile(file), version, file, source, batch).Some? {
          ReplaceKeepsInv(t, OfFile(file), version, file, source, batch);
        }
      case ReplaceVersion(version, file, source, batch) =>
        if Replaced(t, OfVersion(version, source), version, file, source, batch).Some? {
          ReplaceKeepsInv(t, OfVersion(version, source), version, file, source, batch);
        }
      case Prune(version, seen) => PruneDeletesWhatIsStale(t, version, seen);
    }
  }

  /** Over any sequence of operations every symbol, type and impl row lies in an
      existing file of its own version, and the uniqueness constraints hold. */
  lemma {:induction false} RunKeepsInv(states: seq<Tables>, ops: seq<Op>, i: nat)
    requires IsRun(states, ops) && TablesInv(states[0]) && i < |states|
    ensures TablesInv(states[i])
  {
    if i > 0 {
      RunKeepsInv(states, ops, i - 1);
      StepKeepsInv(states[i - 1], ops[i - 1]);
    }
  }

  /** The rustdoc rows of a file, or for traits, which have no file, those of its version. */
  function RustdocScope(kind: Kind, version: int, file: int): Scope {
    if kind == Traits then OfVersion(version, RUSTDOC) else OfFileFrom(file, RUSTDOC)
  }

  function RustdocRows(t: Tables, kind: Kind, version: int, file: int): seq<Row> {
    Pick(t.Of(kind), RustdocScope(kind, version, file), true)
  }

  /** The operation does not replace the rustdoc rows of the file, and adds no rustdoc
      traits to its version. */
  predicate Spares(op: Op, kind: Kind, version: int, file: int) {
    match op
    case ReplaceFile(v, at, source, batch) => SparesFile(kind, v, at, source, batch, version, file)
    case ReplaceVersion(v, _, source, _) => v != version || source != RUSTDOC
    case _ => true
  }

  predicate SparesFile(kind: Kind, v: int, at: int, source: string, batch: Batch, version: int, file: int) {
    if kind == Traits then v != version || source != RUSTDOC || batch.traits == [] else at != file
  }

  lemma PruneSparesRustdoc(t: Tables, version: int, seen: seq<string>, kind: Kind, file: int)
    requires TablesInv(t) && file in t.files && RustdocPath(t.files[file].path)
    ensures file in Pruned(t, version, seen).files && Pruned(t, version, seen).files[file] == t.files[file]
    ensures RustdocRows(Pruned(t, version, seen), kind, t.files[file].version, file)
         == RustdocRows(t, kind, t.files[file].version, file)
  {
    StaleFiles(t, version, seen);
    CascadeFindsNothing(t, version, Stale(t.files, version, seen), kind);
    if kind != Traits {
      PickElsewhere(t.Of(kind), OfVersionFiles(version, Stale(t.files, version, seen)), OfFileFrom(file, RUSTDOC));
    }
  }

  lemma AppendElsewhere(table: seq<Row>, added: seq<Row>, scope: Scope)
    requires forall row :: row in added ==> !InScope(scope, row)
    ensures Pick(table + added, scope, true) == Pick(table, scope, true)
  {
    PickConcat(table, added, scope, true);
    PickNone(added, scope, true);
  }

  lemma RowsElsewhere(kind: Kind, v: int, at: int, source: string, items: seq<Item>, version: int, file: int)
    requires if kind == Traits then v != version || source != RUSTDOC || items == [] else at != file || source != RUSTDOC
    ensures forall row :: row in RowsOf(kind, v, at, source, items) ==> !InScope(RustdocScope(kind, version, file), row)
  {
  }

  /** The replacement is not one of the rustdoc rows in question. */
  predicate SparesScope(scope: Scope, kind: Kind, v: int, at: int, source: string, batch: Batch, version: int,
                        file: int)
  {
    if scope.OfFile? then SparesFile(kind, v, at, source, batch, version, file) else v != version || source != RUSTDOC
  }

  lemma ClearSparesRustdoc(t: Tables, scope: Scope, v: int, at: int, source: string, batch: Batch, kind: Kind, file: int)
    requires TablesInv(t) && file in t.files && ReplaceScope(scope, v, at, source)
    requires SparesScope(scope, kind, v, at, source, batch, t.files[file].version, file)
    ensures RustdocRows(Cleared(t, scope), kind, t.files[file].version, file)
         == RustdocRows(t, kind, t.files[file].version, file)
  {
    RowsAtHome(t, kind);
    if kind != Traits || scope.OfVersion? {
      PickElsewhere(t.Of(kind), scope, RustdocScope(kind, t.files[file].version, file));
    }
  }

  lemma ReplaceSparesRustdoc(t: Tables, scope: Scope, v: int, at: int, source: string, batch: Batch,
                             kind: Kind, file: int)
    requires TablesInv(t) && file in t.files && OwnFile(t, v, at) && ReplaceScope(scope, v, at, source)
    requires SparesScope(scope, kind, v, at, source, batch, t.files[file].version, file)
    requires Replaced(t, scope, v, at, source, batch).Some?
    ensures RustdocRows(Replaced(t, scope, v, at, source, batch).value, kind, t.files[file].version, file)
         == RustdocRows(t, kind, t.files[file].version, file)
  {
    var version := t.files[file].version;
    var left := Cleared(t, scope).Of(kind);
    var rows := RowsOf(kind, v, at, source, ItemsOf(batch, kind));
    ReplacedTable(t, scope, v, at, source, batch, kind);
    FreshRows(kind, left, rows);
    ClearSparesRustdoc(t, scope, v, at, source, batch, kind, file);
    RowsElsewhere(kind, v, at, source, ItemsOf(batch, kind), version, file);
    AppendElsewhere(left, Fresh(kind, left, rows), RustdocScope(kind, version, file));
  }

  lemma StepSparesRustdoc(t: Tables, op: Op, kind: Kind, file: int)
    requires TablesInv(t) && Allowed(t, op) && file in t.files && RustdocPath(t.files[file].path)
    requires Spares(op, kind, t.files[file].version, file)
    ensures file in Apply(t, op).files && Apply(t, op).files[file] == t.files[file]
    ensures RustdocRows(Apply(t, op), kind, t.files[file].version, file)
         == RustdocRows(t, kind, t.files[file].version, file)
  {
    match op {
      case Upsert(_, _) =>
      case ReplaceFile(version, at, source, batch) =>
        if Replaced(t, OfFile(at), version, at, source, batch).Some? {
          ReplaceSparesRustdoc(t, OfFile(at), version, at, source, batch, kind, file);
        }
      case ReplaceVersion(version, at, source, batch) =>
        if Replaced(t, OfVersion(version, source), version, at, source, batch).Some? {
          ReplaceSparesRustdoc(t, OfVersion(version, source), version, at, source, batch, kind, file);
        }
      case Prune(version, seen) => PruneSparesRustdoc(t, version, seen, kind, file);
    }
  }

  /** Rustdoc files, the rustdoc rows in them and the rustdoc traits of their version come
      unchanged through every prune, every upsert and every replacement of other rows,
      however many there are. */
  lemma {:induction false} RustdocDataSurvives(states: seq<Tables>, ops: seq<Op>, i: nat, j: nat, kind: Kind, file: int)
    requires IsRun(states, ops) && TablesInv(states[0]) && i <= j < |states|
    requires file in states[i].files && RustdocPath(states[i].files[file].path)
    requires forall k :: i <= k < j ==> Spares(ops[k], kind, states[i].files[file].version, file)
    ensures file in states[j].files && states[j].files[file] == states[i].files[file]
    ensures RustdocRows(states[j], kind, states[i].files[file].version, file)
         == RustdocRows(states[i], kind, states[i].files[file].version, file)
  {
    if i < j {
      RustdocDataSurvives(states, ops, i, j - 1, kind, file);
      RunKeepsInv(states, ops, j - 1);
      StepSparesRustdoc(states[j - 1], ops[j - 1], kind, file);
    }
  }

  // ---------------------------------------------------------------- the database

  lemma {:induction false} FailurePersists(files: map<int, File>, kind: Kind, table: seq<Row>, rows: seq<Row>, n: nat)
    requires n <= |rows| && InsertedAll(files, kind, table, rows[..n]).None?
    ensures InsertedAll(files, kind, table, rows).None?
  {
    if n < |rows| {
      var before := rows[..|rows| - 1];
      assert before[..n] == rows[..n];
      FailurePersists(files, kind, table, before, n);
    } else {
      assert rows[..n] == rows;
    }
  }

  lemma InsertedNext(files: map<int, File>, kind: Kind, table: seq<Row>, rows: seq<Row>, i: nat)
    requires i < |rows|
    ensures InsertedAll(files, kind, table, rows[..i + 1])
         == match InsertedAll(files, kind, table, rows[..i])
            case None => None
            case Some(t) => Inserted(files, kind, t, rows[i])
  {
    assert rows[..i + 1][..i] == rows[..i] && rows[..i + 1][i] == rows[i];
  }

  class IndexStore {
    var tables: Tables

    constructor ()
      ensures TablesInv(tables) && tables == Tables(map[], 0, [], [], [], [])
    {
      tables := Tables(map[], 0, [], [], [], []);
    }

    /** Finds or adds the file with a path. */
    method UpsertSourceFile(version: int, path: string) returns (id: int)
      requires TablesInv(tables)
      modifies this
      ensures TablesInv(tables) && tables == Apply(old(tables), Upsert(version, path))
      ensures id in tables.files && tables.files[id] == File(version, path)
    {
      UpsertKeepsInv(tables, version, path);
      if existing :| existing in tables.files && tables.files[existing] == File(version, path) {
        return existing;
      }
      id := tables.nextId;
      tables := tables.(files := tables.files[id := File(version, path)], nextId := id + 1);
    }

    method ClearSourceFileIndexRows(file: int)
      modifies this
      ensures tables == Cleared(old(tables), OfFile(file))
    {
      tables := tables.(symbols := Pick(tables.symbols, OfFile(file), false));
      tables := tables.(types := Pick(tables.types, OfFile(file), false));
      tables := tables.(impls := Pick(tables.impls, OfFile(file), false));
    }

    method ClearCrateVersionIndexRows(version: int, source: string)
      modifies this
      ensures tables == Cleared(old(tables), OfVersion(version, source))
    {
      var scope := OfVersion(version, source);
      tables := tables.(symbols := Pick(tables.symbols, scope, false));
      tables := tables.(types := Pick(tables.types, scope, false));
      tables := tables.(impls := Pick(tables.impls, scope, false));
      tables := tables.(traits := Pick(tables.traits, scope, false));
    }

    /** Inserts one item after the other, until one fails. Skipped types count too. */
    method InsertRows(kind: Kind, version: int, file: int, source: string, items: seq<Item>)
      returns (ok: bool, count: nat)
      modifies this
      ensures var result := InsertedAll(old(tables).files, kind, old(tables).Of(kind),
                                        RowsOf(kind, version, file, source, items));
              && ok == result.Some?
              && (ok ==> tables == old(tables).With(kind, result.value) && count == |items|)
    {
      ghost var rows := RowsOf(kind, version, file, source, items);
      count := 0;
      for i := 0 to |items|
        invariant count == i
        invariant tables == old(tables).With(kind, tables.Of(kind))
        invariant InsertedAll(old(tables).files, kind, old(tables).Of(kind), rows[..i]) == Some(tables.Of(kind))
      {
        InsertedNext(old(tables).files, kind, old(tables).Of(kind), rows, i);
        var after := Inserted(tables.files, kind, tables.Of(kind), RowOf(kind, version, file, source, items[i]));
        if after.None? {
          FailurePersists(old(tables).files, kind, old(tables).Of(kind), rows, i + 1);
          return false, count;
        }
        tables := tables.With(kind, after.value);
        count := count + 1;
      }
      assert rows[..|items|] == rows;
      return true, count;
    }

    method InsertIndexedExtractionBatch(version: int, file: int, source: string, batch: Batch)
      returns (counts: Option<Counts>)
      modifies this
      ensures counts.Some? <==> WithBatch(old(tables), version, file, source, batch).Some?
      ensures counts.Some? ==> Some(tables) == WithBatch(old(tables), version, file, source, batch)
      ensures counts.Some? ==>
                counts.value == ReportedCounts(batch)
    {
      var ok, symbols := InsertRows(Symbols, version, file, source, batch.symbols);
      if !ok {
        return None;
      }
      var types;
      ok, types := InsertRows(Types, version, file, source, batch.types);
      if !ok {
        return None;
      }
      var impls;
      ok, impls := InsertRows(Impls, version, file, source, batch.impls);
      if !ok {
        return None;
      }
      var traits;
      ok, traits := InsertRows(Traits, version, file, source, batch.traits);
      if !ok {
        return None;
      }
      return Some(Counts(symbols, types, impls, traits));
    }

    method ReplaceSourceFileIndexRows(version: int, file: int, source: string, batch: Batch)
      returns (counts: Option<Counts>)
      requires TablesInv(tables) && OwnFile(tables, version, file)
      modifies this
      ensures TablesInv(tables) && tables == Apply(old(tables), ReplaceFile(version, file, source, batch))
      ensures counts.Some? <==> Replaced(old(tables), OfFile(file), version, file, source, batch).Some?
      ensures counts.Some? ==>
                counts.value == ReportedCounts(batch)
    {
      StepKeepsInv(tables, ReplaceFile(version, file, source, batch));
      var begin := tables;
      ClearSourceFileIndexRows(file);
      counts := InsertIndexedExtractionBatch(version, file, source, batch);
      if counts.None? {
        tables := begin;
      }
    }

    method ReplaceCrateVersionIndexRows(version: int, file: int, source: string, batch: Batch)
      returns (counts: Option<Counts>)
      requires TablesInv(tables) && OwnFile(tables, version, file)
      modifies this
      ensures TablesInv(tables) && tables == Apply(old(tables), ReplaceVersion(version, file, source, batch))
      ensures counts.Some? <==> Replaced(old(tables), OfVersion(version, source), version, file, source, batch).Some?
      ensures counts.Some? ==>
                counts.value == ReportedCounts(batch)
    {
      StepKeepsInv(tables, ReplaceVersion(version, file, source, batch));
      var begin := tables;
      ClearCrateVersionIndexRows(version, source);
      counts := InsertIndexedExtractionBatch(version, file, source, batch);
      if counts.None? {
        tables := begin;
      }
    }

    /** Deletes stale rows table by table, then the stale files, and says how many
        files these were. */
    method PruneSourceFileIndexAndFiles(version: int, seen: seq<string>) returns (deleted: nat)
      requires TablesInv(tables)
      modifies this
      ensures TablesInv(tables) && tables == Apply(old(tables), Prune(version, seen))
      ensures deleted == |Stale(old(tables).files, version, seen)|
    {
      StepKeepsInv(tables, Prune(version, seen));
      var scope := OfVersionFiles(version, Stale(tables.files, version, seen));
      tables := tables.(symbols := Pick(tables.symbols, scope, false));
      tables := tables.(types := Pick(tables.types, scope, false));
      tables := tables.(impls := Pick(tables.impls, scope, false));
      var stale := Stale(tables.files, version, seen);
      tables := WithoutFiles(tables, stale);
      deleted := |stale|;
    }
  }
}
