/**
 What a replacement of index rows reports, and what repeating it does.
 */
module IndexReplacement {
  import opened Options
  import opened IndexTables

  // ---------------------------------------------------------------- reported and written

  /** No row is skipped. */
  ghost predicate NoneSkipped(kind: Kind, table: seq<Row>, rows: seq<Row>) {
    forall i :: 0 <= i < |rows| ==> !ClashesName(kind, table + rows[..i], rows[i])
  }

  lemma NoneSkippedPrefix(kind: Kind, table: seq<Row>, rows: seq<Row>)
    requires rows != []
    ensures var before, last := rows[..|rows| - 1], rows[|rows| - 1];
            NoneSkipped(kind, table, rows) <==> NoneSkipped(kind, table, before) && !ClashesName(kind, table + before, last)
  {
    var n := |rows| - 1;
    assert forall i :: 0 <= i < n ==> rows[..n][..i] == rows[..i] && rows[..n][i] == rows[i];
    assert forall i :: 0 <= i < n ==>
             ClashesName(kind, table + rows[..n][..i], rows[..n][i]) == ClashesName(kind, table + rows[..i], rows[i]);
  }

  lemma {:induction false} FreshLength(kind: Kind, table: seq<Row>, rows: seq<Row>)
    ensures |Fresh(kind, table, rows)| <= |rows|
    ensures |Fresh(kind, table, rows)| == |rows| <==> NoneSkipped(kind, table, rows)
  {
    if rows != [] {
      FreshLength(kind, table, rows[..|rows| - 1]);
      NoneSkippedPrefix(kind, table, rows);
    }
  }

  ghost predicate DistinctRows(kind: Kind, rows: seq<Row>) {
    forall i, j :: 0 <= i < j < |rows| ==> !NameClash(kind, rows[i], rows[j])
  }

  lemma NoneSkippedMeans(kind: Kind, table: seq<Row>, rows: seq<Row>)
    ensures NoneSkipped(kind, table, rows) <==> Free(kind, table, rows) && DistinctRows(kind, rows)
  {
    forall i | 0 <= i < |rows|
      ensures ClashesName(kind, table + rows[..i], rows[i]) <==>
                ClashesName(kind, table, rows[i]) || exists j :: 0 <= j < i && NameClash(kind, rows[j], rows[i])
    {
      ClashesPrefix(kind, table, rows, i);
    }
  }

  lemma ClashesPrefix(kind: Kind, table: seq<Row>, rows: seq<Row>, i: nat)
    requires i < |rows|
    ensures ClashesName(kind, table + rows[..i], rows[i]) <==>
              ClashesName(kind, table, rows[i]) || exists j :: 0 <= j < i && NameClash(kind, rows[j], rows[i])
  {
    var all := table + rows[..i];
    assert forall k :: 0 <= k < |table| ==> all[k] == table[k];
    assert forall j :: 0 <= j < i ==> all[|table| + j] == rows[j];
    assert forall k :: 0 <= k < |all| && NameClash(kind, all[k], rows[i]) ==>
             k < |table| || NameClash(kind, rows[k - |table|], rows[i]);
  }

  lemma DistinctRowsMeans(version: int, file: int, source: string, items: seq<Item>)
    requires source != RUSTDOC
    ensures DistinctRows(Types, RowsOf(Types, version, file, source, items)) <==> DistinctNames(items)
  {
    var rows := RowsOf(Types, version, file, source, items);
    assert forall i, j :: 0 <= i < j < |items| ==> NameClash(Types, rows[i], rows[j]) == SameName(items[i], items[j]);
  }

  /** Within its own file a file-level replacement finds every name free. */
  lemma ClearedFileIsFree(table: seq<Row>, version: int, file: int, source: string, items: seq<Item>)
    ensures Free(Types, Pick(table, OfFile(file), false), RowsOf(Types, version, file, source, items))
  {
    var left := Pick(table, OfFile(file), false);
    PickedRows(table, OfFile(file), false);
    forall k | 0 <= k < |left| ensures left[k].file != InFile(file) {
      assert left[k] in left;
    }
  }

  lemma FreshTypesLength(left: seq<Row>, version: int, file: int, source: string, items: seq<Item>)
    ensures var rows := RowsOf(Types, version, file, source, items);
            && |Fresh(Types, left, rows)| <= |items|
            && (|Fresh(Types, left, rows)| == |items| <==>
                  source == RUSTDOC || (DistinctNames(items) && Free(Types, left, rows)))
  {
    var rows := RowsOf(Types, version, file, source, items);
    FreshLength(Types, left, rows);
    if source == RUSTDOC {
      FreshRows(Types, left, rows);
    } else {
      NoneSkippedMeans(Types, left, rows);
      DistinctRowsMeans(version, file, source, items);
    }
  }

  /** When the number of types that a replacement reports is the number it writes: always
      for rustdoc; otherwise, at file level, exactly when the names of the batch are
      distinct, and at version level exactly when they are also not taken, in that file,
      by rows of yet another source. */
  lemma ReportedTypesAreWrittenExactlyWhen(t: Tables, scope: Scope, version: int, file: int, source: string, batch: Batch)
    requires TablesInv(t) && ReplaceScope(scope, version, file, source)
    requires Replaced(t, scope, version, file, source, batch).Some?
    ensures |Pick(Replaced(t, scope, version, file, source, batch).value.types, scope, true)| <= ReportedCounts(batch).types
    ensures |Pick(Replaced(t, scope, version, file, source, batch).value.types, scope, true)| == ReportedCounts(batch).types
       <==> source == RUSTDOC
            || (DistinctNames(batch.types)
                && (scope.OfVersion? ==>
                      Free(Types, Pick(t.types, scope, false), RowsOf(Types, version, file, source, batch.types))))
  {
    var left, rows := Pick(t.types, scope, false), RowsOf(Types, version, file, source, batch.types);
    ReplaceLeavesTheBatch(t, scope, version, file, source, batch, Types);
    FreshTypesLength(left, version, file, source, batch.types);
    if scope.OfFile? {
      ClearedFileIsFree(t.types, version, file, source, batch.types);
    }
  }

  /** The other counts are always those of the rows written. */
  lemma OtherCountsAreExact(t: Tables, scope: Scope, version: int, file: int, source: string, batch: Batch)
    requires TablesInv(t) && ReplaceScope(scope, version, file, source)
    requires Replaced(t, scope, version, file, source, batch).Some?
    ensures var t', counts := Replaced(t, scope, version, file, source, batch).value, ReportedCounts(batch);
            && |Pick(t'.symbols, scope, true)| == counts.symbols && |Pick(t'.impls, scope, true)| == counts.impls
            && (if scope.OfVersion? then |Pick(t'.traits, scope, true)| else |t'.traits| - |t.traits|) == counts.traits
  {
    forall kind: Kind
      ensures kind != Types ==>
                Fresh(kind, Pick(t.Of(kind), scope, false), RowsOf(kind, version, file, source, ItemsOf(batch, kind)))
                == RowsOf(kind, version, file, source, ItemsOf(batch, kind))
    {
      FreshRows(kind, Pick(t.Of(kind), scope, false), RowsOf(kind, version, file, source, ItemsOf(batch, kind)));
    }
    ReplaceLeavesTheBatch(t, scope, version, file, source, batch, Symbols);
    ReplaceLeavesTheBatch(t, scope, version, file, source, batch, Impls);
    ReplaceLeavesTheBatch(t, scope, version, file, source, batch, Traits);
  }

  // ---------------------------------------------------------------- where it goes wrong

  function OneType(item: Item): Batch {
    Batch([], [item], [], [])
  }

  /** One file that holds one type, found by some source. */
  function HoldsOne(version: int, path: string, source: string, item: Item): Tables {
    Tables(map[0 := File(version, path)], 1, [], [Row(version, InFile(0), source, item)], [], [])
  }

  /** A version-level replacement that reports a type and writes none: another source
      holds a type of that name in the file. */
  lemma TakenTypeIsReportedButNotWritten(version: int, path: string, other: string, source: string, item: Item, again: Item)
    requires other != source && other != RUSTDOC && source != RUSTDOC && SameName(item, again)
    ensures var t, scope := HoldsOne(version, path, other, item), OfVersion(version, source);
            && TablesInv(t) && OwnFile(t, version, 0) && DistinctNames([again])
            && Replaced(t, scope, version, 0, source, OneType(again)) == Some(t)
            && ReportedCounts(OneType(again)).types == 1 && Pick(t.types, scope, true) == []
            && RowsOf(Types, version, 0, source, FirstOfEach([again])) != []
  {
    var t, scope := HoldsOne(version, path, other, item), OfVersion(version, source);
    assert forall kind: Kind :: TableInv(t.files, kind, t.Of(kind));
    PickUniform(t.types, scope, false);
    assert Cleared(t, scope) == t;
    var rows := RowsOf(Types, version, 0, source, [again]);
    assert rows == [RowOf(Types, version, 0, source, again)] && rows[..0] == [];
    assert NameClash(Types, t.types[0], rows[0]) && ClashesName(Types, t.types, rows[0]);
    assert InsertedAll(t.files, Types, t.types, rows) == Some(t.types);
    NothingToInsert(t, Symbols, version, source);
    NothingToInsert(t, Impls, version, source);
    NothingToInsert(t, Traits, version, source);
    assert [again][..0] == [];
  }

  lemma NothingToInsert(t: Tables, kind: Kind, version: int, source: string)
    ensures InsertedAll(t.files, kind, t.Of(kind), RowsOf(kind, version, 0, source, [])) == Some(t.Of(kind))
  {
    assert RowsOf(kind, version, 0, source, []) == [];
  }

  // ---------------------------------------------------------------- repeating a replacement

  /** Repeating a version-level replacement changes nothing. */
  lemma VersionReplacementIsIdempotent(t: Tables, version: int, file: int, source: string, batch: Batch)
    requires TablesInv(t) && Replaced(t, OfVersion(version, source), version, file, source, batch).Some?
    ensures var t' := Replaced(t, OfVersion(version, source), version, file, source, batch).value;
            Replaced(t', OfVersion(version, source), version, file, source, batch) == Some(t')
  {
    var scope := OfVersion(version, source);
    ReplaceLeavesTheBatch(t, scope, version, file, source, batch, Symbols);
    ReplaceLeavesTheBatch(t, scope, version, file, source, batch, Types);
    ReplaceLeavesTheBatch(t, scope, version, file, source, batch, Impls);
    ReplaceLeavesTheBatch(t, scope, version, file, source, batch, Traits);
    assert Cleared(Replaced(t, scope, version, file, source, batch).value, scope) == Cleared(t, scope);
  }

  ghost predicate NoTraitIds(batch: Batch) {
    forall i :: 0 <= i < |batch.traits| ==> batch.traits[i].item.None?
  }

  /** Trait rows can be inserted a second time exactly when none has an item id. */
  lemma TraitsTwice(files: map<int, File>, table: seq<Row>, version: int, file: int, source: string, items: seq<Item>)
    ensures var rows := RowsOf(Traits, version, file, source, items);
            Insertable(files, Traits, table + rows, rows) <==> forall i :: 0 <= i < |items| ==> items[i].item.None?
  {
    var rows := RowsOf(Traits, version, file, source, items);
    forall i | 0 <= i < |items|
      ensures ClashesItem(Traits, (table + rows) + rows[..i], rows[i]) <==> items[i].item.Some?
    {
      var all := (table + rows) + rows[..i];
      assert all[|table| + i] == rows[i];
      assert ItemClash(Traits, rows[i], rows[i]) <==> items[i].item.Some?;
    }
  }

  /** Repeating a file-level replacement adds its traits a second time, or fails if one of
      them has an item id. So it leaves the tables as they are exactly when the batch has
      no traits or one with an item id. */
  lemma FileReplacementRepeated(t: Tables, version: int, file: int, source: string, batch: Batch)
    requires TablesInv(t) && OwnFile(t, version, file)
    requires Replaced(t, OfFile(file), version, file, source, batch).Some?
    ensures var t' := Replaced(t, OfFile(file), version, file, source, batch).value;
            && Replaced(t', OfFile(file), version, file, source, batch)
               == (if NoTraitIds(batch)
                   then Some(t'.(traits := t'.traits + RowsOf(Traits, version, file, source, batch.traits)))
                   else None)
            && (Committed(t', Replaced(t', OfFile(file), version, file, source, batch)) == t'
                <==> batch.traits == [] || !NoTraitIds(batch))
  {
    var scope, rows := OfFile(file), RowsOf(Traits, version, file, source, batch.traits);
    var t' := Replaced(t, scope, version, file, source, batch).value;
    ReplaceKeepsInv(t, scope, version, file, source, batch);
    ReplaceLeavesTheBatch(t, scope, version, file, source, batch, Symbols);
    ReplaceLeavesTheBatch(t, scope, version, file, source, batch, Types);
    ReplaceLeavesTheBatch(t, scope, version, file, source, batch, Impls);
    ReplaceLeavesTheBatch(t, scope, version, file, source, batch, Traits);
    assert Cleared(t', scope) == Cleared(t, scope).(traits := t'.traits);
    RowsAtHome(t', Traits);
    InsertedAllExactly(t'.files, Traits, t'.traits, rows);
    TraitsTwice(t'.files, t.traits, version, file, source, batch.traits);
    FreshRows(Traits, t'.traits, rows);
    assert |t'.traits + rows| == |t'.traits| + |rows|;
  }
}
