/** What an adopting boot takes the computed layer's tables for: where the layer fills a table, the table in the
    file is yolo's own earlier output and is not adopted; where the layer leaves it empty, it is the user's. */
module Regenerated {
  import opened Values
  import opened Engine
  import opened Enforce
  import opened LiteralNull
  import opened Narrow
  import opened Reading
  import opened Writing
  import opened Compose
  import opened StateRender
  import opened BootRuns
  import opened Survival

  /** Adoption: there is no baseline to trust, and there is a file. */
  ghost predicate FirstBoot(l: Layers, disk: Disk) {
    Read(l, disk.lastRender).None? && Read(l, disk.file).Some? && BootSpec(l, disk).Ok?
  }

  /** On a key computed fills, adoption stores nothing, and the render is the layers' own, with the file's literal
      nulls: a stale entry of the file, of a server long dropped, does not come back. */
  lemma {:induction false} FilledTableIsFresh(l: Layers, disk: Disk, k: string)
    requires FirstBoot(l, disk) && l.computed.Object? && k in l.computed.fields
    requires l.computed.fields[k].Object? && l.computed.fields[k].fields != map[]
    ensures k !in BootSpec(l, disk).value.overlay
    ensures Foldable(l.computed)
    ensures Tabular(l) ==>
              Child(Some(BootSpec(l, disk).value.config), k) == Child(Some(ConfigOf(l, Null, Skeleton(Read(l, disk.file).value))), k)
  {
    BootOk(l, disk);
    assert At(Decided(l, disk), k).None?;
    if Tabular(l) {
      NarrowedAt(l, Decided(l, disk), k);
      KeyFromNarrowed(l, disk, k);
      ConfigByKey(l, Null, Skeleton(Read(l, disk.file).value), k);
    } else {
      NotTabularKeepsNothing(l, Decided(l, disk));
    }
  }

  /** On a key computed holds as an empty table, and managed does not mention, a table of the file is adopted entry
      by entry: each is rendered whole, exactly when it is adoptable. */
  lemma {:induction false} EmptyTableIsAdopted(l: Layers, disk: Disk, k: string, j: string)
    requires FirstBoot(l, disk) && Tabular(l) && l.computed.Object? && At(l.computed.fields, k) == Some(Object(map[]))
    requires Child(Present(l.surface.managed), k).None?
    requires IsObject(At(Read(l, disk.file).value, k)) && Child(At(Read(l, disk.file).value, k), j).Some?
    ensures var file, render := Child(At(Read(l, disk.file).value, k), j), Child(Child(Some(BootSpec(l, disk).value.config), k), j);
            Preserves(None, RereadAt(Json, file), RereadAt(Json, render)) <==> Adoptable(Child(At(Lower(l), k), j), file)
  {
    var c, b, f := l.surface.codec, At(Lower(l), k), At(Read(l, disk.file).value, k);
    BootOk(l, disk);
    EmptyTableRender(l, disk, k, j);
    AfterAdoptionReads(c, Child(b, j), Child(f, j));
    FoldNullFree(Tables(LowerLayers(l)));
    assert b == Child(Some(Object(Lower(l))), k);
    assert NullFree(Child(b, j));
    NullFreeReread(Json, Child(b, j));
    AdoptedWholeIff(RereadAt(Json, Child(b, j)), RereadAt(Json, Child(f, j)));
    AdoptableReread(Json, Child(b, j), Child(f, j));
  }

  lemma {:induction false} EmptyTableRender(l: Layers, disk: Disk, k: string, j: string)
    requires FirstBoot(l, disk) && Tabular(l) && l.computed.Object? && At(l.computed.fields, k) == Some(Object(map[]))
    requires Child(Present(l.surface.managed), k).None? && IsObject(At(Read(l, disk.file).value, k))
    ensures Child(Child(Some(BootSpec(l, disk).value.config), k), j)
         == AfterAdoption(l.surface.codec, Child(At(Lower(l), k), j), Child(At(Read(l, disk.file).value, k), j))
  {
    var f := At(Read(l, disk.file).value, k);
    var pure := RereadAt(l.surface.codec, KeyConfig(l, k, None, None));
    var entry := DropNullsAt(DiffAt(pure, f));
    BootOk(l, disk);
    EmptyTableDecided(l, disk, k);
    KeyFromNarrowed(l, disk, k);
    KeyConfigIsOwned(l, k, NarrowAt(entry, Some(Object(map[])), None), SkeletonAt(f));
    KeyConfigIsOwned(l, k, None, None);
    UnderEmptyTable(l.surface.codec, IsToml(l), At(Lower(l), k), f, j);
  }

  /** The same, of the values alone. */
  lemma {:induction false} UnderEmptyTable(c: Codec, toml: bool, b: Option<Value>, f: Option<Value>, j: string)
    requires IsObject(f)
    ensures var empty := Some(Object(map[]));
            var entry := DropNullsAt(DiffAt(RereadAt(c, OwnedRender(toml, b, None, empty, None, None)), f));
            Child(OwnedRender(toml, b, NarrowAt(entry, empty, None), empty, None, SkeletonAt(f)), j) == AfterAdoption(c, Child(b, j), Child(f, j))
  {
    var empty := Some(Object(map[]));
    var alone := OwnedRender(toml, b, None, empty, None, None);
    var entry := DropNullsAt(DiffAt(RereadAt(c, alone), f));
    OwnedRenderChild(toml, b, None, empty, None, None, j);
    RenderChild(toml, b, None, empty, None, j);
    RereadChild(c, alone, j);
    TableEntry(RereadAt(c, alone), f);
    EntryAt(RereadAt(c, alone), f, j);
    if entry.Some? { NarrowChild(entry, empty, None, j); }
    SkeletonEachKey(f, j);
    OwnedRenderChild(toml, b, NarrowAt(entry, empty, None), empty, None, SkeletonAt(f), j);
  }

  lemma {:induction false} EmptyTableDecided(l: Layers, disk: Disk, k: string)
    requires FirstBoot(l, disk) && Tabular(l) && l.computed.Object? && At(l.computed.fields, k) == Some(Object(map[]))
    requires Child(Present(l.surface.managed), k).None? && IsObject(At(Read(l, disk.file).value, k))
    ensures var f := At(Read(l, disk.file).value, k);
            var entry := DropNullsAt(DiffAt(RereadAt(l.surface.codec, KeyConfig(l, k, None, None)), f));
            && At(Narrowed(l, Decided(l, disk)), k) == NarrowAt(entry, Some(Object(map[])), None)
            && At(FileMarks(l, disk), k) == SkeletonAt(f)
  {
    var current := Read(l, disk.file).value;
    ConfigByKey(l, Null, map[], k);
    RereadChild(l.surface.codec, Some(ConfigOf(l, Null, map[])), k);
    EmptyTableResidue(PureTable(l), current, l.computed, k);
    TableEntry(At(PureTable(l), k), At(current, k));
    NotRejected(l, Decided(l, disk), k);
    NarrowedAt(l, Decided(l, disk), k);
    SkeletonTableAt(current, k);
  }

  lemma {:induction false} EmptyTableResidue(pure: Table, current: Table, computed: Value, k: string)
    requires computed.Object? && At(computed.fields, k) == Some(Object(map[]))
    ensures At(DroppedTables(DroppedNulls(Diff(pure, current)), computed), k) == DropNullsAt(DiffAt(At(pure, k), At(current, k)))
  {
    DiffChild(Some(Object(pure)), Some(Object(current)), k);
    DropNullsChild(Some(Object(Diff(pure, current))), k);
  }

  lemma {:induction false} NotRejected(l: Layers, decided: Table, k: string)
    requires k in decided ==> decided[k].Object?
    ensures At(RepairSpec(l.surface, decided), k) == At(decided, k)
  {}

  /** What is adopted of a table is a table, or nothing. */
  lemma {:induction false} TableEntry(pure: Option<Value>, f: Option<Value>)
    requires IsObject(f)
    ensures DropNullsAt(DiffAt(pure, f)).None? || IsObject(DropNullsAt(DiffAt(pure, f)))
  {
    if IsObject(pure) { DiffChild(pure, f, ""); }
    if IsObject(DiffAt(pure, f)) { DropNullsChild(DiffAt(pure, f), ""); }
  }

  lemma {:induction false} EntryAt(pure: Option<Value>, f: Option<Value>, j: string)
    requires IsObject(pure) && IsObject(f)
    ensures Child(DropNullsAt(DiffAt(pure, f)), j) == DropNullsAt(DiffAt(Child(pure, j), Child(f, j)))
  {
    DiffChild(pure, f, j);
    if DiffAt(pure, f).Some? { DropNullsChild(DiffAt(pure, f), j); }
  }
}
