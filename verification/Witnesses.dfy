/** Boots at which the promises that hold only under a condition fail, each from inputs a caller could
    supply: a TOML home that forgets a deletion, one whose number changes kind under it, one whose file no boot
    can render, an edit that brings a deleted default back, and an adoption that drops a table of nulls. */
module Witnesses {
  import opened Values
  import opened Engine
  import opened LiteralNull
  import opened Narrow
  import opened Reading
  import opened Writing
  import opened Compose
  import opened StateRender
  import opened BootRuns
  import opened Survival

  // ---------------------------------------------------------------- surfaces that ship defaults alone

  function OnlyDefaults(agent: string, name: string, c: Codec, d: Table): Layers {
    Layers(Surface(agent, name, c, Object(d), Null), NoHostFile, Null, [], Null)
  }

  ghost predicate Ships(l: Layers, d: Table) {
    l == OnlyDefaults(l.surface.agent, l.surface.name, l.surface.codec, d) && NullFree(Some(Object(d)))
  }

  lemma {:induction false} OnlyDefaultsLower(l: Layers, d: Table)
    requires Ships(l, d)
    ensures Lower(l) == d && Refusal(l, Null).None? && Tabular(l) && forall j :: NoOwner(l, j)
  {
    assert LowerLayers(l) == [Object(d), Null, Null];
    assert Tables([Object(d), Null, Null]) == [d] by {
      assert [Object(d), Null, Null][1..] == [Null, Null] && [Null, Null][1..] == [Null];
      assert Tables([Null]) == [] && Tables([Null, Null]) == [];
    }
    NullFreeFoldsToItself(d);
    assert FirstUnfoldable(LowerLayers(l) + [Null, l.computed]).None?;
  }

  /** A boot's decided overlay, of which the repair takes nothing, over a file without literal nulls. */
  ghost predicate Decides(l: Layers, disk: Disk, decided: Table) {
    && Foldable(l.computed) && Decided(l, disk) == decided && FileMarks(l, disk) == map[]
    && forall j :: j in decided ==> !Rejects(l.surface, j, decided[j])
  }

  lemma {:induction false} DecidedKey(l: Layers, d: Table, disk: Disk, decided: Table, j: string)
    requires Ships(l, d) && Decides(l, disk, decided)
    ensures At(Narrowed(l, decided), j) == At(decided, j)
    ensures KeyConfig(l, j, At(decided, j), None) == MergeAt(At(d, j), At(decided, j)) && KeyConfig(l, j, None, None) == At(d, j)
  {
    OnlyDefaultsLower(l, d);
    NarrowedAt(l, decided, j);
    NoOwnerKey(l, j, At(decided, j), None);
    NoOwnerKey(l, j, None, None);
  }

  lemma {:induction false} DecidedStands(l: Layers, d: Table, disk: Disk, decided: Table)
    requires Ships(l, d) && Decides(l, disk, decided)
    ensures Narrowed(l, decided) == decided
  {
    forall j ensures At(Narrowed(l, decided), j) == At(decided, j) { DecidedKey(l, d, disk, decided, j); }
    SameTable(Narrowed(l, decided), decided);
  }

  /** Such a boot merges what it decided into the defaults, and keeps of it what shows. */
  function Showing(d: Table, decided: Table): Table {
    map j | j in decided && MergeAt(At(d, j), At(decided, j)) != At(d, j) :: decided[j]
  }

  lemma {:induction false} PlainBoot(l: Layers, d: Table, disk: Disk, decided: Table) returns (boot: Boot)
    requires Ships(l, d) && Decides(l, disk, decided)
    requires forall j :: EncodableAt(l.surface.codec, At(d, j)) && EncodableAt(l.surface.codec, MergeAt(At(d, j), At(decided, j)))
    ensures BootSpec(l, disk) == Ok(boot)
    ensures boot.config == Object(Merge(d, decided)) && boot.overlay == Showing(d, decided)
  {
    PlainGoes(l, d, disk, decided);
    boot := BootSpec(l, disk).value;
    OnlyDefaultsLower(l, d);
    BootOk(l, disk);
    DecidedStands(l, d, disk, decided);
    RetireInvisible(l, map[], decided);
    ConfigByKey(l, Object(decided), map[], "");
    forall j
      ensures At(boot.overlay, j) == At(Showing(d, decided), j)
      ensures At(boot.config.fields, j) == At(Merge(d, decided), j)
    {
      DecidedKey(l, d, disk, decided, j);
      ConfigByKey(l, Object(decided), map[], j);
      MergeChild(Some(Object(d)), Some(Object(decided)), j);
      if j in decided { ConvergedIff(l, map[], j, decided[j]); }
    }
    SameTable(boot.overlay, Showing(d, decided));
    SameTable(boot.config.fields, Merge(d, decided));
  }

  lemma {:induction false} PlainGoes(l: Layers, d: Table, disk: Disk, decided: Table)
    requires Ships(l, d) && Decides(l, disk, decided)
    requires forall j :: EncodableAt(l.surface.codec, At(d, j)) && EncodableAt(l.surface.codec, MergeAt(At(d, j), At(decided, j)))
    ensures BootSpec(l, disk).Ok?
  {
    OnlyDefaultsLower(l, d);
    DecidedStands(l, d, disk, decided);
    WritesByKey(l, Null, map[]);
    RetireWritesIff(l, map[], decided);
    forall j
      ensures KeyWrites(l, j, Child(Some(Null), j), At(map[], j))
      ensures j in decided ==> KeyWrites(l, j, Some(decided[j]), At(map[], j))
    {
      DecidedKey(l, d, disk, decided, j);
    }
    BootGoes(l, disk);
  }

  // ---------------------------------------------------------------- a forgotten deletion, and one that bleeds

  /** A file rendered as the default alone, from which the user took its one key: on TOML, a file of
      comments. */
  function Emptied(k: string, w: Value): Disk {
    Disk(Holds(Object(map[])), Holds(Object(map[k := w])), Missing)
  }

  ghost predicate Shippable(c: Codec, w: Value) {
    NullFree(Some(w)) && Legible(c, w) && EncodableEntry(c, w)
  }

  lemma {:induction false} EmptiedDecides(l: Layers, k: string, w: Value)
    requires Ships(l, map[k := w]) && Shippable(l.surface.codec, w)
    ensures Decides(l, Emptied(k, w), map[k := Null])
  {
    var disk := Emptied(k, w);
    assert Read(l, disk.file) == Some(map[]) && Read(l, disk.lastRender) == Some(map[k := w]);
    forall j ensures At(Decided(l, disk), j) == At(map[k := Null], j) && At(FileMarks(l, disk), j) == At(map[], j) {
      CapturedAt(map[], map[k := w], map[], j);
      SkeletonTableAt(map[], j);
    }
    SameTable(Decided(l, disk), map[k := Null]);
    SameTable(FileMarks(l, disk), map[]);
  }

  /** The deletion is captured, and the render is empty. */
  lemma {:induction false} EmptiedBoot(l: Layers, k: string, w: Value) returns (boot: Boot)
    requires Ships(l, map[k := w]) && Shippable(l.surface.codec, w)
    ensures BootSpec(l, Emptied(k, w)) == Ok(boot)
    ensures boot.overlay == map[k := Null] && boot.config == Object(map[])
  {
    var d, decided := map[k := w], map[k := Null];
    EmptiedDecides(l, k, w);
    boot := PlainBoot(l, d, Emptied(k, w), decided);
    forall j ensures At(Merge(d, decided), j) == At(map[], j) && At(Showing(d, decided), j) == At(decided, j) {
      MergeChild(Some(Object(d)), Some(Object(decided)), j);
    }
    SameTable(Merge(d, decided), map[]);
    SameTable(Showing(d, decided), decided);
  }

  /** Quiescence fails on TOML: the empty render is written as a blank file, which the next boot cannot
      take for its baseline. It forgets the deletion, and the key the user deleted is back. */
  lemma {:induction false} QuiescenceFails(l: Layers, k: string, w: Value) returns (first: Boot, second: Boot)
    requires l.surface.codec.Toml? && Ships(l, map[k := w]) && Shippable(Toml, w)
    ensures BootSpec(l, Emptied(k, w)) == Ok(first) && BootSpec(l, Persist(l, first)) == Ok(second)
    ensures first.overlay == map[k := Null] && first.config == Object(map[])
    ensures second.overlay == map[] && second.config == Object(map[k := w])
  {
    first := EmptiedBoot(l, k, w);
    var next, d := Persist(l, first), map[k := w];
    assert next.file.Blank? && next.lastRender.Blank?;
    OnlyDefaultsLower(l, d);
    NothingKept(l, next);
    second := PlainBoot(l, d, next, map[]);
    forall j ensures At(Merge(d, map[]), j) == At(d, j) { MergeChild(Some(Object(d)), Some(Object(map[])), j); }
    SameTable(Merge(d, map[]), d);
  }

  lemma {:induction false} RewrittenDecides(l: Layers, disk: Disk, k: string, file: Value)
    requires Foldable(l.computed) && file.Object? && NullFree(Some(file)) && Legible(l.surface.codec, file)
    requires disk == Disk(Holds(Object(map[k := file])), Holds(Object(map[])), MarshalOverlay(map[k := Null]))
    ensures Decides(l, disk, map[k := file])
  {
    assert Read(l, disk.file) == Some(map[k := file]) && Read(l, disk.lastRender) == Some(map[]);
    NullFreeUnmarked(Some(file));
    forall j ensures At(Decided(l, disk), j) == At(map[k := file], j) && At(FileMarks(l, disk), j) == At(map[], j) {
      RestoredAt(map[k := Null], j);
      CapturedAt(Restored(map[k := Null]), map[], map[k := file], j);
      SkeletonTableAt(map[k := file], j);
    }
    SameTable(Decided(l, disk), map[k := file]);
    SameTable(FileMarks(l, disk), map[]);
  }

  /** An edit can bring a default back from under a deletion: the user deletes a table, and before some
      later boot writes another in its place. The key of the shipped table, deleted long since, is in it. */
  lemma {:induction false} EditBleeds(l: Layers, k: string, a: string, b: string, x: Scalar, y: Scalar) returns (first: Boot, second: Boot)
    requires a != b && LegibleScalar(Json, x) && LegibleScalar(Json, y)
    requires l.surface.codec.Json? && Ships(l, map[k := Object(map[a := Leaf(x)])])
    ensures BootSpec(l, Emptied(k, Object(map[a := Leaf(x)]))) == Ok(first)
    ensures BootSpec(l, Edited(Persist(l, first), Holds(Object(map[k := Object(map[b := Leaf(y)])])))) == Ok(second)
    ensures second.config == Object(map[k := Object(map[a := Leaf(x), b := Leaf(y)])])
  {
    var w, file := Object(map[a := Leaf(x)]), Object(map[b := Leaf(y)]);
    OneLeafShips(a, x);
    OneLeafShips(b, y);
    first := EmptiedBoot(l, k, w);
    assert Encode(Json, Object(map[])) == Holds(Object(map[])) by { assert Reread(Json, Object(map[])) == Object(map[]); }
    RewrittenDecides(l, Edited(Persist(l, first), Holds(Object(map[k := file]))), k, file);
    BleedingMerge(a, b, x, y);
    second := RewrittenBoot(l, Edited(Persist(l, first), Holds(Object(map[k := file]))), k, w, file, Object(map[a := Leaf(x), b := Leaf(y)]));
  }

  lemma {:induction false} OneLeafShips(a: string, x: Scalar)
    requires LegibleScalar(Json, x)
    ensures Shippable(Json, Object(map[a := Leaf(x)]))
  {
    assert forall j :: j in map[a := Leaf(x)] ==> map[a := Leaf(x)][j] == Leaf(x);
    assert NullFree(Some(Leaf(x)));
  }

  lemma {:induction false} RewrittenBoot(l: Layers, disk: Disk, k: string, w: Value, file: Value, both: Value) returns (boot: Boot)
    requires l.surface.codec.Json? && Ships(l, map[k := w]) && Decides(l, disk, map[k := file])
    requires MergeAt(Some(w), Some(file)) == Some(both)
    ensures BootSpec(l, disk) == Ok(boot) && boot.config == Object(map[k := both])
  {
    boot := PlainBoot(l, map[k := w], disk, map[k := file]);
    forall j ensures At(Merge(map[k := w], map[k := file]), j) == At(map[k := both], j) {
      MergeChild(Some(Object(map[k := w])), Some(Object(map[k := file])), j);
    }
    SameTable(Merge(map[k := w], map[k := file]), map[k := both]);
  }

  lemma {:induction false} BleedingMerge(a: string, b: string, x: Scalar, y: Scalar)
    requires a != b
    ensures MergeAt(Some(Object(map[a := Leaf(x)])), Some(Object(map[b := Leaf(y)]))) == Some(Object(map[a := Leaf(x), b := Leaf(y)]))
  {
    var lower, over := Some(Object(map[a := Leaf(x)])), Some(Object(map[b := Leaf(y)]));
    var both := Some(Object(map[a := Leaf(x), b := Leaf(y)]));
    forall j ensures Child(MergeAt(lower, over), j) == Child(both, j) { MergeChild(lower, over, j); }
    SameObject(MergeAt(lower, over), both);
  }

  // ---------------------------------------------------------------- a file adopted by a surface without layers

  function Found(k: string, v: Value): Disk {
    Disk(Holds(Object(map[k := v])), Missing, Missing)
  }

  lemma {:induction false} FoundAdopts(l: Layers, k: string, v: Value)
    requires l.surface.codec.Toml? && Ships(l, map[]) && Legible(Toml, v)
    ensures Read(l, Found(k, v).file) == Some(map[k := v]) && Adopts(l, Found(k, v)) && FileMarks(l, Found(k, v)) == map[]
    ensures At(Decided(l, Found(k, v)), k) == DropNullsAt(Some(v))
    ensures forall j :: j != k ==> At(Decided(l, Found(k, v)), j) == None
    ensures forall j, x :: !Rejects(l.surface, j, x)
  {
    OnlyDefaultsLower(l, map[]);
    TomlMarksNothing(l, Found(k, v));
    forall j ensures At(Decided(l, Found(k, v)), j) == DropNullsAt(At(map[k := v], j)) {
      AdoptedAt(l, map[k := v], j);
      NoOwnerKey(l, j, None, None);
    }
  }

  /** The number changes kind: a whole number of a TOML file is stored as JSON, which has one kind of number, and
      the second boot, with no edit between, renders a decimal. */
  lemma {:induction false} WholeNumberRespelled(l: Layers, k: string, n: int) returns (first: Boot, second: Boot)
    requires l.surface.codec.Toml? && Ships(l, map[])
    ensures BootSpec(l, Found(k, Leaf(Whole(n)))) == Ok(first) && BootSpec(l, Persist(l, first)) == Ok(second)
    ensures first.config == Object(map[k := Leaf(Whole(n))]) && first.overlay == map[k := Leaf(Whole(n))]
    ensures second.config == Object(map[k := Leaf(Decimal(Float64(n)))]) && second.overlay == map[k := Leaf(Decimal(Float64(n)))]
  {
    var whole, decimal := map[k := Leaf(Whole(n))], map[k := Leaf(Decimal(Float64(n)))];
    FoundAdopts(l, k, Leaf(Whole(n)));
    SameTable(Decided(l, Found(k, Leaf(Whole(n)))), whole);
    first := PlainBoot(l, map[], Found(k, Leaf(Whole(n))), whole);
    NothingBeneath(whole);
    var next := Persist(l, first);
    StoredDecides(l, next, k, n);
    second := PlainBoot(l, map[], next, decimal);
    NothingBeneath(decimal);
  }

  lemma {:induction false} NothingBeneath(decided: Table)
    requires forall j :: j in decided ==> decided[j].Leaf?
    ensures Merge(map[], decided) == decided && Showing(map[], decided) == decided
  {
    forall j ensures At(Merge(map[], decided), j) == At(decided, j) && At(Showing(map[], decided), j) == At(decided, j) {
      MergeChild(Some(Object(map[])), Some(Object(decided)), j);
    }
    SameTable(Merge(map[], decided), decided);
    SameTable(Showing(map[], decided), decided);
  }

  lemma {:induction false} StoredDecides(l: Layers, disk: Disk, k: string, n: int)
    requires l.surface.codec.Toml? && Ships(l, map[])
    requires disk.file == disk.lastRender == Encode(Toml, Object(map[k := Leaf(Whole(n))])) && disk.overlay == MarshalOverlay(map[k := Leaf(Whole(n))])
    ensures Decides(l, disk, map[k := Leaf(Decimal(Float64(n)))])
  {
    var whole, decimal := map[k := Leaf(Whole(n))], map[k := Leaf(Decimal(Float64(n)))];
    assert Reread(Toml, Object(whole)) == Object(whole) by {
      RereadChild(Toml, Some(Object(whole)), k);
      SameTable(Fields(RereadAt(Toml, Some(Object(whole)))), whole);
    }
    assert k in whole && disk.file == Holds(Object(whole));
    assert Legible(Toml, Object(whole)) by { assert forall j :: j in whole ==> whole[j] == Leaf(Whole(n)); }
    TomlMarksNothing(l, disk);
    forall j ensures At(Decided(l, disk), j) == At(decimal, j) {
      RestoredAt(whole, j);
      CapturedAt(Restored(whole), whole, whole, j);
      DiffEmptyIffEqual(At(whole, j), At(whole, j));
    }
    SameTable(Decided(l, disk), decimal);
  }

  /** A mangled home can break the boot: a TOML file the decoder takes and the encoder refuses, such as a list
      that mixes a table with other values, or a date, is captured and then cannot be composed. */
  lemma {:induction false} UnwritableFileFails(l: Layers, k: string, v: Value)
    requires l.surface.codec.Toml? && Ships(l, map[]) && Legible(Toml, v) && !v.Object? && !KeyedToml(v)
    ensures Refusal(l, Null).None? && Foldable(l.computed) && Writes(l, Null, map[])
    ensures BootSpec(l, Found(k, v)) == Err(NotEncodable)
  {
    var disk := Found(k, v);
    var decided := Decided(l, disk);
    OnlyDefaultsLower(l, map[]);
    FoundAdopts(l, k, v);
    assert DropNullsAt(Some(v)) == Some(v);
    DecidedStands(l, map[], disk, decided);
    DecidedKey(l, map[], disk, decided, k);
    WritesByKey(l, Null, map[]);
    RetireWritesIff(l, map[], decided);
    forall j ensures KeyWrites(l, j, Child(Some(Null), j), At(map[], j)) { DecidedKey(l, map[], disk, decided, j); }
    assert k in decided && !KeyWrites(l, k, Some(decided[k]), At(map[], k));
  }

  /** The two such values: a list of one number and one table, and a date. */
  lemma {:induction false} MixedListAndDate(n: int, key: string, m: int, stamp: Stamp)
    ensures var mixed := List([Leaf(Whole(n)), Object(map[key := Leaf(Whole(m))])]);
            Legible(Toml, mixed) && !mixed.Object? && !KeyedToml(mixed)
    ensures Legible(Toml, Leaf(Moment(stamp))) && !KeyedToml(Leaf(Moment(stamp)))
  {
    var elems := [Leaf(Whole(n)), Object(map[key := Leaf(Whole(m))])];
    assert !elems[0].Object? && !InlineToml(elems[1]);
  }

  // ---------------------------------------------------------------- an adoption that loses a table

  /** Adoption drops a table that holds nothing but nulls where a layer holds a scalar: the render keeps the
      scalar, and the file's table is gone. */
  lemma {:induction false} NullTableDropped(l: Layers, k: string, a: string, x: Scalar) returns (boot: Boot)
    requires l.surface.codec.Json? && Ships(l, map[k := Leaf(x)])
    ensures BootSpec(l, Found(k, Object(map[a := Null]))) == Ok(boot)
    ensures boot.config.Object? && At(boot.config.fields, k) == Some(Leaf(x))
    ensures !Adoptable(Some(Leaf(x)), Some(Object(map[a := Null])))
  {
    var disk := Found(k, Object(map[a := Null]));
    NullsLeaveNothing(a);
    OnlyDefaultsLower(l, map[k := Leaf(x)]);
    BootGoes(l, disk);
    boot := BootSpec(l, disk).value;
    BootOk(l, disk);
    ConfigByKey(l, Object(boot.overlay), FileMarks(l, disk), k);
    NullTableRenders(l, k, a, x);
  }

  lemma {:induction false} NullTableRenders(l: Layers, k: string, a: string, x: Scalar)
    requires l.surface.codec.Json? && Ships(l, map[k := Leaf(x)])
    ensures var disk := Found(k, Object(map[a := Null]));
            Foldable(l.computed) && Child(Some(ConfigOf(l, Object(Kept(l, disk)), FileMarks(l, disk))), k) == Some(Leaf(x))
  {
    var disk, file, pure := Found(k, Object(map[a := Null])), Some(Object(map[a := Null])), RereadAt(Json, Some(Leaf(x)));
    OnlyDefaultsLower(l, map[k := Leaf(x)]);
    NullsLeaveNothing(a);
    NullTableRead(l, k, a);
    NoOwnerKey(l, k, None, None);
    AdoptedEntry(l, disk, k);
    assert DiffAt(pure, file) == file && At(Decided(l, disk), k) == None;
    NoOwnerBoot(l, disk, k);
  }

  lemma {:induction false} NullTableRead(l: Layers, k: string, a: string)
    requires l.surface.codec.Json?
    ensures Read(l, Found(k, Object(map[a := Null])).file) == Some(map[k := Object(map[a := Null])])
  {
    var file := Object(map[a := Null]);
    assert forall j :: j in file.fields ==> file.fields[j] == Null;
    assert Legible(Json, file);
    assert forall j :: j in map[k := file] ==> map[k := file][j] == file;
  }

  lemma {:induction false} NullsLeaveNothing(a: string)
    ensures DropNullsAt(Some(Object(map[a := Null]))).None?
  {
    var v := Some(Object(map[a := Null]));
    assert Child(v, a) == Some(Null) && a in Fields(v);
  }
}
