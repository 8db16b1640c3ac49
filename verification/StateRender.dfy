/** internal/agentcfg/staterender.go, object surfaces: the per-boot state machine that adopts or
    captures, repairs, narrows, retires and renders. The spec functions of one boot, and the laws of
    each of its stages; what holds over several boots is in BootRuns. */
module StateRender {
  import opened Values
  import opened Engine
  import opened Enforce
  import opened LiteralNull
  import opened Narrow
  import opened Reading
  import opened Writing
  import opened Compose

  // ---------------------------------------------------------------- compose works key by key

  /** What the config holds at a top-level key, from each layer's entry for that key alone. */
  function KeyConfig(l: Layers, k: string, entry: Option<Value>, mark: Option<Value>): Option<Value> {
    ReinstateAt(KeyEnforced(l, k, entry), mark, Held(Outranking(l), k))
  }

  function KeyEnforced(l: Layers, k: string, entry: Option<Value>): Option<Value> {
    RenderAt(IsToml(l), At(Lower(l), k), entry, Child(Present(l.computed), k), Child(Present(l.surface.managed), k))
  }

  predicate Tabular(l: Layers) {
    Foldable(l.computed) && Foldable(l.surface.managed)
  }

  lemma {:induction false} ConfigByKey(l: Layers, overlay: Value, literalNulls: Table, k: string)
    requires Tabular(l) && Foldable(overlay)
    ensures ConfigOf(l, overlay, literalNulls).Object?
    ensures Child(Some(ConfigOf(l, overlay, literalNulls)), k)
         == KeyConfig(l, k, Child(Some(overlay), k), At(literalNulls, k))
  {
    EnforcedIsSome(l, overlay);
    RenderChild(IsToml(l), Some(Object(Lower(l))), Present(overlay), Present(l.computed), Present(l.surface.managed), k);
    TablesOfObjects(Outranking(l));
    ReinstateEachKey(Enforced(l, overlay), Marks(literalNulls), Objects(Outranking(l)), k);
  }

  /** Two overlays that agree at a key render alike there, whatever else they hold. */
  lemma {:induction false} SameConfig(l: Layers, a: Value, b: Value, s: Table, s': Table)
    requires Tabular(l) && Foldable(a) && Foldable(b)
    requires forall k :: KeyConfig(l, k, Child(Some(a), k), At(s, k)) == KeyConfig(l, k, Child(Some(b), k), At(s', k))
    ensures ConfigOf(l, a, s) == ConfigOf(l, b, s')
  {
    forall k ensures Child(Some(ConfigOf(l, a, s)), k) == Child(Some(ConfigOf(l, b, s')), k) {
      ConfigByKey(l, a, s, k);
      ConfigByKey(l, b, s', k);
    }
    ConfigByKey(l, a, s, "");
    ConfigByKey(l, b, s', "");
    SameObject(Some(ConfigOf(l, a, s)), Some(ConfigOf(l, b, s')));
  }

  // ---------------------------------------------------------------- retirement

  predicate Converged(l: Layers, literalNulls: Table, k: string, entry: Value)
    requires Foldable(l.computed)
  {
    ConfigOf(l, Object(map[k := entry]), literalNulls) == ConfigOf(l, Null, literalNulls)
  }

  /** The overlay without the entries that, each on its own, leave the layers-only config as it is. */
  function RetireSpec(l: Layers, literalNulls: Table, overlay: Table): Table
    requires Foldable(l.computed)
  {
    map k | k in overlay && !Converged(l, literalNulls, k, overlay[k]) :: overlay[k]
  }

  lemma {:induction false} ConvergedIff(l: Layers, literalNulls: Table, k: string, entry: Value)
    requires Tabular(l)
    ensures Converged(l, literalNulls, k, entry) <==>
              KeyConfig(l, k, Some(entry), At(literalNulls, k)) == KeyConfig(l, k, None, At(literalNulls, k))
  {
    var one := Object(map[k := entry]);
    ConfigByKey(l, one, literalNulls, k);
    ConfigByKey(l, Null, literalNulls, k);
    if KeyConfig(l, k, Some(entry), At(literalNulls, k)) == KeyConfig(l, k, None, At(literalNulls, k)) {
      SameConfig(l, one, Null, literalNulls, literalNulls);
    }
  }

  /** Retirement is invisible: testing entries one at a time never changes the render of them all. */
  lemma {:induction false} RetireInvisible(l: Layers, literalNulls: Table, overlay: Table)
    requires Foldable(l.computed)
    ensures ConfigOf(l, Object(RetireSpec(l, literalNulls, overlay)), literalNulls) == ConfigOf(l, Object(overlay), literalNulls)
  {
    if Tabular(l) {
      forall k
        ensures KeyConfig(l, k, Child(Some(Object(RetireSpec(l, literalNulls, overlay))), k), At(literalNulls, k))
             == KeyConfig(l, k, Child(Some(Object(overlay)), k), At(literalNulls, k))
      {
        if k in overlay { ConvergedIff(l, literalNulls, k, overlay[k]); }
      }
      SameConfig(l, Object(RetireSpec(l, literalNulls, overlay)), Object(overlay), literalNulls, literalNulls);
    } else {
      EnforcedIsSome(l, Object(overlay));
      EnforcedIsSome(l, Object(RetireSpec(l, literalNulls, overlay)));
    }
  }

  /** Retirement is minimal: what it keeps shows in the render, and dropping any of it would too. */
  lemma {:induction false} RetireMinimal(l: Layers, literalNulls: Table, overlay: Table, k: string)
    requires Foldable(l.computed)
    requires k in RetireSpec(l, literalNulls, overlay)
    ensures var kept := RetireSpec(l, literalNulls, overlay);
            ConfigOf(l, Object(kept - {k}), literalNulls) != ConfigOf(l, Object(kept), literalNulls)
  {
    var kept := RetireSpec(l, literalNulls, overlay);
    if Tabular(l) {
      ConvergedIff(l, literalNulls, k, overlay[k]);
      ConfigByKey(l, Object(kept - {k}), literalNulls, k);
      ConfigByKey(l, Object(kept), literalNulls, k);
    } else {
      EnforcedIsSome(l, Null);
      EnforcedIsSome(l, Object(map[k := overlay[k]]));
    }
  }

  lemma {:induction false} RetireIdempotent(l: Layers, literalNulls: Table, overlay: Table)
    requires Foldable(l.computed)
    ensures RetireSpec(l, literalNulls, RetireSpec(l, literalNulls, overlay)) == RetireSpec(l, literalNulls, overlay)
  {}

  // ---------------------------------------------------------------- one boot

  /** What a file or sidecar holds on disk, as its codec reads it back. */
  datatype FileContent = Missing | Blank | Garbled | Holds(value: Value)

  /** decodeKind: content is trusted only when it decodes to the surface's own shape, and a codec decodes to
      nothing its format cannot hold. */
  function DecodeObject(c: Codec, f: FileContent): Option<Table> {
    if f.Holds? && f.value.Object? && Legible(c, f.value) then Some(f.value.fields) else None
  }

  function Read(l: Layers, f: FileContent): Option<Table> {
    DecodeObject(l.surface.codec, f)
  }

  /** An encoded config reads back as its codec rereads it, except that an empty TOML document is blank. */
  function Encode(c: Codec, config: Value): FileContent {
    if c.Toml? && config == Object(map[]) then Blank else Holds(Reread(c, config))
  }

  lemma {:induction false} WrittenReads(c: Codec, config: Value)
    requires Encodable(c, config) && config.Object?
    ensures var f := DecodeObject(c, Encode(c, config));
            if c.Toml? && config == Object(map[]) then f.None? else f == Some(Fields(RereadAt(c, Some(config))))
  {
    WrittenLegible(c, config);
  }

  datatype RejectedValue = RejectedValue(agent: string, surface: string, key: string, value: Value)

  const REJECTED_VALUES: seq<RejectedValue> := [RejectedValue("pi", "settings", "theme", Leaf(Text("system")))]

  /** Guard of the repair: the pack declares a default for the key, and not the rejected value. */
  predicate Applies(rv: RejectedValue, s: Surface) {
    rv.agent == s.agent && rv.surface == s.name &&
    rv.key in Fields(Some(s.defaults)) && Fields(Some(s.defaults))[rv.key] != rv.value
  }

  predicate Rejects(s: Surface, k: string, v: Value) {
    RejectsAmong(REJECTED_VALUES, s, k, v)
  }

  predicate RejectsAmong(list: seq<RejectedValue>, s: Surface, k: string, v: Value) {
    exists rv :: rv in list && Applies(rv, s) && rv.key == k && rv.value == v
  }

  function RepairSpec(s: Surface, overlay: Table): Table {
    map k | k in overlay && !Rejects(s, k, overlay[k]) :: overlay[k]
  }

  /** The state a surface carries between boots. */
  datatype Disk = Disk(file: FileContent, lastRender: FileContent, overlay: FileContent)

  datatype Boot = Boot(config: Value, overlay: Table, firstMigration: bool, pure: Option<Value>)

  /** marshalOverlay: the sidecar is JSON, whatever the surface's codec. */
  function MarshalOverlay(overlay: Table): FileContent {
    Holds(Reread(Json, Object(overlay)))
  }

  /** parseOverlayKind: anything but an object is the empty overlay, and numbers are JSON's. */
  function ParseOverlay(f: FileContent): Table {
    if f.Holds? && f.value.Object? then Fields(RereadAt(Json, Some(f.value))) else map[]
  }

  /** The pure render as the adopting boot reads it back. */
  function PureTable(l: Layers): Table
    requires Foldable(l.computed)
  {
    Fields(RereadAt(l.surface.codec, Some(ConfigOf(l, Null, map[]))))
  }

  function Adopted(l: Layers, current: Table): Table
    requires Foldable(l.computed)
  {
    DroppedTables(DroppedNulls(Diff(PureTable(l), current)), l.computed)
  }

  function Captured(overlay: Table, last: Table, current: Table): Table {
    Accumulate(overlay, Diff(last, current))
  }

  function Decided(l: Layers, disk: Disk): Table
    requires Foldable(l.computed)
  {
    var current, last := Read(l, disk.file), Read(l, disk.lastRender);
    if last.None? then (if current.Some? then Adopted(l, current.value) else map[])
    else if current.Some? then Captured(ParseOverlay(disk.overlay), last.value, current.value)
    else ParseOverlay(disk.overlay)
  }

  function FileMarks(l: Layers, disk: Disk): Table {
    var current := Read(l, disk.file);
    if current.Some? then Skeleton(current.value) else map[]
  }

  function Narrowed(l: Layers, decided: Table): Table {
    NarrowOverlay(RepairSpec(l.surface, decided), l.computed, l.surface.managed)
  }

  function Kept(l: Layers, disk: Disk): Table
    requires Foldable(l.computed)
  {
    RetireSpec(l, FileMarks(l, disk), Narrowed(l, Decided(l, disk)))
  }

  /** The boot adopts: there is a file, and no baseline to capture against. */
  predicate Adopts(l: Layers, disk: Disk) {
    Read(l, disk.lastRender).None? && Read(l, disk.file).Some?
  }

  /** Every composition of the boot can be written: the pure render it adopts against, the layers alone, each
      overlay entry on its own. */
  predicate BootWrites(l: Layers, disk: Disk)
    requires Foldable(l.computed)
  {
    && (Adopts(l, disk) ==> Writes(l, Null, map[]))
    && RetireWrites(l, FileMarks(l, disk), Narrowed(l, Decided(l, disk)))
  }

  predicate RetireWrites(l: Layers, literalNulls: Table, overlay: Table)
    requires Foldable(l.computed)
  {
    Writes(l, Null, literalNulls) && forall k :: k in overlay ==> Writes(l, Object(map[k := overlay[k]]), literalNulls)
  }

  function BootSpec(l: Layers, disk: Disk): Result<Boot, ComposeError> {
    var refusal := Refusal(l, Null);
    if refusal.Some? then Err(refusal.value)
    else
      assert l.computed in LowerLayers(l) + [Null, l.computed];
      if !BootWrites(l, disk) then Err(NotEncodable)
      else
        var overlay := Kept(l, disk);
        Ok(Boot(ConfigOf(l, Object(overlay), FileMarks(l, disk)), overlay, Read(l, disk.lastRender).None?,
                if Adopts(l, disk) then Some(ConfigOf(l, Null, map[])) else None))
  }

  /** The three writes of a boot. */
  function Persist(l: Layers, boot: Boot): Disk {
    var written := Encode(l.surface.codec, boot.config);
    Disk(written, written, MarshalOverlay(boot.overlay))
  }

  // ---------------------------------------------------------------- one boot, as it is computed

  lemma {:induction false} OverlayNeverRefused(l: Layers, overlay: Table)
    ensures Refusal(l, Object(overlay)).Some? == Refusal(l, Null).Some?
    ensures Refusal(l, Object(overlay)) == Refusal(l, Null)
  {
    FirstUnfoldableAppend(LowerLayers(l), [Object(overlay), l.computed]);
    FirstUnfoldableAppend(LowerLayers(l), [Null, l.computed]);
    assert [Object(overlay), l.computed][1..] == [l.computed] == [Null, l.computed][1..];
  }

  lemma {:induction false} FirstUnfoldableAppend(a: seq<Value>, b: seq<Value>)
    ensures FirstUnfoldable(a + b) == if FirstUnfoldable(a).Some? then FirstUnfoldable(a) else FirstUnfoldable(b)
  {
    if a == [] {
      assert a + b == b;
    } else {
      assert (a + b)[1..] == a[1..] + b;
      FirstUnfoldableAppend(a[1..], b);
    }
  }

  /** RepairRejected: delete from the overlay, in place, each value yolo shipped that its target cannot
      load, once the pack's default has moved off it. */
  method RepairRejected(s: Surface, overlay: ConfigMap) returns (done: seq<RejectedValue>)
    modifies overlay
    ensures overlay.fields == RepairSpec(s, old(overlay.fields))
    ensures forall rv :: rv in done <==> rv in REJECTED_VALUES && Applies(rv, s) && At(old(overlay.fields), rv.key) == Some(rv.value)
  {
    done := [];
    ghost var was := overlay.fields;
    for i := 0 to |REJECTED_VALUES|
      invariant forall k :: At(overlay.fields, k) == if k in was && RejectsAmong(REJECTED_VALUES[..i], s, k, was[k]) then None else At(was, k)
      invariant forall rv :: rv in done <==> rv in REJECTED_VALUES[..i] && Applies(rv, s) && At(was, rv.key) == Some(rv.value)
    {
      var rv := REJECTED_VALUES[i];
      assert REJECTED_VALUES[..i + 1] == REJECTED_VALUES[..i] + [rv];
      if Applies(rv, s) && rv.key in overlay.fields && overlay.fields[rv.key] == rv.value {
        overlay.fields := overlay.fields - {rv.key};
        done := done + [rv];
      }
      forall k ensures k in was ==> (RejectsAmong(REJECTED_VALUES[..i + 1], s, k, was[k]) <==>
                         RejectsAmong(REJECTED_VALUES[..i], s, k, was[k]) || (Applies(rv, s) && rv.key == k && rv.value == was[k])) {
        assert rv in REJECTED_VALUES[..i + 1];
      }
    }
    assert REJECTED_VALUES[..|REJECTED_VALUES|] == REJECTED_VALUES;
    SameTable(overlay.fields, RepairSpec(s, was));
  }

  /** The last composition of a boot is of entries that each composed alone. */
  lemma {:induction false} KeptWrites(l: Layers, literalNulls: Table, overlay: Table)
    requires Foldable(l.computed) && RetireWrites(l, literalNulls, overlay)
    ensures Writes(l, Object(RetireSpec(l, literalNulls, overlay)), literalNulls)
  {
    RetireInvisible(l, literalNulls, overlay);
    if Tabular(l) {
      RetireWritesIff(l, literalNulls, overlay);
    } else {
      EnforcedIsSome(l, Null);
      EnforcedIsSome(l, Object(overlay));
    }
  }

  /** What one key renders as can be written. */
  ghost predicate KeyWrites(l: Layers, k: string, entry: Option<Value>, mark: Option<Value>) {
    EncodableAt(l.surface.codec, KeyConfig(l, k, entry, mark))
  }

  lemma {:induction false} WritesByKey(l: Layers, overlay: Value, literalNulls: Table)
    requires Tabular(l) && Foldable(overlay)
    ensures Writes(l, overlay, literalNulls) <==> forall k :: KeyWrites(l, k, Child(Some(overlay), k), At(literalNulls, k))
  {
    var config := ConfigOf(l, overlay, literalNulls);
    ConfigByKey(l, overlay, literalNulls, "");
    EncodableByKey(l.surface.codec, config);
    forall k ensures KeyWrites(l, k, Child(Some(overlay), k), At(literalNulls, k)) <==> EncodableAt(l.surface.codec, Child(Some(config), k)) {
      ConfigByKey(l, overlay, literalNulls, k);
    }
  }

  lemma {:induction false} EntryWrites(l: Layers, literalNulls: Table, k: string, entry: Value)
    requires Tabular(l) && Writes(l, Null, literalNulls)
    ensures Writes(l, Object(map[k := entry]), literalNulls) <==> KeyWrites(l, k, Some(entry), At(literalNulls, k))
  {
    var one := Object(map[k := entry]);
    WritesByKey(l, one, literalNulls);
    WritesByKey(l, Null, literalNulls);
    assert Child(Some(one), k) == Some(entry);
    forall j | j != k ensures KeyWrites(l, j, Child(Some(one), j), At(literalNulls, j)) {
      assert Child(Some(one), j) == Child(Some(Null), j);
      assert KeyWrites(l, j, Child(Some(Null), j), At(literalNulls, j));
    }
  }

  /** Entries that compose alone compose together, and the other way about. */
  lemma {:induction false} RetireWritesIff(l: Layers, literalNulls: Table, overlay: Table)
    requires Tabular(l)
    ensures RetireWrites(l, literalNulls, overlay) <==>
              Writes(l, Null, literalNulls) && forall k :: k in overlay ==> KeyWrites(l, k, Some(overlay[k]), At(literalNulls, k))
    ensures RetireWrites(l, literalNulls, overlay) ==> Writes(l, Object(overlay), literalNulls)
  {
    if Writes(l, Null, literalNulls) {
      forall k | k in overlay
        ensures Writes(l, Object(map[k := overlay[k]]), literalNulls) <==> KeyWrites(l, k, Some(overlay[k]), At(literalNulls, k))
      {
        EntryWrites(l, literalNulls, k, overlay[k]);
      }
      WritesByKey(l, Null, literalNulls);
      WritesByKey(l, Object(overlay), literalNulls);
      if RetireWrites(l, literalNulls, overlay) {
        forall k ensures KeyWrites(l, k, Child(Some(Object(overlay)), k), At(literalNulls, k)) {
          assert KeyWrites(l, k, Child(Some(Null), k), At(literalNulls, k));
        }
      }
    }
  }

  /** Does this entry, on its own, leave the layers-only config as it is? */
  method ComposesAlike(l: Layers, literalNulls: Table, pure: Value, k: string, entry: Value) returns (r: Result<bool, ComposeError>)
    requires Refusal(l, Null).None? && Foldable(l.computed) && pure == ConfigOf(l, Null, literalNulls)
    ensures r == if Writes(l, Object(map[k := entry]), literalNulls) then Ok(Converged(l, literalNulls, k, entry)) else Err(NotEncodable)
  {
    OverlayNeverRefused(l, map[k := entry]);
    var withEntry := ComposeSurface(l, Object(map[k := entry]), literalNulls);
    r := if withEntry.Err? then Err(withEntry.error) else Ok(withEntry.value == pure);
  }

  /** retireConvergedOverlay: one composition per captured entry, against the layers alone. */
  method RetireConvergedOverlay(l: Layers, literalNulls: Table, overlay: Table) returns (r: Result<Table, ComposeError>)
    ensures Refusal(l, Null).Some? ==> r == Err(Refusal(l, Null).value)
    ensures Refusal(l, Null).None? ==> Foldable(l.computed)
    ensures Refusal(l, Null).None? ==>
              r == if RetireWrites(l, literalNulls, overlay) then Ok(RetireSpec(l, literalNulls, overlay)) else Err(NotEncodable)
  {
    var pure := ComposeSurface(l, Null, literalNulls);
    assert Refusal(l, Null).None? ==> l.computed in LowerLayers(l) + [Null, l.computed];
    if pure.Err? { return Err(pure.error); }
    r := RetireEntries(l, literalNulls, pure.value, overlay);
  }

  /** The loop of the retirement: one entry after another, until one cannot be written. */
  method RetireEntries(l: Layers, literalNulls: Table, pure: Value, overlay: Table) returns (r: Result<Table, ComposeError>)
    requires Refusal(l, Null).None? && Foldable(l.computed) && pure == ConfigOf(l, Null, literalNulls) && Writes(l, Null, literalNulls)
    ensures r == if RetireWrites(l, literalNulls, overlay) then Ok(RetireSpec(l, literalNulls, overlay)) else Err(NotEncodable)
  {
    var kept: Table := map[];
    var todo := overlay.Keys;
    while todo != {}
      invariant todo <= overlay.Keys
      invariant forall k :: k in kept <==> k in overlay && k !in todo && !Converged(l, literalNulls, k, overlay[k])
      invariant forall k :: k in kept ==> kept[k] == overlay[k]
      invariant forall k :: k in overlay && k !in todo ==> Writes(l, Object(map[k := overlay[k]]), literalNulls)
      decreases todo
    {
      var k :| k in todo;
      var alike := ComposesAlike(l, literalNulls, pure, k, overlay[k]);
      if alike.Err? { return Err(alike.error); }
      if !alike.value {
        kept := kept[k := overlay[k]];
      }
      todo := todo - {k};
    }
    SameTable(kept, RetireSpec(l, literalNulls, overlay));
    r := Ok(kept);
  }

  /** The overlay decided before the shared passes: adopted on a first migration, else captured. */
  method DecideOverlay(l: Layers, disk: Disk) returns (r: Result<(Table, Option<Value>), ComposeError>)
    ensures Refusal(l, Null).None? ==> Foldable(l.computed)
    ensures Refusal(l, Null).None? ==>
              r == if Adopts(l, disk) && !Writes(l, Null, map[]) then Err(NotEncodable)
                   else Ok((Decided(l, disk), if Adopts(l, disk) then Some(ConfigOf(l, Null, map[])) else None))
    ensures Refusal(l, Null).Some? && r.Err? ==> r.error == Refusal(l, Null).value
    ensures Read(l, disk.lastRender).Some? && Read(l, disk.file).None? ==>
              r.Ok? && forall k :: At(r.value.0, k) == if disk.overlay.Holds? then RereadAt(Json, Child(Some(disk.overlay.value), k)) else None
    ensures Read(l, disk.lastRender).None? && Read(l, disk.file).None? ==> r == Ok((map[], None))
  {
    assert Refusal(l, Null).None? ==> l.computed in LowerLayers(l) + [Null, l.computed];
    var lastRender, current := Read(l, disk.lastRender), Read(l, disk.file);
    if lastRender.None? {
      if current.None? { return Ok((map[], None)); }
      var pure := ComposeSurface(l, Null, map[]);
      if pure.Err? { return Err(pure.error); }
      var baseline := DecodeObject(l.surface.codec, Encode(l.surface.codec, pure.value));
      PureReadsBack(l);
      var diff := MergeDiff(if baseline.Some? then baseline.value else map[], current.value);
      var residue := DropNullLeaves(diff);
      residue := DropComputedTables(residue, l.computed);
      return Ok((residue, Some(pure.value)));
    }
    var overlay := ParseOverlay(disk.overlay);
    if current.Some? {
      var delta := MergeDiff(lastRender.value, current.value);
      overlay := MergeAccumulate(overlay, delta);
    }
    r := Ok((overlay, None));
  }

  lemma {:induction false} PureReadsBack(l: Layers)
    requires Foldable(l.computed) && Writes(l, Null, map[])
    ensures var baseline := DecodeObject(l.surface.codec, Encode(l.surface.codec, ConfigOf(l, Null, map[])));
            (if baseline.Some? then baseline.value else map[]) == PureTable(l)
  {
    EnforcedIsSome(l, Null);
    var pure := ConfigOf(l, Null, map[]);
    if pure.Object? {
      WrittenReads(l.surface.codec, pure);
      RereadChild(l.surface.codec, Some(pure), "");
      if l.surface.codec.Toml? && pure == Object(map[]) { assert PureTable(l) == map[]; }
    }
  }

  /** ComposeStateful: one boot of one surface. Absent, corrupt and unreadable content never fails it; it fails
      exactly when the layers are refused, or when something it composes cannot be written. */
  method ComposeStateful(l: Layers, disk: Disk) returns (r: Result<Boot, ComposeError>, repairs: seq<RejectedValue>)
    ensures r == BootSpec(l, disk)
    ensures r.Ok? ==> Foldable(l.computed) && forall rv :: rv in repairs <==>
              rv in REJECTED_VALUES && Applies(rv, l.surface) && At(Decided(l, disk), rv.key) == Some(rv.value)
  {
    repairs := [];
    assert Refusal(l, Null).None? ==> l.computed in LowerLayers(l) + [Null, l.computed];
    var decided := DecideOverlay(l, disk);
    if decided.Err? { return Err(decided.error), []; }
    var overlay := new ConfigMap(decided.value.0);
    repairs := RepairRejected(l.surface, overlay);
    var narrowed := NarrowBoth(overlay.fields, l.computed, l.surface.managed);
    var current := Read(l, disk.file);
    var literalNulls: Table := map[];
    if current.Some? { literalNulls := LiteralNullSkeleton(current.value); }
    var retired := RetireConvergedOverlay(l, literalNulls, narrowed);
    if retired.Err? { return Err(retired.error), repairs; }
    KeptWrites(l, literalNulls, narrowed);
    OverlayNeverRefused(l, retired.value);
    var res := ComposeSurface(l, Object(retired.value), literalNulls);
    r := Ok(Boot(res.value, retired.value, Read(l, disk.lastRender).None?, decided.value.1));
  }
}
