/** What holds across boots: an unedited reboot is a no-op, adoption loses nothing, and a captured
    edit survives every later regeneration. */
module BootRuns {
  import opened Values
  import opened Engine
  import opened Enforce
  import opened LiteralNull
  import opened Narrow
  import opened Reading
  import opened Writing
  import opened Compose
  import opened StateRender

  // ---------------------------------------------------------------- the stages at one key

  lemma {:induction false} NarrowedAt(l: Layers, overlay: Table, k: string)
    requires Tabular(l)
    ensures At(Narrowed(l, overlay), k)
         == NarrowAt(At(RepairSpec(l.surface, overlay), k), Child(Present(l.computed), k), Child(Present(l.surface.managed), k))
  {
    NarrowChild(Some(Object(RepairSpec(l.surface, overlay))), Present(l.computed), Present(l.surface.managed), k);
  }

  /** Narrowing never makes a scalar that was not there, so it cannot make a rejected one. */
  lemma {:induction false} NarrowedLeafWasThere(o: Option<Value>, c: Option<Value>, m: Option<Value>)
    requires NarrowAt(o, c, m).Some? && NarrowAt(o, c, m).value.Leaf?
    ensures o == NarrowAt(o, c, m)
  {}

  /** An overlay every pass leaves alone. */
  ghost predicate Settled(l: Layers, overlay: Table) {
    Narrowed(l, overlay) == overlay
  }

  lemma {:induction false} PassesSettle(l: Layers, decided: Table, kept: Table)
    requires Tabular(l)
    requires forall k :: k in kept ==> At(Narrowed(l, decided), k) == At(kept, k)
    ensures Settled(l, kept)
  {
    forall k ensures At(Narrowed(l, kept), k) == At(kept, k) {
      NarrowedAt(l, kept, k);
      NarrowedAt(l, decided, k);
      var c, m := Child(Present(l.computed), k), Child(Present(l.surface.managed), k);
      if k in kept {
        NarrowIdempotent(At(RepairSpec(l.surface, decided), k), c, m);
        if Rejects(l.surface, k, kept[k]) {
          assert kept[k].Leaf?;
          NarrowedLeafWasThere(At(RepairSpec(l.surface, decided), k), c, m);
        }
      }
    }
    SameTable(Narrowed(l, kept), kept);
  }

  lemma {:induction false} FloorNullsSpoken(t: Option<Value>, m: Option<Value>, held: seq<Value>)
    requires NullFree(t) && (m.Some? ==> m.value in held)
    ensures NullsSpoken(EnforceAt(t, m), held)
    decreases m.Some?, if m.Some? then m.value else Null
  {
    if IsObject(m) {
      forall k | k in Fields(EnforceAt(t, m)) ensures NullsSpoken(Child(EnforceAt(t, m), k), Below(held, k)) {
        EnforceChild(t, m, k);
        assert NullFree(Child(t, k));
        if k in Fields(m) {
          InBelow(held, k, Child(m, k).value);
          assert Child(Some(m.value), k) == Some(Child(m, k).value);
          FloorNullsSpoken(Child(t, k), Child(m, k), Below(held, k));
        } else {
          NullFreeIsSpoken(Child(t, k), Below(held, k));
        }
      }
    } else {
      NullFreeIsSpoken(t, held);
    }
  }

  /** The only nulls of an enforced config are managed's own. */
  lemma {:induction false} EnforcedNullsSpoken(l: Layers, k: string, entry: Option<Value>)
    requires Tabular(l)
    ensures NullsSpoken(KeyEnforced(l, k, entry), Held(Outranking(l), k))
  {
    var t, c, m := At(Lower(l), k), Child(Present(l.computed), k), Child(Present(l.surface.managed), k);
    FoldNullFree(Tables(LowerLayers(l)));
    assert Child(Some(Object(Lower(l))), k) == t;
    MergeNullFree(t, entry);
    MergeNullFree(MergeAt(t, entry), c);
    var merged := MergeAt(MergeAt(t, entry), c);
    if IsToml(l) {
      TomlFloorNullFree(merged, m);
      NullFreeIsSpoken(FloorAt(true, merged, m), Held(Outranking(l), k));
    } else {
      if m.Some? {
        assert l.surface.managed in [l.computed, l.surface.managed];
        assert Child(Some(l.surface.managed), k) == Some(m.value);
        InBelow([l.computed, l.surface.managed], k, m.value);
      }
      FloorNullsSpoken(merged, m, Held(Outranking(l), k));
    }
  }

  // ---------------------------------------------------------------- an unedited reboot

  /** The state a boot leaves: the file and the baseline are its render as written, the sidecar its overlay
      as JSON. */
  ghost predicate Rendered(l: Layers, disk: Disk, overlay: Table, marks: Table) {
    && Foldable(l.computed)
    && disk.lastRender == Encode(l.surface.codec, ConfigOf(l, Object(overlay), marks))
    && disk.overlay == MarshalOverlay(overlay)
    && Settled(l, overlay)
    && RetireSpec(l, marks, overlay) == overlay
  }

  /** The overlay as the next boot reads it. */
  function Restored(overlay: Table): Table {
    Fields(RereadAt(Json, Some(Object(overlay))))
  }

  lemma {:induction false} RestoredAt(overlay: Table, k: string)
    ensures At(Restored(overlay), k) == RereadAt(Json, At(overlay, k))
    ensures ParseOverlay(MarshalOverlay(overlay)) == Restored(overlay)
    ensures Restored(Restored(overlay)) == Restored(overlay)
  {
    RereadChild(Json, Some(Object(overlay)), k);
    JsonAfter(Json, Object(overlay));
  }

  /** Marks read back off the rendered key do to it what the first marks did. */
  lemma {:induction false} KeyRerenders(l: Layers, k: string, entry: Option<Value>, mark: Option<Value>)
    requires Tabular(l)
    ensures KeyConfig(l, k, entry, SkeletonAt(KeyConfig(l, k, entry, mark))) == KeyConfig(l, k, entry, mark)
  {
    EnforcedNullsSpoken(l, k, entry);
    RenderedMarksSettle(KeyEnforced(l, k, entry), mark, Held(Outranking(l), k));
  }

  /** An entry that showed in the render still shows when the marks come from the render itself. */
  lemma {:induction false} KeyStaysKept(l: Layers, k: string, entry: Value, mark: Option<Value>)
    requires Tabular(l)
    requires KeyConfig(l, k, Some(entry), mark) != KeyConfig(l, k, None, mark)
    ensures var again := SkeletonAt(KeyConfig(l, k, Some(entry), mark));
            KeyConfig(l, k, Some(entry), again) != KeyConfig(l, k, None, again)
  {
    var held := Held(Outranking(l), k);
    KeyRerenders(l, k, Some(entry), mark);
    EnforcedNullsSpoken(l, k, Some(entry));
    EnforcedNullsSpoken(l, k, None);
    if RendersAlike(KeyEnforced(l, k, Some(entry)), KeyEnforced(l, k, None), mark, held) {
      RenderedMarksAgree(KeyEnforced(l, k, Some(entry)), KeyEnforced(l, k, None), mark, held);
    }
  }

  /** Entries JSON cannot tell apart render to what JSON cannot tell apart. */
  lemma {:induction false} KeyRendersSame(l: Layers, k: string, a: Option<Value>, b: Option<Value>, mark: Option<Value>)
    requires Same(a, b)
    ensures Same(KeyConfig(l, k, a, mark), KeyConfig(l, k, b, mark))
  {
    var t, c, m := At(Lower(l), k), Child(Present(l.computed), k), Child(Present(l.surface.managed), k);
    RereadRender(Json, IsToml(l), t, a, c, m);
    RereadRender(Json, IsToml(l), t, b, c, m);
    RereadReinstate(Json, KeyEnforced(l, k, a), mark, Held(Outranking(l), k));
    RereadReinstate(Json, KeyEnforced(l, k, b), mark, Held(Outranking(l), k));
  }

  lemma {:induction false} BootOk(l: Layers, disk: Disk)
    requires BootSpec(l, disk).Ok?
    ensures Foldable(l.computed) && BootWrites(l, disk)
    ensures var b := BootSpec(l, disk).value;
            b.overlay == Kept(l, disk) && b.config == ConfigOf(l, Object(b.overlay), FileMarks(l, disk)) && Encodable(l.surface.codec, b.config)
  {
    assert l.computed in LowerLayers(l) + [Null, l.computed];
    KeptWrites(l, FileMarks(l, disk), Narrowed(l, Decided(l, disk)));
  }

  /** A boot that gets past its layers and its encoder. */
  lemma {:induction false} BootGoes(l: Layers, disk: Disk)
    requires Refusal(l, Null).None? && Foldable(l.computed) && BootWrites(l, disk)
    ensures BootSpec(l, disk).Ok?
  {}

  /** Every boot, from any state of the disk, leaves a rendered state behind. */
  lemma {:induction false} BootLeavesRendered(l: Layers, disk: Disk)
    requires BootSpec(l, disk).Ok?
    ensures var b := BootSpec(l, disk).value; Rendered(l, Persist(l, b), b.overlay, FileMarks(l, disk))
  {
    BootOk(l, disk);
    RetireIdempotent(l, FileMarks(l, disk), Narrowed(l, Decided(l, disk)));
    if Tabular(l) {
      PassesSettle(l, Decided(l, disk), Kept(l, disk));
    } else {
      NotTabularKeepsNothing(l, Decided(l, disk));
      NotTabularKeepsNothing(l, Kept(l, disk));
    }
  }

  lemma {:induction false} NotTabularKeepsNothing(l: Layers, overlay: Table)
    requires Foldable(l.computed) && !Foldable(l.surface.managed)
    ensures Narrowed(l, overlay) == map[]
  {}

  lemma {:induction false} SkeletonTableAt(file: Table, k: string)
    ensures At(Skeleton(file), k) == SkeletonAt(At(file, k))
  {
    SkeletonChild(Some(Object(file)), k);
  }

  lemma {:induction false} CapturedAt(overlay: Table, last: Table, current: Table, k: string)
    ensures At(Captured(overlay, last, current), k) == AccumulateAt(At(overlay, k), DiffAt(At(last, k), At(current, k)))
  {
    DiffChild(Some(Object(last)), Some(Object(current)), k);
    AccumulateChild(Some(Object(overlay)), Some(Object(Diff(last, current))), k);
  }

  /** The disk at the next boot: the file as edited, the sidecars as the last boot wrote them. */
  function Edited(disk: Disk, edit: FileContent): Disk {
    disk.(file := edit)
  }

  /** The baseline and the file both decode, so the next boot captures. */
  predicate Captures(l: Layers, disk: Disk, edit: FileContent) {
    Read(l, disk.lastRender).Some? && Read(l, edit).Some?
  }

  /** The baseline holds the render as its codec rereads it. */
  lemma {:induction false} TrustedBaseline(l: Layers, disk: Disk, overlay: Table, marks: Table, k: string)
    requires Rendered(l, disk, overlay, marks) && Read(l, disk.lastRender).Some?
    ensures Tabular(l)
    ensures At(Read(l, disk.lastRender).value, k) == RereadAt(l.surface.codec, KeyConfig(l, k, At(overlay, k), At(marks, k)))
  {
    EnforcedIsSome(l, Object(overlay));
    ConfigByKey(l, Object(overlay), marks, k);
    RereadChild(l.surface.codec, Some(ConfigOf(l, Object(overlay), marks)), k);
  }

  /** Reading a settled entry back from JSON leaves it settled. */
  lemma {:induction false} RestoredSettled(l: Layers, overlay: Table, k: string)
    requires Tabular(l) && Settled(l, overlay)
    ensures At(Narrowed(l, Restored(overlay)), k) == At(Restored(overlay), k)
    ensures k in Restored(overlay) ==> !Rejects(l.surface, k, Restored(overlay)[k])
  {
    RestoredAt(overlay, k);
    NarrowedAt(l, overlay, k);
    NarrowedAt(l, Restored(overlay), k);
    RereadNarrow(Json, At(overlay, k), Child(Present(l.computed), k), Child(Present(l.surface.managed), k));
    assert At(RepairSpec(l.surface, overlay), k) == At(overlay, k);
    RejectedAlike(l.surface, k, At(overlay, k));
  }

  /** JSON reads nothing as a rejected value that was not one. */
  lemma {:induction false} RejectedAlike(s: Surface, k: string, v: Option<Value>)
    ensures v.Some? ==> (Rejects(s, k, Reread(Json, v.value)) <==> Rejects(s, k, v.value))
  {
    if v.Some? && v.value.Leaf? {
      assert forall rv :: rv in REJECTED_VALUES ==> rv.value == Leaf(Text("system"));
      assert |"system"| == 6;
    }
  }

  /** A key whose rendered value stands keeps its overlay entry, as JSON reads it, through narrowing and repair. */
  lemma {:induction false} UntouchedEntryDecided(l: Layers, disk: Disk, overlay: Table, marks: Table, edit: FileContent, k: string)
    requires Rendered(l, disk, overlay, marks) && Captures(l, disk, edit)
    requires At(Read(l, edit).value, k) == At(Read(l, disk.lastRender).value, k)
    ensures At(Narrowed(l, Decided(l, Edited(disk, edit))), k) == RereadAt(Json, At(overlay, k))
    ensures At(FileMarks(l, Edited(disk, edit)), k) == SkeletonAt(KeyConfig(l, k, At(overlay, k), At(marks, k)))
  {
    var last, current := Read(l, disk.lastRender).value, Read(l, edit).value;
    var decided := Captured(Restored(overlay), last, current);
    TrustedBaseline(l, disk, overlay, marks, k);
    RestoredAt(overlay, k);
    assert Decided(l, Edited(disk, edit)) == decided;
    CapturedAt(Restored(overlay), last, current, k);
    DiffEmptyIffEqual(At(last, k), At(current, k));
    assert At(decided, k) == At(Restored(overlay), k);
    RestoredSettled(l, overlay, k);
    NarrowedAt(l, decided, k);
    NarrowedAt(l, Restored(overlay), k);
    assert At(RepairSpec(l.surface, decided), k) == At(RepairSpec(l.surface, Restored(overlay)), k);
    SkeletonTableAt(current, k);
    RereadSkeleton(l.surface.codec, KeyConfig(l, k, At(overlay, k), At(marks, k)));
  }

  /** A key the user did not touch, whatever was edited beside it and whichever layer owns it, is rendered
      with the same numbers, strings and tables. Its overlay entry is the stored one as JSON reads it, or is
      let go because the layers now say as much; and where JSON reads the stored entry as it was, nothing
      about the key moves at all. */
  lemma {:induction false} UntouchedKeyStands(l: Layers, disk: Disk, overlay: Table, marks: Table, edit: FileContent, k: string)
    requires Rendered(l, disk, overlay, marks) && Captures(l, disk, edit)
    requires At(Read(l, edit).value, k) == At(Read(l, disk.lastRender).value, k)
    ensures var next := Edited(disk, edit);
            var render := Child(Some(ConfigOf(l, Object(Kept(l, next)), FileMarks(l, next))), k);
            && Same(render, At(Read(l, disk.lastRender).value, k))
            && (At(Kept(l, next), k) == RereadAt(Json, At(overlay, k)) || At(Kept(l, next), k) == None)
            && (RereadAt(Json, At(overlay, k)) == At(overlay, k) ==>
                  At(Kept(l, next), k) == At(overlay, k) && render == KeyConfig(l, k, At(overlay, k), At(marks, k)))
  {
    TrustedBaseline(l, disk, overlay, marks, k);
    UntouchedEntryDecided(l, disk, overlay, marks, edit, k);
    var next := Edited(disk, edit);
    var was := KeyConfig(l, k, At(overlay, k), At(marks, k));
    UntouchedRender(l, disk, overlay, marks, edit, k);
    KeyRerenders(l, k, At(overlay, k), At(marks, k));
    JsonAfterAt(Json, At(overlay, k));
    JsonAfterAt(l.surface.codec, was);
    KeyRendersSame(l, k, RereadAt(Json, At(overlay, k)), At(overlay, k), SkeletonAt(was));
    if k in overlay && RereadAt(Json, At(overlay, k)) == At(overlay, k) {
      assert k in RetireSpec(l, marks, overlay);
      ConvergedIff(l, marks, k, overlay[k]);
      KeyStaysKept(l, k, overlay[k], At(marks, k));
      ConvergedIff(l, FileMarks(l, next), k, overlay[k]);
    }
  }

  lemma {:induction false} UntouchedRender(l: Layers, disk: Disk, overlay: Table, marks: Table, edit: FileContent, k: string)
    requires Rendered(l, disk, overlay, marks) && Captures(l, disk, edit)
    requires At(Read(l, edit).value, k) == At(Read(l, disk.lastRender).value, k)
    ensures var next := Edited(disk, edit);
            Child(Some(ConfigOf(l, Object(Kept(l, next)), FileMarks(l, next))), k) ==
              KeyConfig(l, k, RereadAt(Json, At(overlay, k)), SkeletonAt(KeyConfig(l, k, At(overlay, k), At(marks, k))))
  {
    var next := Edited(disk, edit);
    TrustedBaseline(l, disk, overlay, marks, k);
    UntouchedEntryDecided(l, disk, overlay, marks, edit, k);
    RetireInvisible(l, FileMarks(l, next), Narrowed(l, Decided(l, next)));
    ConfigByKey(l, Object(Narrowed(l, Decided(l, next))), FileMarks(l, next), k);
  }

  /** A boot whose written config reads back, followed by a boot with no edit: the overlay is what JSON makes of
      the stored one, less what the layers then say as well; and if JSON makes nothing else of it, nothing moves. */
  lemma {:induction false} RebootIsNoOp(l: Layers, disk: Disk, overlay: Table, marks: Table)
    requires Rendered(l, disk, overlay, marks) && Captures(l, disk, disk.lastRender)
    ensures var next := Edited(disk, disk.lastRender);
            && (forall k :: k in Kept(l, next) ==> At(Kept(l, next), k) == At(Restored(overlay), k))
            && Same(Some(ConfigOf(l, Object(Kept(l, next)), FileMarks(l, next))), Some(ConfigOf(l, Object(overlay), marks)))
            && (Restored(overlay) == overlay ==>
                  Kept(l, next) == overlay && ConfigOf(l, Object(Kept(l, next)), FileMarks(l, next)) == ConfigOf(l, Object(overlay), marks))
  {
    var next := Edited(disk, disk.lastRender);
    var here, there := Some(ConfigOf(l, Object(Kept(l, next)), FileMarks(l, next))), Some(ConfigOf(l, Object(overlay), marks));
    TrustedBaseline(l, disk, overlay, marks, "");
    ConfigByKey(l, Object(Kept(l, next)), FileMarks(l, next), "");
    ConfigByKey(l, Object(overlay), marks, "");
    forall k
      ensures At(Kept(l, next), k) == None || At(Kept(l, next), k) == At(Restored(overlay), k)
      ensures Child(RereadAt(Json, here), k) == Child(RereadAt(Json, there), k)
      ensures Restored(overlay) == overlay ==> At(Kept(l, next), k) == At(overlay, k) && Child(here, k) == Child(there, k)
    {
      RebootKey(l, disk, overlay, marks, k);
    }
    SameObject(RereadAt(Json, here), RereadAt(Json, there));
    if Restored(overlay) == overlay {
      SameTable(Kept(l, next), overlay);
      SameObject(here, there);
    }
  }

  lemma {:induction false} RebootKey(l: Layers, disk: Disk, overlay: Table, marks: Table, k: string)
    requires Rendered(l, disk, overlay, marks) && Captures(l, disk, disk.lastRender)
    ensures var next := Edited(disk, disk.lastRender);
            var here, there := Some(ConfigOf(l, Object(Kept(l, next)), FileMarks(l, next))), Some(ConfigOf(l, Object(overlay), marks));
            && (At(Kept(l, next), k) == None || At(Kept(l, next), k) == At(Restored(overlay), k))
            && Child(RereadAt(Json, here), k) == Child(RereadAt(Json, there), k)
            && (Restored(overlay) == overlay ==> At(Kept(l, next), k) == At(overlay, k) && Child(here, k) == Child(there, k))
  {
    var next := Edited(disk, disk.lastRender);
    RestoredAt(overlay, k);
    UntouchedKeyStands(l, disk, overlay, marks, disk.lastRender, k);
    TrustedBaseline(l, disk, overlay, marks, k);
    ConfigByKey(l, Object(overlay), marks, k);
    JsonAfterAt(l.surface.codec, KeyConfig(l, k, At(overlay, k), At(marks, k)));
    RereadChild(Json, Some(ConfigOf(l, Object(Kept(l, next)), FileMarks(l, next))), k);
    RereadChild(Json, Some(ConfigOf(l, Object(overlay), marks)), k);
  }

  lemma {:induction false} NothingKept(l: Layers, disk: Disk)
    requires Foldable(l.computed) && Read(l, disk.lastRender).None? && Read(l, disk.file).None?
    ensures Kept(l, disk) == map[] && FileMarks(l, disk) == map[] && Narrowed(l, Decided(l, disk)) == map[]
  {
    assert Decided(l, disk) == map[];
    assert RepairSpec(l.surface, map[]) == map[];
    if Tabular(l) {
      forall k ensures At(Narrowed(l, map[]), k) == At(map[], k) { NarrowedAt(l, map[], k); }
      SameTable(Narrowed(l, map[]), map[]);
    } else {
      NotTabularKeepsNothing(l, map[]);
    }
  }

  /** A config no null was written into is the config without marks. */
  lemma {:induction false} EmptyConfigHasNoMarks(l: Layers, marks: Table)
    requires Tabular(l) && ConfigOf(l, Object(map[]), marks) == Object(map[])
    ensures ConfigOf(l, Object(map[]), map[]) == Object(map[])
  {
    forall k ensures KeyConfig(l, k, None, At(map[], k)) == KeyConfig(l, k, None, At(marks, k)) {
      ConfigByKey(l, Object(map[]), marks, k);
      ReinstateKeepsPresence(KeyEnforced(l, k, None), At(marks, k), Held(Outranking(l), k));
    }
    SameConfig(l, Object(map[]), Object(map[]), map[], marks);
  }

  lemma {:induction false} ReinstateKeepsPresence(cur: Option<Value>, mark: Option<Value>, held: seq<Value>)
    ensures cur.Some? ==> ReinstateAt(cur, mark, held).Some?
  {}

  // ---------------------------------------------------------------- whether the second boot goes

  lemma {:induction false} KeyedUnmarked(v: Value)
    requires KeyedToml(v)
    ensures SkeletonAt(Some(v)).None?
  {
    if v.Object? {
      forall k | k in v.fields ensures SkeletonAt(Child(Some(v), k)).None? { KeyedUnmarked(v.fields[k]); }
    }
  }

  lemma {:induction false} MarksAddNoMoment(cur: Option<Value>, mark: Option<Value>, held: seq<Value>)
    requires EncodableAt(Yaml, cur)
    ensures EncodableAt(Yaml, ReinstateAt(cur, mark, held))
    decreases mark.Some?, if mark.Some? then mark.value else Null
  {
    if IsObject(mark) && Enters(cur, held) {
      var r := ReinstateAt(cur, mark, held);
      forall k | k in Fields(r) ensures NoMoment(Fields(r)[k]) {
        ReinstateChild(cur, mark, held, k);
        assert EncodableAt(Yaml, Child(cur, k));
        if k in Fields(mark) { MarksAddNoMoment(Child(cur, k), Child(mark, k), Below(held, k)); }
      }
      ReinstateChild(cur, mark, held, "");
    }
  }

  /** A TOML file marks nothing. */
  lemma {:induction false} TomlMarksNothing(l: Layers, disk: Disk)
    requires IsToml(l)
    ensures FileMarks(l, disk) == map[]
  {
    if Read(l, disk.file).Some? { TomlUnmarked(disk.file.value); }
  }

  lemma {:induction false} EntryWritesAgain(l: Layers, k: string, entry: Value, mark: Option<Value>)
    requires Tabular(l) && KeyWrites(l, k, Some(entry), mark)
    ensures KeyWrites(l, k, Some(Reread(Json, entry)), SkeletonAt(KeyConfig(l, k, Some(entry), mark)))
  {
    var t, c, m := At(Lower(l), k), Child(Present(l.computed), k), Child(Present(l.surface.managed), k);
    var was, e, e' := KeyConfig(l, k, Some(entry), mark), Some(entry), RereadAt(Json, Some(entry));
    KeyRerenders(l, k, e, mark);
    MilderSelf(e);
    MilderSelf(t);
    MilderSelf(c);
    MilderMerge(t, t, e', e);
    MilderMerge(MergeAt(t, e'), MergeAt(t, e), c, c);
    MilderFloor(IsToml(l), MergeAt(MergeAt(t, e'), c), MergeAt(MergeAt(t, e), c), m);
    MilderReinstate(KeyEnforced(l, k, e'), KeyEnforced(l, k, e), SkeletonAt(was), Held(Outranking(l), k));
    EncodableMilder(l.surface.codec, KeyConfig(l, k, e', SkeletonAt(was)), was);
  }

  /** The disk a boot leaves, as the next one finds it unedited. */
  lemma {:induction false} RebootEntriesWrite(l: Layers, disk: Disk, k: string)
    requires BootSpec(l, disk).Ok? && Read(l, Persist(l, BootSpec(l, disk).value).lastRender).Some?
    ensures var next := Persist(l, BootSpec(l, disk).value);
            k in Narrowed(l, Decided(l, next)) ==> KeyWrites(l, k, Some(Narrowed(l, Decided(l, next))[k]), At(FileMarks(l, next), k))
  {
    var b := BootSpec(l, disk).value;
    var next := Persist(l, b);
    BootOk(l, disk);
    BootLeavesRendered(l, disk);
    TrustedBaseline(l, next, b.overlay, FileMarks(l, disk), k);
    UntouchedEntryDecided(l, next, b.overlay, FileMarks(l, disk), next.file, k);
    assert Edited(next, next.file) == next;
    WritesByKey(l, Object(b.overlay), FileMarks(l, disk));
    if k in b.overlay {
      assert KeyWrites(l, k, Child(Some(Object(b.overlay)), k), At(FileMarks(l, disk), k));
      EntryWritesAgain(l, k, b.overlay[k], At(FileMarks(l, disk), k));
    }
  }

  /** After a boot that went, the next one over what it wrote fails only if the layers alone, with the nulls of
      the file put back, can no longer be written. That needs a date in the layers of a YAML surface. */
  lemma {:induction false} RebootGoes(l: Layers, disk: Disk)
    requires BootSpec(l, disk).Ok?
    ensures var next := Persist(l, BootSpec(l, disk).value);
            && Foldable(l.computed)
            && (BootSpec(l, next).Ok? <==> Writes(l, Null, FileMarks(l, next)))
            && (!l.surface.codec.Yaml? || Writes(l, Null, map[]) ==> BootSpec(l, next).Ok?)
  {
    BootOk(l, disk);
    var next := Persist(l, BootSpec(l, disk).value);
    if Read(l, next.lastRender).Some? {
      BootLeavesRendered(l, disk);
      TrustedBaseline(l, next, BootSpec(l, disk).value.overlay, FileMarks(l, disk), "");
      forall k | k in Narrowed(l, Decided(l, next))
        ensures KeyWrites(l, k, Some(Narrowed(l, Decided(l, next))[k]), At(FileMarks(l, next), k))
      {
        RebootEntriesWrite(l, disk, k);
      }
      RetireWritesIff(l, FileMarks(l, next), Narrowed(l, Decided(l, next)));
      LayersWriteAgain(l, disk, next);
    } else {
      NothingKept(l, next);
      UnreadRebootGoes(l, disk);
    }
  }

  lemma {:induction false} LayersWriteAgain(l: Layers, disk: Disk, next: Disk)
    requires Tabular(l) && Writes(l, Null, FileMarks(l, disk))
    ensures !l.surface.codec.Yaml? || Writes(l, Null, map[]) ==> Writes(l, Null, FileMarks(l, next))
  {
    if IsToml(l) {
      TomlMarksNothing(l, disk);
      TomlMarksNothing(l, next);
    } else if Writes(l, Null, map[]) {
      WritesByKey(l, Null, map[]);
      WritesByKey(l, Null, FileMarks(l, next));
      forall k ensures KeyWrites(l, k, Child(Some(Null), k), At(FileMarks(l, next), k)) {
        assert KeyWrites(l, k, Child(Some(Null), k), At(map[], k));
        if l.surface.codec.Yaml? { MarksAddNoMoment(KeyEnforced(l, k, None), At(FileMarks(l, next), k), Held(Outranking(l), k)); }
      }
    }
  }

  /** What was written does not read back: the config is an empty TOML document, or a managed value that is no
      table and that no layer touches. */
  lemma {:induction false} UnreadRebootGoes(l: Layers, disk: Disk)
    requires BootSpec(l, disk).Ok? && Read(l, Persist(l, BootSpec(l, disk).value).lastRender).None?
    ensures Foldable(l.computed) && Writes(l, Null, map[])
  {
    BootOk(l, disk);
    var b := BootSpec(l, disk).value;
    if Tabular(l) {
      ConfigByKey(l, Object(b.overlay), FileMarks(l, disk), "");
      WrittenReads(l.surface.codec, b.config);
      TomlMarksNothing(l, disk);
    } else {
      EnforcedIsSome(l, Null);
      EnforcedIsSome(l, Object(b.overlay));
      ManagedStands(l, Null, FileMarks(l, disk));
      ManagedStands(l, Null, map[]);
    }
  }

  /** A managed value that is no table is the config, whatever the overlay and the marks. */
  lemma {:induction false} ManagedStands(l: Layers, overlay: Value, literalNulls: Table)
    requires Foldable(l.computed) && Foldable(overlay) && !Foldable(l.surface.managed)
    ensures ConfigOf(l, overlay, literalNulls) == l.surface.managed
  {
    EnforcedIsSome(l, overlay);
  }

  // ---------------------------------------------------------------- quiescence

  /** Quiescence, exactly. After any boot, a second boot over what it wrote changes neither the config nor the
      overlay if and only if the written config reads back as a trusted baseline and JSON reads the stored overlay
      as it was, or there was no overlay. Only an empty TOML document or a keyless managed value fails to read
      back; only a whole number, or a date, of a TOML or YAML file is read otherwise by JSON. */
  lemma {:induction false} Quiescence(l: Layers, disk: Disk)
    requires BootSpec(l, disk).Ok? && BootSpec(l, Persist(l, BootSpec(l, disk).value)).Ok?
    ensures var b := BootSpec(l, disk).value;
            var again := BootSpec(l, Persist(l, b)).value;
            (again.config == b.config && again.overlay == b.overlay) <==>
              ((Read(l, Encode(l.surface.codec, b.config)).Some? && Restored(b.overlay) == b.overlay) || b.overlay == map[])
  {
    BootOk(l, disk);
    BootLeavesRendered(l, disk);
    var b := BootSpec(l, disk).value;
    var next := Persist(l, b);
    BootOk(l, next);
    if Read(l, next.lastRender).Some? {
      RebootIsNoOp(l, next, b.overlay, FileMarks(l, disk));
      assert Edited(next, next.lastRender) == next;
      if Kept(l, next) == b.overlay { KeptIsRestored(b.overlay, b.overlay); }
    } else {
      NothingKept(l, next);
      if b.overlay == map[] {
        if Tabular(l) {
          ConfigByKey(l, Object(b.overlay), FileMarks(l, disk), "");
          WrittenReads(l.surface.codec, b.config);
          EmptyConfigHasNoMarks(l, FileMarks(l, disk));
        } else {
          EnforcedIsSome(l, Object(map[]));
        }
      }
    }
  }

  /** An overlay all of whose entries are as JSON reads some overlay's is as JSON reads it itself. */
  lemma {:induction false} KeptIsRestored(kept: Table, overlay: Table)
    requires forall k :: k in kept ==> At(kept, k) == At(Restored(overlay), k)
    ensures Restored(kept) == kept
  {
    forall k ensures At(Restored(kept), k) == At(kept, k) {
      RestoredAt(kept, k);
      RestoredAt(overlay, k);
      JsonAfterAt(Json, At(overlay, k));
    }
    SameTable(Restored(kept), kept);
  }

  /** A home is unsettled for one boot at most: whatever the second boot made of the overlay, the third makes the
      same of it, unless the second's config does not read back. */
  lemma {:induction false} SettlesAtSecondBoot(l: Layers, disk: Disk)
    requires BootSpec(l, disk).Ok?
    requires var next := Persist(l, BootSpec(l, disk).value);
             BootSpec(l, next).Ok? && BootSpec(l, Persist(l, BootSpec(l, next).value)).Ok?
    ensures var second := BootSpec(l, Persist(l, BootSpec(l, disk).value)).value;
            var third := BootSpec(l, Persist(l, second)).value;
            (third.config == second.config && third.overlay == second.overlay) <==>
              (Read(l, Encode(l.surface.codec, second.config)).Some? || second.overlay == map[])
  {
    var b := BootSpec(l, disk).value;
    var next := Persist(l, b);
    BootLeavesRendered(l, disk);
    BootOk(l, next);
    Quiescence(l, next);
    if Read(l, next.lastRender).Some? {
      RebootIsNoOp(l, next, b.overlay, FileMarks(l, disk));
      assert Edited(next, next.lastRender) == next;
      KeptIsRestored(Kept(l, next), b.overlay);
    } else {
      NothingKept(l, next);
    }
  }

  // ---------------------------------------------------------------- JSON surfaces

  lemma {:induction false} DiffStands(old': Option<Value>, new': Option<Value>)
    requires RereadAt(Json, old') == old' && RereadAt(Json, new') == new'
    ensures RereadAt(Json, DiffAt(old', new')) == DiffAt(old', new')
    decreases new'.Some?, if new'.Some? then new'.value else Null
  {
    var d := DiffAt(old', new');
    if IsObject(old') && IsObject(new') && d.Some? {
      forall k ensures Child(RereadAt(Json, d), k) == Child(d, k) {
        DiffChild(old', new', k);
        RereadChild(Json, d, k);
        RereadChild(Json, old', k);
        RereadChild(Json, new', k);
        if k in Fields(new') { DiffStands(Child(old', k), Child(new', k)); }
      }
      DiffChild(old', new', "");
      SameObject(RereadAt(Json, d), d);
    }
  }

  /** On a JSON surface nothing the overlay can hold is read otherwise. */
  lemma {:induction false} JsonOverlayStands(l: Layers, disk: Disk)
    requires l.surface.codec.Json? && Tabular(l)
    ensures Restored(Kept(l, disk)) == Kept(l, disk)
  {
    forall k ensures At(Restored(Kept(l, disk)), k) == At(Kept(l, disk), k) {
      RestoredAt(Kept(l, disk), k);
      JsonDecidedStands(l, disk, k);
      NarrowedAt(l, Decided(l, disk), k);
      RereadNarrow(Json, At(Decided(l, disk), k), Child(Present(l.computed), k), Child(Present(l.surface.managed), k));
    }
    SameTable(Restored(Kept(l, disk)), Kept(l, disk));
  }

  lemma {:induction false} JsonReadStands(f: FileContent, k: string)
    requires DecodeObject(Json, f).Some?
    ensures RereadAt(Json, At(DecodeObject(Json, f).value, k)) == At(DecodeObject(Json, f).value, k)
  {
    JsonLegibleStands(f.value);
    RereadChild(Json, Some(f.value), k);
  }

  lemma {:induction false} JsonDecidedStands(l: Layers, disk: Disk, k: string)
    requires l.surface.codec.Json? && Tabular(l)
    ensures RereadAt(Json, At(Decided(l, disk), k)) == At(Decided(l, disk), k)
  {
    var stored := ParseOverlay(disk.overlay);
    assert RereadAt(Json, At(stored, k)) == At(stored, k) by {
      if disk.overlay.Holds? && disk.overlay.value.Object? {
        RereadChild(Json, Some(disk.overlay.value), k);
        JsonAfterAt(Json, Child(Some(disk.overlay.value), k));
      }
    }
    if Read(l, disk.file).Some? {
      var current := Read(l, disk.file).value;
      JsonReadStands(disk.file, k);
      if Read(l, disk.lastRender).Some? {
        var last := Read(l, disk.lastRender).value;
        JsonReadStands(disk.lastRender, k);
        DiffStands(At(last, k), At(current, k));
        CapturedAt(stored, last, current, k);
        RereadAccumulate(Json, At(stored, k), DiffAt(At(last, k), At(current, k)));
      } else {
        JsonAdoptedStands(l, current, k);
      }
    }
  }

  lemma {:induction false} JsonAdoptedStands(l: Layers, current: Table, k: string)
    requires l.surface.codec.Json? && Tabular(l) && RereadAt(Json, At(current, k)) == At(current, k)
    ensures RereadAt(Json, At(Adopted(l, current), k)) == At(Adopted(l, current), k)
  {
    var pure := PureTable(l);
    ConfigByKey(l, Null, map[], k);
    RereadChild(Json, Some(ConfigOf(l, Null, map[])), k);
    JsonAfterAt(Json, Child(Some(ConfigOf(l, Null, map[])), k));
    DiffStands(At(pure, k), At(current, k));
    DiffChild(Some(Object(pure)), Some(Object(current)), k);
    if Diff(pure, current) != map[] { DropNullsChild(Some(Object(Diff(pure, current))), k); }
    RereadDropNulls(Json, DiffAt(At(pure, k), At(current, k)));
  }

  /** On a JSON surface every boot is quiescent. */
  lemma {:induction false} JsonQuiescence(l: Layers, disk: Disk)
    requires l.surface.codec.Json? && Tabular(l) && BootSpec(l, disk).Ok?
    ensures var b := BootSpec(l, disk).value;
            BootSpec(l, Persist(l, b)).Ok? &&
            var again := BootSpec(l, Persist(l, b)).value;
            again.config == b.config && again.overlay == b.overlay && Persist(l, again) == Persist(l, b)
  {
    RebootGoes(l, disk);
    BootOk(l, disk);
    JsonOverlayStands(l, disk);
    Quiescence(l, disk);
    ConfigByKey(l, Object(BootSpec(l, disk).value.overlay), FileMarks(l, disk), "");
    WrittenReads(Json, BootSpec(l, disk).value.config);
  }
}
