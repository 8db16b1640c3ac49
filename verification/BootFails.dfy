/** When a boot fails. Absent, corrupt and unreadable content never does it; what the surface's encoder refuses
    does, and only a TOML surface can be handed that by its own file. */
module BootFails {
  import opened Values
  import opened Engine
  import opened Enforce
  import opened LiteralNull
  import opened Narrow
  import opened Reading
  import opened Writing
  import opened Compose
  import opened StateRender
  import opened BootRuns

  /** One composition of the boot cannot be written at this key: the pure render it adopts against, the layers
      with the file's nulls, or the overlay entry. */
  ghost predicate KeyFails(l: Layers, disk: Disk, k: string)
    requires Foldable(l.computed)
  {
    var mark, narrowed := At(FileMarks(l, disk), k), Narrowed(l, Decided(l, disk));
    || (Adopts(l, disk) && !KeyWrites(l, k, None, None))
    || !KeyWrites(l, k, None, mark)
    || (k in narrowed && !KeyWrites(l, k, At(narrowed, k), mark))
  }

  /** A boot fails exactly when its layers are refused, or the encoder refuses what the layers alone, or the
      layers with one entry of the decided overlay, render at some key. */
  lemma {:induction false} BootFailsIff(l: Layers, disk: Disk)
    requires Tabular(l)
    ensures BootSpec(l, disk).Err? <==> Refusal(l, Null).Some? || exists k :: KeyFails(l, disk, k)
  {
    WritesByKey(l, Null, map[]);
    WritesByKey(l, Null, FileMarks(l, disk));
    RetireWritesIff(l, FileMarks(l, disk), Narrowed(l, Decided(l, disk)));
    if Refusal(l, Null).None? {
      forall k ensures KeyFails(l, disk, k) ==> !BootWrites(l, disk) {
        assert Child(Some(Null), k) == None == At(map[], k);
      }
      if !BootWrites(l, disk) {
        var k := FailingKey(l, disk);
        assert KeyFails(l, disk, k);
      }
    }
  }

  lemma {:induction false} FailingKey(l: Layers, disk: Disk) returns (k: string)
    requires Tabular(l) && !BootWrites(l, disk)
    ensures KeyFails(l, disk, k)
  {
    var marks, narrowed := FileMarks(l, disk), Narrowed(l, Decided(l, disk));
    WritesByKey(l, Null, map[]);
    WritesByKey(l, Null, marks);
    RetireWritesIff(l, marks, narrowed);
    if Adopts(l, disk) && !Writes(l, Null, map[]) {
      k :| !KeyWrites(l, k, Child(Some(Null), k), At(map[], k));
    } else if !Writes(l, Null, marks) {
      k :| !KeyWrites(l, k, Child(Some(Null), k), At(marks, k));
    } else {
      k :| k in narrowed && !KeyWrites(l, k, Some(narrowed[k]), At(marks, k));
    }
  }

  // ---------------------------------------------------------------- no file of another format can do it

  lemma {:induction false} LegibleNoMoment(v: Value)
    requires Legible(Yaml, v)
    ensures NoMoment(v)
  {
    match v
    case List(elems) => forall i | 0 <= i < |elems| ensures NoMoment(elems[i]) { LegibleNoMoment(elems[i]); }
    case Object(fields) => forall k | k in fields ensures NoMoment(fields[k]) { LegibleNoMoment(fields[k]); }
    case _ =>
  }

  lemma {:induction false} JsonNoMoment(v: Value)
    ensures NoMoment(Reread(Json, v))
  {
    match v
    case List(elems) => forall i | 0 <= i < |elems| ensures NoMoment(Reread(Json, v).elems[i]) { JsonNoMoment(elems[i]); }
    case Object(fields) => forall k | k in fields ensures NoMoment(Reread(Json, v).fields[k]) { JsonNoMoment(fields[k]); }
    case _ =>
  }

  ghost predicate Dateless(v: Option<Value>) {
    EncodableAt(Yaml, v)
  }

  lemma {:induction false} DatelessByKey(v: Option<Value>)
    requires IsObject(v)
    ensures Dateless(v) <==> forall k :: Dateless(Child(v, k))
  {
    EncodableByKey(Yaml, v.value);
  }

  lemma {:induction false} DatelessChild(v: Option<Value>, k: string)
    requires Dateless(v)
    ensures Dateless(Child(v, k))
  {}

  lemma {:induction false} DiffDateless(old': Option<Value>, new': Option<Value>)
    requires Dateless(new')
    ensures Dateless(DiffAt(old', new'))
    decreases new'.Some?, if new'.Some? then new'.value else Null
  {
    if IsObject(old') && IsObject(new') && DiffAt(old', new').Some? {
      forall k ensures Dateless(Child(DiffAt(old', new'), k)) {
        DiffChild(old', new', k);
        if k in Fields(new') { DiffDateless(Child(old', k), Child(new', k)); }
      }
      DiffChild(old', new', "");
      DatelessByKey(DiffAt(old', new'));
    }
  }

  lemma {:induction false} AccumulateDateless(p: Option<Value>, q: Option<Value>)
    requires Dateless(p) && Dateless(q)
    ensures Dateless(AccumulateAt(p, q))
    decreases q.Some?, if q.Some? then q.value else Null
  {
    if IsObject(p) && IsObject(q) {
      forall k ensures Dateless(Child(AccumulateAt(p, q), k)) {
        AccumulateChild(p, q, k);
        DatelessChild(p, k);
        if k in Fields(q) { AccumulateDateless(Child(p, k), Child(q, k)); }
      }
      AccumulateChild(p, q, "");
      DatelessByKey(AccumulateAt(p, q));
    }
  }

  lemma {:induction false} DropNullsDateless(v: Option<Value>)
    requires Dateless(v)
    ensures Dateless(DropNullsAt(v))
    decreases v.Some?, if v.Some? then v.value else Null
  {
    if IsObject(v) && DropNullsAt(v).Some? {
      forall k ensures Dateless(Child(DropNullsAt(v), k)) {
        DropNullsChild(v, k);
        if k in Fields(v) { DropNullsDateless(Child(v, k)); }
      }
      DropNullsChild(v, "");
      DatelessByKey(DropNullsAt(v));
    }
  }

  lemma {:induction false} DropOwnedDateless(v: Option<Value>, owner: Option<Value>)
    requires Dateless(v)
    ensures Dateless(DropOwnedAt(v, owner))
    decreases v.Some?, if v.Some? then v.value else Null
  {
    if IsObject(v) && IsObject(owner) && DropOwnedAt(v, owner).Some? {
      forall k ensures Dateless(Child(DropOwnedAt(v, owner), k)) {
        DropOwnedChild(v, owner, k);
        if k in Fields(v) { DropOwnedDateless(Child(v, k), Child(owner, k)); }
      }
      DropOwnedChild(v, owner, "");
      DatelessByKey(DropOwnedAt(v, owner));
    }
  }

  /** Over a scalar or a list, an object merges and a floor is enforced as over nothing. */
  lemma {:induction false} OverLeaf(t: Option<Value>, p: Option<Value>)
    requires !IsObject(t) && IsObject(p)
    ensures MergeAt(t, p) == MergeAt(None, p) && EnforceAt(t, p) == EnforceAt(None, p)
  {
    forall k
      ensures Child(MergeAt(t, p), k) == Child(MergeAt(None, p), k)
      ensures Child(EnforceAt(t, p), k) == Child(EnforceAt(None, p), k)
    {
      MergeChild(t, p, k);
      MergeChild(None, p, k);
      EnforceChild(t, p, k);
      EnforceChild(None, p, k);
    }
    SameObject(MergeAt(t, p), MergeAt(None, p));
    SameObject(EnforceAt(t, p), EnforceAt(None, p));
  }

  /** Taking the lower layers away brings no date up. */
  lemma {:induction false} DatelessWithout(t: Option<Value>, c: Option<Value>, m: Option<Value>)
    requires Dateless(RenderAt(false, t, None, c, m))
    ensures Dateless(RenderAt(false, None, None, c, m))
    decreases c.Some?, if c.Some? then c.value else Null, m.Some?, if m.Some? then m.value else Null
  {
    if Mergeable(c) && Mergeable(m) && (c.Some? || m.Some?) {
      var r := RenderAt(false, None, None, c, m);
      forall k ensures Dateless(Child(r, k)) {
        RenderChild(false, t, None, c, m, k);
        RenderChild(false, None, None, c, m, k);
        DatelessChild(RenderAt(false, t, None, c, m), k);
        if k in Fields(c) || k in Fields(m) { DatelessWithout(Child(t, k), Child(c, k), Child(m, k)); }
      }
      RenderChild(false, None, None, c, m, "");
      DatelessByKey(r);
    }
  }

  /** An overlay entry without dates brings none up from the layers. */
  lemma {:induction false} DatelessRender(t: Option<Value>, o: Option<Value>, c: Option<Value>, m: Option<Value>)
    requires Dateless(RenderAt(false, t, None, c, m)) && Dateless(o)
    ensures Dateless(RenderAt(false, t, o, c, m))
    decreases o.Some?, if o.Some? then o.value else Null
  {
    if o.Some? && Mergeable(c) && Mergeable(m) {
      DatelessWithout(t, c, m);
      if IsObject(o) {
        var r := RenderAt(false, t, o, c, m);
        forall k ensures Dateless(Child(r, k)) {
          RenderChild(false, t, o, c, m, k);
          if IsObject(t) || c.Some? || m.Some? {
            RenderChild(false, t, None, c, m, k);
            DatelessChild(RenderAt(false, t, None, c, m), k);
          }
          DatelessChild(o, k);
          if k in Fields(o) { DatelessRender(Child(t, k), Child(o, k), Child(c, k), Child(m, k)); }
        }
        RenderChild(false, t, o, c, m, "");
        DatelessByKey(r);
      } else if c.Some? {
        OverLeaf(MergeAt(t, o), c);
      } else if m.Some? {
        OverLeaf(MergeAt(t, o), m);
      }
    }
  }

  /** Nothing a YAML file or the sidecar can hold puts a date in the decided overlay. */
  lemma {:induction false} NarrowedDateless(l: Layers, disk: Disk, k: string)
    requires l.surface.codec.Yaml? && Tabular(l)
    ensures Dateless(At(Narrowed(l, Decided(l, disk)), k))
  {
    var stored := ParseOverlay(disk.overlay);
    if disk.overlay.Holds? && disk.overlay.value.Object? {
      JsonNoMoment(disk.overlay.value);
      DatelessChild(RereadAt(Json, Some(disk.overlay.value)), k);
    }
    assert Dateless(At(stored, k));
    var current, last := Read(l, disk.file), Read(l, disk.lastRender);
    if current.Some? {
      LegibleNoMoment(disk.file.value);
      DatelessChild(Some(disk.file.value), k);
      if last.Some? {
        DiffDateless(At(last.value, k), At(current.value, k));
        CapturedAt(stored, last.value, current.value, k);
        AccumulateDateless(At(stored, k), DiffAt(At(last.value, k), At(current.value, k)));
      } else {
        AdoptedDateless(PureTable(l), current.value, l.computed, k);
      }
    }
    assert Dateless(At(Decided(l, disk), k));
    NarrowedAt(l, Decided(l, disk), k);
    var kept, c, m := At(RepairSpec(l.surface, Decided(l, disk)), k), Child(Present(l.computed), k), Child(Present(l.surface.managed), k);
    DropOwnedDateless(kept, c);
    DropOwnedDateless(DropOwnedAt(kept, c), m);
  }

  lemma {:induction false} AdoptedDateless(pure: Table, current: Table, computed: Value, k: string)
    requires Dateless(At(current, k))
    ensures Dateless(At(DroppedTables(DroppedNulls(Diff(pure, current)), computed), k))
  {
    DiffDateless(At(pure, k), At(current, k));
    DropNullsDateless(DiffAt(At(pure, k), At(current, k)));
    DiffChild(Some(Object(pure)), Some(Object(current)), k);
    DropNullsChild(Some(Object(Diff(pure, current))), k);
  }

  /** The promise that a mangled home never breaks the boot, off TOML: where the layers alone can be written, no
      file and no sidecar, whatever they hold, makes a boot fail. */
  lemma {:induction false} NothingOnDiskFails(l: Layers, disk: Disk)
    requires !IsToml(l) && Refusal(l, Null).None? && Foldable(l.computed) && Writes(l, Null, map[])
    ensures BootSpec(l, disk).Ok?
  {
    var marks, narrowed := FileMarks(l, disk), Narrowed(l, Decided(l, disk));
    if Tabular(l) {
      WritesByKey(l, Null, map[]);
      WritesByKey(l, Null, marks);
      RetireWritesIff(l, marks, narrowed);
      forall k
        ensures KeyWrites(l, k, None, At(marks, k))
        ensures k in narrowed ==> KeyWrites(l, k, Some(narrowed[k]), At(marks, k))
      {
        assert KeyWrites(l, k, Child(Some(Null), k), At(map[], k));
        KeyStillWrites(l, disk, k);
      }
    } else {
      NotTabularKeepsNothing(l, Decided(l, disk));
      ManagedStands(l, Null, marks);
      ManagedStands(l, Null, map[]);
    }
  }

  lemma {:induction false} KeyStillWrites(l: Layers, disk: Disk, k: string)
    requires !IsToml(l) && Tabular(l) && KeyWrites(l, k, None, None)
    ensures KeyWrites(l, k, None, At(FileMarks(l, disk), k))
    ensures KeyWrites(l, k, At(Narrowed(l, Decided(l, disk)), k), At(FileMarks(l, disk), k))
  {
    if l.surface.codec.Yaml? {
      var entry, mark, held := At(Narrowed(l, Decided(l, disk)), k), At(FileMarks(l, disk), k), Held(Outranking(l), k);
      NarrowedDateless(l, disk, k);
      DatelessRender(At(Lower(l), k), entry, Child(Present(l.computed), k), Child(Present(l.surface.managed), k));
      MarksAddNoMoment(KeyEnforced(l, k, None), mark, held);
      MarksAddNoMoment(KeyEnforced(l, k, entry), mark, held);
    }
  }
}
