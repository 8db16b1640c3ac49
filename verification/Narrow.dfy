/** internal/agentcfg/staterender.go, the passes over a decided overlay: narrowing against the layers
    that outrank it, and the null and computed-table passes an adoption takes first. */
module Narrow {
  import opened Values
  import opened Engine
  import opened Enforce
  import opened LiteralNull

  /** A layer typed `any`: null is a layer that says nothing. */
  function Present(layer: Value): Option<Value> {
    if layer.Null? then None else Some(layer)
  }

  /** What is left of an overlay entry once the entries an owner overrides are dropped. */
  function DropOwnedAt(v: Option<Value>, owner: Option<Value>): Option<Value>
    decreases v.Some?, if v.Some? then v.value else Null
  {
    if v.None? || owner.None? then v
    else if !IsObject(owner) then None
    else match v.value
      case Null => v
      case Object(f) =>
        var inner := map k | k in f && DropOwnedAt(At(f, k), Child(owner, k)).Some?
                       :: DropOwnedAt(At(f, k), Child(owner, k)).value;
        if inner == map[] then None else Some(Object(inner))
      case _ => None
  }

  /** Narrowed against computed, then against managed. */
  function NarrowAt(o: Option<Value>, c: Option<Value>, m: Option<Value>): Option<Value> {
    DropOwnedAt(DropOwnedAt(o, c), m)
  }

  function NarrowOverlay(overlay: Table, computed: Value, managed: Value): Table {
    Fields(NarrowAt(Some(Object(overlay)), Present(computed), Present(managed)))
  }

  /** The adopted residue without its tombstones; an object emptied by that goes, one that was
      empty on the way in is the user's own value and stays. */
  function DropNullsAt(v: Option<Value>): Option<Value>
    decreases v.Some?, if v.Some? then v.value else Null
  {
    if v == Some(Null) then None
    else if IsObject(v) && Fields(v) != map[] then
      var inner := map k | k in Fields(v) && DropNullsAt(Child(v, k)).Some? :: DropNullsAt(Child(v, k)).value;
      if inner == map[] then None else Some(Object(inner))
    else v
  }

  function DroppedNulls(m: Table): Table {
    Fields(DropNullsAt(Some(Object(m))))
  }

  /** Top-level keys the computed layer regenerated as a non-empty table are yolo's, not the user's. */
  function DroppedTables(residue: Table, computed: Value): Table {
    map k | k in residue && !RegeneratesTable(computed, k) :: residue[k]
  }

  predicate RegeneratesTable(computed: Value, k: string) {
    IsObject(Child(Some(computed), k)) && Fields(Child(Some(computed), k)) != map[]
  }

  // ---------------------------------------------------------------- reading results key by key

  lemma {:induction false} DropOwnedChild(v: Option<Value>, owner: Option<Value>, k: string)
    requires v.None? || IsObject(v)
    requires owner.None? || IsObject(owner)
    ensures DropOwnedAt(v, owner).None? || IsObject(DropOwnedAt(v, owner))
    ensures Child(DropOwnedAt(v, owner), k) == DropOwnedAt(Child(v, k), Child(owner, k))
  {
    if v.Some? && owner.Some? && DropOwnedAt(Child(v, k), Child(owner, k)).Some? {
      var f := v.value.fields;
      var inner := map j | j in f && DropOwnedAt(At(f, j), Child(owner, j)).Some?
                     :: DropOwnedAt(At(f, j), Child(owner, j)).value;
      assert k in inner;
    }
  }

  lemma {:induction false} NarrowChild(o: Option<Value>, c: Option<Value>, m: Option<Value>, k: string)
    requires IsObject(o) && (c.None? || IsObject(c)) && (m.None? || IsObject(m))
    ensures NarrowAt(o, c, m).None? || IsObject(NarrowAt(o, c, m))
    ensures Child(NarrowAt(o, c, m), k) == NarrowAt(Child(o, k), Child(c, k), Child(m, k))
  {
    DropOwnedChild(o, c, k);
    DropOwnedChild(DropOwnedAt(o, c), m, k);
  }

  lemma {:induction false} DropNullsChild(v: Option<Value>, k: string)
    requires IsObject(v)
    ensures DropNullsAt(v).None? || IsObject(DropNullsAt(v))
    ensures DropNullsAt(v).None? ==> Fields(v) != map[]
    ensures Child(DropNullsAt(v), k) == DropNullsAt(Child(v, k))
  {
    if DropNullsAt(Child(v, k)).Some? {
      var inner := map j | j in Fields(v) && DropNullsAt(Child(v, j)).Some? :: DropNullsAt(Child(v, j)).value;
      assert k in inner;
    }
  }

  // ---------------------------------------------------------------- narrowing preserves the render

  /** A surface's value at a key: lower layers t, then overlay, computed and the managed floor. */
  function RenderAt(toml: bool, t: Option<Value>, o: Option<Value>, c: Option<Value>, m: Option<Value>): Option<Value> {
    FloorAt(toml, MergeAt(MergeAt(t, o), c), m)
  }

  predicate Mergeable(v: Option<Value>) {
    v.None? || IsObject(v)
  }

  /** A captured entry narrowing drops although the render can tell: a scalar or a list where the
      owners hold an object, which hid what lies below it; and, on a TOML surface, a table dropped
      whole where managed asserts nothing, since that floor creates no empty table. */
  ghost predicate Clash(toml: bool, o: Option<Value>, c: Option<Value>, m: Option<Value>)
    decreases o.Some?, if o.Some? then o.value else Null
  {
    o.Some? && Mergeable(c) && Mergeable(m) &&
    match o.value
      case Null => false
      case Object(f) =>
        (toml && c.None? && m.Some? && NarrowAt(o, c, m).None? && EnforceTomlAt(None, m).None?) ||
        exists k :: k in f && Clash(toml, At(f, k), Child(c, k), Child(m, k))
      case _ => c.Some? || m.Some?
  }

  /** A clash at or below some top-level key of the overlay. */
  ghost predicate ClashBelow(toml: bool, overlay: Table, c: Option<Value>, m: Option<Value>) {
    Mergeable(c) && Mergeable(m) && exists k :: k in overlay && Clash(toml, At(overlay, k), Child(c, k), Child(m, k))
  }

  lemma {:induction false} RenderChild(toml: bool, t: Option<Value>, o: Option<Value>, c: Option<Value>, m: Option<Value>, k: string)
    requires Mergeable(o) && Mergeable(c) && Mergeable(m)
    requires IsObject(t) || o.Some? || c.Some? || m.Some?
    ensures IsObject(t) || o.Some? || c.Some? || !toml ==> IsObject(RenderAt(toml, t, o, c, m))
    ensures m.Some? ==> Mergeable(RenderAt(toml, t, o, c, m))
    ensures Child(RenderAt(toml, t, o, c, m), k) == RenderAt(toml, Child(t, k), Child(o, k), Child(c, k), Child(m, k))
  {
    if o.Some? { MergeChild(t, o, k); }
    var one := MergeAt(t, o);
    if c.Some? { MergeChild(one, c, k); }
    FloorChild(toml, MergeAt(one, c), m, k);
  }

  lemma {:induction false} NarrowingKeepsRender(toml: bool, t: Option<Value>, o: Option<Value>, c: Option<Value>, m: Option<Value>)
    requires !Clash(toml, o, c, m)
    ensures RenderAt(toml, t, NarrowAt(o, c, m), c, m) == RenderAt(toml, t, o, c, m)
    decreases o.Some?, if o.Some? then o.value else Null
  {
    if IsObject(o) && Mergeable(c) && Mergeable(m) && (c.Some? || m.Some?) {
      var n := NarrowAt(o, c, m);
      NarrowChild(o, c, m, "");
      forall k ensures Child(RenderAt(toml, t, n, c, m), k) == Child(RenderAt(toml, t, o, c, m), k) {
        NarrowChild(o, c, m, k);
        RenderChild(toml, t, o, c, m, k);
        RenderChild(toml, t, n, c, m, k);
        if k in Fields(o) { NarrowingKeepsRender(toml, Child(t, k), Child(o, k), Child(c, k), Child(m, k)); }
      }
      RenderChild(toml, t, o, c, m, "");
      RenderChild(toml, t, n, c, m, "");
      if toml && n.None? && c.None? && !IsObject(t) { VacuousFloor(t, m); }
      SameObject(RenderAt(toml, t, n, c, m), RenderAt(toml, t, o, c, m));
    }
  }

  /** Over anything but a table the TOML floor builds what it builds over nothing. */
  lemma {:induction false} VacuousFloor(t: Option<Value>, m: Option<Value>)
    requires !IsObject(t) && IsObject(m)
    ensures EnforceTomlAt(t, m) == EnforceTomlAt(None, m)
  {
    EnforceTomlFromEmpty(t, map[], m.value.fields);
    EnforceTomlFromEmpty(None, map[], m.value.fields);
  }

  lemma {:induction false} ClashChangesRender(toml: bool, o: Option<Value>, c: Option<Value>, m: Option<Value>) returns (t: Option<Value>)
    requires Clash(toml, o, c, m)
    ensures NullFree(t)
    ensures RenderAt(toml, t, NarrowAt(o, c, m), c, m) != RenderAt(toml, t, o, c, m)
    decreases o.Some?, if o.Some? then o.value else Null
  {
    if IsObject(o) {
      if k :| k in Fields(o) && Clash(toml, Child(o, k), Child(c, k), Child(m, k)) {
        var inner := ClashChangesRender(toml, Child(o, k), Child(c, k), Child(m, k));
        var only := OnlyChild(k, inner);
        t := Some(Object(only));
        ClashShowsAbove(toml, t, o, c, m, k);
      } else {
        t := None;
        RenderChild(toml, t, o, c, m, "");
      }
    } else {
      var spare := FreshKey(Fields(c).Keys + Fields(m).Keys);
      t := Some(Object(map[spare := Leaf(Flag(true))]));
      RenderChild(toml, t, None, c, m, spare);
      var shadowed := MergeAt(t, o);
      if c.Some? { MergeChild(shadowed, c, spare); }
      FloorChild(toml, MergeAt(shadowed, c), m, spare);
    }
  }

  lemma {:induction false} ClashShowsAbove(toml: bool, t: Option<Value>, o: Option<Value>, c: Option<Value>, m: Option<Value>, k: string)
    requires IsObject(t) && IsObject(o) && Mergeable(c) && Mergeable(m)
    requires RenderAt(toml, Child(t, k), NarrowAt(Child(o, k), Child(c, k), Child(m, k)), Child(c, k), Child(m, k))
          != RenderAt(toml, Child(t, k), Child(o, k), Child(c, k), Child(m, k))
    ensures RenderAt(toml, t, NarrowAt(o, c, m), c, m) != RenderAt(toml, t, o, c, m)
  {
    NarrowChild(o, c, m, k);
    RenderChild(toml, t, o, c, m, k);
    RenderChild(toml, t, NarrowAt(o, c, m), c, m, k);
  }

  lemma {:induction false} ClashBelowChangesRender(toml: bool, overlay: Table, c: Option<Value>, m: Option<Value>) returns (lower: seq<Table>)
    requires ClashBelow(toml, overlay, c, m)
    ensures RenderAt(toml, Some(Object(Fold(lower))), NarrowAt(Some(Object(overlay)), c, m), c, m)
         != RenderAt(toml, Some(Object(Fold(lower))), Some(Object(overlay)), c, m)
  {
    var o := Some(Object(overlay));
    var k :| k in overlay && Clash(toml, At(overlay, k), Child(c, k), Child(m, k));
    var inner := ClashChangesRender(toml, Child(o, k), Child(c, k), Child(m, k));
    var t := OnlyChild(k, inner);
    ClashShowsAbove(toml, Some(Object(t)), o, c, m, k);
    lower := [t];
    NullFreeFoldsToItself(t);
  }

  lemma {:induction false} OnlyChild(k: string, v: Option<Value>) returns (t: Table)
    requires NullFree(v)
    ensures NullFree(Some(Object(t))) && Child(Some(Object(t)), k) == v
  {
    t := if v.Some? then map[k := v.value] else map[];
  }

  lemma {:induction false} NullFreeFoldsToItself(layer: Table)
    requires NullFree(Some(Object(layer)))
    ensures Fold([layer]) == layer
  {
    assert [layer][..0] == [];
    MergeOverEmpty(Some(Object(layer)));
    StripNullFree(Some(Object(layer)));
  }

  /** Narrowing is invisible over every stack of lower layers, on either floor, exactly when the
      overlay does not clash with the layers that outrank it. */
  lemma {:induction false} NarrowingInvisibleIff(toml: bool, overlay: Table, c: Option<Value>, m: Option<Value>)
    ensures (forall lower: seq<Table> ::
               RenderAt(toml, Some(Object(Fold(lower))), NarrowAt(Some(Object(overlay)), c, m), c, m)
               == RenderAt(toml, Some(Object(Fold(lower))), Some(Object(overlay)), c, m))
            <==> !ClashBelow(toml, overlay, c, m)
  {
    if ClashBelow(toml, overlay, c, m) {
      var lower := ClashBelowChangesRender(toml, overlay, c, m);
    } else {
      forall lower: seq<Table>
        ensures RenderAt(toml, Some(Object(Fold(lower))), NarrowAt(Some(Object(overlay)), c, m), c, m)
             == RenderAt(toml, Some(Object(Fold(lower))), Some(Object(overlay)), c, m)
      {
        NarrowingKeepsTable(toml, Some(Object(Fold(lower))), overlay, c, m);
      }
    }
  }

  lemma {:induction false} NarrowingKeepsTable(toml: bool, t: Option<Value>, overlay: Table, c: Option<Value>, m: Option<Value>)
    requires IsObject(t) && !ClashBelow(toml, overlay, c, m)
    ensures RenderAt(toml, t, NarrowAt(Some(Object(overlay)), c, m), c, m) == RenderAt(toml, t, Some(Object(overlay)), c, m)
  {
    var o := Some(Object(overlay));
    var n := NarrowAt(o, c, m);
    if Mergeable(c) && Mergeable(m) {
      NarrowChild(o, c, m, "");
      forall k ensures Child(RenderAt(toml, t, n, c, m), k) == Child(RenderAt(toml, t, o, c, m), k) {
        NarrowChild(o, c, m, k);
        RenderChild(toml, t, o, c, m, k);
        RenderChild(toml, t, n, c, m, k);
        if k in overlay { NarrowingKeepsRender(toml, Child(t, k), Child(o, k), Child(c, k), Child(m, k)); }
      }
      RenderChild(toml, t, o, c, m, "");
      RenderChild(toml, t, n, c, m, "");
      SameObject(RenderAt(toml, t, n, c, m), RenderAt(toml, t, o, c, m));
    } else {
      NarrowingKeepsRender(toml, t, o, c, m);
    }
  }

  /** Merging into nothing only strips nulls, so a null-free table is its own fold. */
  lemma {:induction false} MergeOverEmpty(t: Option<Value>)
    requires IsObject(t)
    ensures MergeAt(Some(Object(map[])), t) == StripNulls(t) == MergeAt(None, t)
    decreases t.Some?, if t.Some? then t.value else Null
  {
    forall k
      ensures Child(MergeAt(Some(Object(map[])), t), k) == Child(StripNulls(t), k)
      ensures Child(MergeAt(None, t), k) == Child(StripNulls(t), k)
    {
      StripChild(t, k);
      MergeChild(None, t, k);
      MergeChild(Some(Object(map[])), t, k);
      if IsObject(Child(t, k)) { MergeOverEmpty(Child(t, k)); }
    }
    MergeChild(None, t, "");
    MergeChild(Some(Object(map[])), t, "");
    SameObject(MergeAt(Some(Object(map[])), t), StripNulls(t));
    SameObject(MergeAt(None, t), StripNulls(t));
  }

  // ---------------------------------------------------------------- narrowing is idempotent

  /** An overlay entry an owner leaves alone. */
  ghost predicate Unowned(v: Option<Value>, owner: Option<Value>)
    decreases v.Some?, if v.Some? then v.value else Null
  {
    v.None? || owner.None? ||
    (IsObject(owner) && (v.value.Null? || (IsObject(v) && Fields(v) != map[] &&
                                           forall k :: k in Fields(v) ==> Unowned(Child(v, k), Child(owner, k)))))
  }

  lemma {:induction false} UnownedIffKept(v: Option<Value>, owner: Option<Value>)
    ensures DropOwnedAt(v, owner) == v <==> Unowned(v, owner)
    decreases v.Some?, if v.Some? then v.value else Null
  {
    if IsObject(v) && IsObject(owner) {
      var d := DropOwnedAt(v, owner);
      forall k
        ensures k in Fields(v) ==> (Child(d, k) == Child(v, k) <==> Unowned(Child(v, k), Child(owner, k)))
        ensures k !in Fields(v) ==> Child(d, k) == Child(v, k)
      {
        DropOwnedChild(v, owner, k);
        if k in Fields(v) { UnownedIffKept(Child(v, k), Child(owner, k)); }
      }
      DropOwnedChild(v, owner, "");
      if Unowned(v, owner) {
        var k :| k in Fields(v);
        assert Child(d, k) == Child(v, k);
        SameObject(d, v);
      }
    }
  }

  /** Dropping what another owner overrides leaves an unowned entry unowned. */
  lemma {:induction false} UnownedSurvives(v: Option<Value>, owner: Option<Value>, other: Option<Value>)
    requires Unowned(v, owner)
    ensures Unowned(DropOwnedAt(v, other), owner)
    decreases v.Some?, if v.Some? then v.value else Null
  {
    if IsObject(v) && IsObject(other) && owner.Some? {
      forall k ensures Unowned(Child(DropOwnedAt(v, other), k), Child(owner, k)) {
        DropOwnedChild(v, other, k);
        if k in Fields(v) { UnownedSurvives(Child(v, k), Child(owner, k), Child(other, k)); }
      }
    }
  }

  lemma {:induction false} DroppedIsUnowned(v: Option<Value>, owner: Option<Value>)
    ensures Unowned(DropOwnedAt(v, owner), owner)
    decreases v.Some?, if v.Some? then v.value else Null
  {
    if IsObject(v) && IsObject(owner) {
      forall k ensures Unowned(Child(DropOwnedAt(v, owner), k), Child(owner, k)) {
        DropOwnedChild(v, owner, k);
        if k in Fields(v) { DroppedIsUnowned(Child(v, k), Child(owner, k)); }
      }
    }
  }

  lemma {:induction false} NarrowIdempotent(o: Option<Value>, c: Option<Value>, m: Option<Value>)
    ensures NarrowAt(NarrowAt(o, c, m), c, m) == NarrowAt(o, c, m)
  {
    DroppedIsUnowned(o, c);
    UnownedSurvives(DropOwnedAt(o, c), c, m);
    UnownedIffKept(NarrowAt(o, c, m), c);
    DroppedIsUnowned(DropOwnedAt(o, c), m);
    UnownedIffKept(NarrowAt(o, c, m), m);
  }

  // ---------------------------------------------------------------- the adoption law

  /** Merging the null-stripped residue into the pure render is merging the null-stripped file:
      adoption keeps everything of the file a patch can say, for every file and render. */
  lemma {:induction false} AdoptionLaw(pure: Option<Value>, current: Option<Value>)
    ensures MergeAt(pure, DropNullsAt(DiffAt(pure, current))) == MergeAt(pure, DropNullsAt(current))
    decreases current.Some?, if current.Some? then current.value else Null
  {
    if IsObject(pure) && IsObject(current) {
      var d := DiffAt(pure, current);
      var one, two := MergeAt(pure, DropNullsAt(d)), MergeAt(pure, DropNullsAt(current));
      DiffChild(pure, current, "");
      if d.Some? { DropNullsChild(d, ""); }
      DropNullsChild(current, "");
      forall k ensures Child(one, k) == Child(two, k) {
        DiffChild(pure, current, k);
        if d.Some? { DropNullsChild(d, k); }
        DropNullsChild(current, k);
        if DropNullsAt(d).Some? { MergeChild(pure, DropNullsAt(d), k); }
        if DropNullsAt(current).Some? { MergeChild(pure, DropNullsAt(current), k); }
        if k in Fields(current) { AdoptionLaw(Child(pure, k), Child(current, k)); }
      }
      SameObject(one, two);
    }
  }

  lemma {:induction false} DropNullsOfNullFree(v: Option<Value>)
    requires NullFree(v)
    ensures DropNullsAt(v) == v
    decreases v.Some?, if v.Some? then v.value else Null
  {
    if IsObject(v) && Fields(v) != map[] {
      forall k ensures Child(DropNullsAt(v), k) == Child(v, k) {
        DropNullsChild(v, k);
        if k in Fields(v) { DropNullsOfNullFree(Child(v, k)); }
      }
      var k :| k in Fields(v);
      assert Child(DropNullsAt(v), k).Some?;
      SameObject(DropNullsAt(v), v);
    }
  }

  lemma {:induction false} DropNullsIsNullFree(v: Option<Value>)
    ensures NullFree(DropNullsAt(v))
    decreases v.Some?, if v.Some? then v.value else Null
  {
    if IsObject(v) && Fields(v) != map[] {
      forall k ensures NullFree(Child(DropNullsAt(v), k)) {
        DropNullsChild(v, k);
        if k in Fields(v) { DropNullsIsNullFree(Child(v, k)); }
      }
    }
  }

  /** What adoption cannot store as a patch comes back through the marks: a value nothing else
      supplies is rebuilt exactly, literal nulls and empty objects included. */
  lemma {:induction false} AdoptedValueReturns(v: Option<Value>)
    ensures ReinstateAt(MergeAt(None, DropNullsAt(v)), SkeletonAt(v), []) == v
    decreases v.Some?, if v.Some? then v.value else Null
  {
    DropNullsIsNullFree(v);
    var base := MergeAt(None, DropNullsAt(v));
    if IsObject(v) {
      DropNullsChild(v, "");
      if DropNullsAt(v).Some? {
        MergeOverEmpty(DropNullsAt(v));
        StripNullFree(DropNullsAt(v));
      }
      assert base == DropNullsAt(v);
      SkeletonChild(v, "");
      var r := ReinstateAt(base, SkeletonAt(v), []);
      ReinstateEachKey(base, SkeletonAt(v), [], "");
      forall k ensures Child(r, k) == Child(v, k) {
        DropNullsChild(v, k);
        SkeletonChild(v, k);
        ReinstateEachKey(base, SkeletonAt(v), [], k);
        DropNullsIsNullFree(Child(v, k));
        if k in Fields(v) {
          AdoptedValueReturns(Child(v, k));
          MergeNullFreeIntoNothing(DropNullsAt(Child(v, k)));
        }
      }
      if Fields(v) != map[] {
        var k :| k in Fields(v);
        assert Child(r, k) == Child(v, k);
      }
      SameObject(r, v);
    }
  }

  lemma {:induction false} MergeNullFreeIntoNothing(v: Option<Value>)
    requires NullFree(v)
    ensures MergeAt(None, v) == v
  {
    if IsObject(v) {
      MergeOverEmpty(v);
      StripNullFree(v);
    }
  }

  // ---------------------------------------------------------------- the loops over decoded maps

  /** dropOverriddenKeys: one overlay table without what an owning table overrides. */
  method DropOverriddenKeys(m: Table, owner: Table) returns (out: Table)
    ensures out == Fields(DropOwnedAt(Some(Object(m)), Some(Object(owner))))
    decreases Object(m)
  {
    out := map[];
    var todo := m.Keys;
    while todo != {}
      invariant todo <= m.Keys
      invariant forall k :: At(out, k) == if k in m && k !in todo then DropOwnedAt(At(m, k), At(owner, k)) else None
      decreases todo
    {
      var k :| k in todo;
      var v := m[k];
      if k !in owner {
        out := out[k := v];
      } else if owner[k].Object? {
        if v.Null? {
          out := out[k := v];
        } else if v.Object? {
          var inner := DropOverriddenKeys(v.fields, owner[k].fields);
          DropOwnedIsTable(v.fields, owner[k].fields);
          if inner != map[] { out := out[k := Object(inner)]; }
        }
      }
      todo := todo - {k};
    }
    forall k ensures At(out, k) == At(Fields(DropOwnedAt(Some(Object(m)), Some(Object(owner)))), k) {
      DropOwnedChild(Some(Object(m)), Some(Object(owner)), k);
    }
    SameTable(out, Fields(DropOwnedAt(Some(Object(m)), Some(Object(owner)))));
  }

  lemma {:induction false} DropOwnedIsTable(m: Table, owner: Table)
    ensures var d := DropOwnedAt(Some(Object(m)), Some(Object(owner)));
            d == if Fields(d) == map[] then None else Some(Object(Fields(d)))
  {}

  /** narrowAgainst: one pass against one owning layer. */
  method NarrowAgainst(overlay: Table, owner: Value) returns (out: Table)
    ensures out == Fields(DropOwnedAt(Some(Object(overlay)), Present(owner)))
  {
    match owner {
      case Null => out := overlay;
      case Object(table) => out := DropOverriddenKeys(overlay, table);
      case _ => out := map[];
    }
  }

  /** narrowOverlay. */
  method NarrowBoth(overlay: Table, computed: Value, managed: Value) returns (out: Table)
    ensures out == NarrowOverlay(overlay, computed, managed)
  {
    out := NarrowAgainst(overlay, computed);
    out := NarrowAgainst(out, managed);
    var first := DropOwnedAt(Some(Object(overlay)), Present(computed));
    EmptyTableNarrows(first, Present(managed));
  }

  /** An overlay narrowed to nothing narrows to nothing again. */
  lemma {:induction false} EmptyTableNarrows(v: Option<Value>, owner: Option<Value>)
    requires Mergeable(v)
    ensures Fields(DropOwnedAt(Some(Object(Fields(v))), owner)) == Fields(DropOwnedAt(v, owner))
  {
    if v.None? && IsObject(owner) {
      forall k ensures At(Fields(DropOwnedAt(Some(Object(map[])), owner)), k) == At(map[], k) {
        DropOwnedChild(Some(Object(map[])), owner, k);
      }
      SameTable(Fields(DropOwnedAt(Some(Object(map[])), owner)), map[]);
    }
  }

  /** dropNullLeaves. */
  method DropNullLeaves(m: Table) returns (out: Table)
    ensures out == DroppedNulls(m)
    decreases Object(m)
  {
    out := map[];
    var todo := m.Keys;
    while todo != {}
      invariant todo <= m.Keys
      invariant forall k :: At(out, k) == if k in m && k !in todo then DropNullsAt(At(m, k)) else None
      decreases todo
    {
      var k :| k in todo;
      match m[k] {
        case Null =>
        case Object(sub) =>
          if sub == map[] {
            out := out[k := m[k]];
          } else {
            var inner := DropNullLeaves(sub);
            DropNullsIsTable(sub);
            if inner != map[] { out := out[k := Object(inner)]; }
          }
        case _ =>
          out := out[k := m[k]];
      }
      todo := todo - {k};
    }
    forall k ensures At(out, k) == At(DroppedNulls(m), k) {
      DropNullsChild(Some(Object(m)), k);
    }
    SameTable(out, DroppedNulls(m));
  }

  lemma {:induction false} DropNullsIsTable(m: Table)
    requires m != map[]
    ensures DropNullsAt(Some(Object(m))) == if DroppedNulls(m) == map[] then None else Some(Object(DroppedNulls(m)))
  {}

  /** dropComputedTables. */
  method DropComputedTables(residue: Table, computed: Value) returns (out: Table)
    ensures out == DroppedTables(residue, computed)
    ensures forall k :: At(out, k) ==
              if computed.Object? && k in computed.fields && computed.fields[k].Object? && computed.fields[k].fields != map[]
              then None else At(residue, k)
  {
    if !computed.Object? {
      return residue;
    }
    out := map[];
    var todo := residue.Keys;
    while todo != {}
      invariant todo <= residue.Keys
      invariant out == map k | k in residue && k !in todo && !RegeneratesTable(computed, k) :: residue[k]
      decreases todo
    {
      var k :| k in todo;
      if !(k in computed.fields && computed.fields[k].Object? && computed.fields[k].fields != map[]) {
        out := out[k := residue[k]];
      }
      todo := todo - {k};
    }
  }
}
