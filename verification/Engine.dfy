/** internal/agentcfg/engine.go: the RFC 7386 merge, the capture diff and the patch accumulator.

    Each operation is stated per key on optional values ("what does this key hold afterwards,
    if anything"); the loops over decoded maps are methods proved against those functions. */
module Engine {
  import opened Values

  /** What a key holds once patch entry p has been merged over t. */
  function MergeAt(t: Option<Value>, p: Option<Value>): Option<Value>
    decreases p.Some?, if p.Some? then p.value else Null
  {
    if p.None? then t
    else match p.value
      case Null => None
      case Object(f) =>
        Some(Object(map k | k in Fields(t).Keys + f.Keys && MergeAt(Child(t, k), At(f, k)).Some?
                      :: MergeAt(Child(t, k), At(f, k)).value))
      case _ => p
  }

  /** deepMerge: one table over another. */
  function Merge(base: Table, over: Table): Table {
    Fields(MergeAt(Some(Object(base)), Some(Object(over))))
  }

  /** What the accumulated overlay holds at a key: the newer patch entry wins, objects meet. */
  function AccumulateAt(p: Option<Value>, q: Option<Value>): Option<Value>
    decreases q.Some?, if q.Some? then q.value else Null
  {
    if q.None? then p
    else if IsObject(p) && IsObject(q) then
      Some(Object(map k | k in Fields(p).Keys + Fields(q).Keys && AccumulateAt(Child(p, k), Child(q, k)).Some?
                    :: AccumulateAt(Child(p, k), Child(q, k)).value))
    else q
  }

  function Accumulate(base: Table, over: Table): Table {
    Fields(AccumulateAt(Some(Object(base)), Some(Object(over))))
  }

  /** The patch entry recording how a key changed: None is "unchanged", null is "removed". */
  function DiffAt(old': Option<Value>, new': Option<Value>): Option<Value>
    decreases new'.Some?, if new'.Some? then new'.value else Null
  {
    if new'.None? then (if old'.None? then None else Some(Null))
    else if IsObject(old') && IsObject(new') then
      var patch := map k | k in Fields(old').Keys + Fields(new').Keys && DiffAt(Child(old', k), Child(new', k)).Some?
                     :: DiffAt(Child(old', k), Child(new', k)).value;
      if patch == map[] then None else Some(Object(patch))
    else if old' == new' then None
    else new'
  }

  function Diff(old': Table, new': Table): Table {
    Fields(DiffAt(Some(Object(old')), Some(Object(new'))))
  }

  /** The left-to-right fold: the last layer wins. */
  function Fold(layers: seq<Table>): Table {
    if layers == [] then map[] else Merge(Fold(layers[..|layers| - 1]), layers[|layers| - 1])
  }

  // ---------------------------------------------------------------- reading results key by key

  lemma {:induction false} MergeChild(t: Option<Value>, p: Option<Value>, k: string)
    requires IsObject(p)
    ensures IsObject(MergeAt(t, p))
    ensures Child(MergeAt(t, p), k) == MergeAt(Child(t, k), Child(p, k))
  {}

  lemma {:induction false} AccumulateChild(p: Option<Value>, q: Option<Value>, k: string)
    requires IsObject(p) && IsObject(q)
    ensures IsObject(AccumulateAt(p, q))
    ensures Child(AccumulateAt(p, q), k) == AccumulateAt(Child(p, k), Child(q, k))
  {}

  lemma {:induction false} DiffChild(old': Option<Value>, new': Option<Value>, k: string)
    requires IsObject(old') && IsObject(new')
    ensures DiffAt(old', new').Some? ==> IsObject(DiffAt(old', new'))
    ensures Child(DiffAt(old', new'), k) == DiffAt(Child(old', k), Child(new', k))
  {
    if k in Fields(old').Keys + Fields(new').Keys && DiffAt(Child(old', k), Child(new', k)).Some? {
      var patch := map j | j in Fields(old').Keys + Fields(new').Keys && DiffAt(Child(old', j), Child(new', j)).Some?
                     :: DiffAt(Child(old', j), Child(new', j)).value;
      assert k in patch;
    }
  }

  // ---------------------------------------------------------------- diff and merge

  /** Every null the new value holds under a key is already a null of the old one. It is the
      one thing a caller has to check before trusting a patch to reproduce the file. */
  ghost predicate NullsCarried(old': Option<Value>, new': Option<Value>)
    decreases new'.Some?, if new'.Some? then new'.value else Null
  {
    (new' == Some(Null) ==> old' == Some(Null)) &&
    forall k :: k in Fields(new') ==> NullsCarried(Child(old', k), Child(new', k))
  }

  lemma {:induction false} DiffEmptyIffEqual(old': Option<Value>, new': Option<Value>)
    ensures DiffAt(old', new').None? <==> old' == new'
    decreases new'.Some?, if new'.Some? then new'.value else Null
  {
    if IsObject(old') && IsObject(new') {
      forall k ensures Child(DiffAt(old', new'), k).None? <==> Child(old', k) == Child(new', k) {
        DiffChild(old', new', k);
        if Child(new', k).Some? { DiffEmptyIffEqual(Child(old', k), Child(new', k)); }
      }
      if DiffAt(old', new').None? {
        SameObject(old', new');
      } else {
        var patch := Fields(DiffAt(old', new'));
        var k :| k in patch;
        assert Child(DiffAt(old', new'), k).Some?;
      }
    }
  }

  lemma {:induction false} RoundTripChild(old': Option<Value>, new': Option<Value>, k: string)
    requires IsObject(new')
    ensures IsObject(MergeAt(old', DiffAt(old', new')))
    ensures Child(MergeAt(old', DiffAt(old', new')), k)
         == MergeAt(Child(old', k), DiffAt(Child(old', k), Child(new', k)))
  {
    if IsObject(old') { DiffChild(old', new', k); }
  }

  /** The round trip, exactly: the patch rebuilds the new value iff the new value holds no null
      the old one did not already hold. */
  lemma {:induction false} RoundTripIff(old': Option<Value>, new': Option<Value>)
    ensures MergeAt(old', DiffAt(old', new')) == new' <==> NullsCarried(old', new')
    decreases new'.Some?, if new'.Some? then new'.value else Null
  {
    var r := MergeAt(old', DiffAt(old', new'));
    if IsObject(new') {
      forall k
        ensures k in Fields(new') ==> (Child(r, k) == Child(new', k) <==> NullsCarried(Child(old', k), Child(new', k)))
        ensures k !in Fields(new') ==> Child(r, k) == Child(new', k)
      {
        RoundTripChild(old', new', k);
        if k in Fields(new') { RoundTripIff(Child(old', k), Child(new', k)); }
      }
      RoundTripChild(old', new', "");
      if NullsCarried(old', new') {
        SameObject(r, new');
      }
    }
  }

  lemma {:induction false} StripChild(v: Option<Value>, k: string)
    requires IsObject(v)
    ensures IsObject(StripNulls(v)) && Child(StripNulls(v), k) == StripNulls(Child(v, k))
  {}

  /** From a null-free render the patch rebuilds the file minus its literal nulls. */
  lemma {:induction false} RoundTripStripsNulls(old': Option<Value>, new': Option<Value>)
    requires NullFree(old')
    ensures MergeAt(old', DiffAt(old', new')) == StripNulls(new')
    decreases new'.Some?, if new'.Some? then new'.value else Null
  {
    var r := MergeAt(old', DiffAt(old', new'));
    if IsObject(new') {
      forall k ensures Child(r, k) == Child(StripNulls(new'), k) {
        assert NullFree(Child(old', k));
        RoundTripChild(old', new', k);
        StripChild(new', k);
        if k in Fields(new') { RoundTripStripsNulls(Child(old', k), Child(new', k)); }
      }
      RoundTripChild(old', new', "");
      SameObject(r, StripNulls(new'));
    }
  }

  /** Every path the patch mentions is a path at which the two values differ. */
  lemma {:induction false} DiffOnlyNamesChanges(old': Option<Value>, new': Option<Value>, path: Path)
    requires Lookup(DiffAt(old', new'), path).Some?
    ensures Lookup(old', path) != Lookup(new', path)
    decreases |path|
  {
    DiffEmptyIffEqual(old', new');
    if path != [] {
      var k, rest := path[0], path[1..];
      if IsObject(old') && IsObject(new') {
        DiffChild(old', new', k);
        DiffOnlyNamesChanges(Child(old', k), Child(new', k), rest);
      } else if IsObject(new') {
        AbsentBelow(old', path);
      } else {
        AbsentBelow(DiffAt(old', new'), path);
      }
    }
  }

  lemma {:induction false} AbsentBelow(v: Option<Value>, path: Path)
    requires !IsObject(v) && path != []
    ensures Lookup(v, path).None?
    decreases |path|
  {
    if |path| > 1 {
      AbsentBelow(None, path[1..]);
    }
  }

  // ---------------------------------------------------------------- accumulating patches

  /** Wherever the newer patch holds an object, the older one is silent or holds an object too. */
  ghost predicate ObjectsMeet(p: Option<Value>, q: Option<Value>)
    decreases q.Some?, if q.Some? then q.value else Null
  {
    IsObject(q) && p.Some? ==>
      IsObject(p) && forall k :: k in Fields(q) ==> ObjectsMeet(Child(p, k), Child(q, k))
  }

  lemma {:induction false} AccumulateLaw(base: Option<Value>, p: Option<Value>, q: Option<Value>)
    requires ObjectsMeet(p, q)
    ensures MergeAt(base, AccumulateAt(p, q)) == MergeAt(MergeAt(base, p), q)
    decreases q.Some?, if q.Some? then q.value else Null
  {
    if IsObject(p) && IsObject(q) {
      var one, two := MergeAt(base, AccumulateAt(p, q)), MergeAt(MergeAt(base, p), q);
      forall k ensures Child(one, k) == Child(two, k) {
        AccumulateChild(p, q, k);
        MergeChild(base, AccumulateAt(p, q), k);
        MergeChild(base, p, k);
        MergeChild(MergeAt(base, p), q, k);
        if k in Fields(q) { AccumulateLaw(Child(base, k), Child(p, k), Child(q, k)); }
      }
      SameObject(one, two);
    }
  }

  /** The law fails for some base as soon as an object of q lands on a non-object entry of p. */
  lemma {:induction false} AccumulateLawFails(p: Option<Value>, q: Option<Value>) returns (base: Option<Value>)
    requires !ObjectsMeet(p, q)
    ensures IsObject(base) && MergeAt(base, AccumulateAt(p, q)) != MergeAt(MergeAt(base, p), q)
    decreases q.Some?, if q.Some? then q.value else Null
  {
    if !IsObject(p) {
      var spare := FreshKey(Fields(q).Keys);
      base := Some(Object(map[spare := Leaf(Flag(true))]));
      MergeChild(base, q, spare);
      MergeChild(MergeAt(base, p), q, spare);
      assert Child(MergeAt(base, p), spare).None?;
    } else {
      var k :| k in Fields(q) && !ObjectsMeet(Child(p, k), Child(q, k));
      var inner := AccumulateLawFails(Child(p, k), Child(q, k));
      base := Some(Object(map[k := inner.value]));
      MergeChild(base, p, k);
      MergeChild(MergeAt(base, p), q, k);
      AccumulateChild(p, q, k);
      MergeChild(base, AccumulateAt(p, q), k);
      assert Child(base, k) == inner;
    }
  }

  /** Accumulating two patches means applying them in turn, for every base, exactly when objects
      meet only objects. */
  lemma {:induction false} AccumulateLawIff(p: Table, q: Table)
    ensures (forall base: Table :: Merge(base, Accumulate(p, q)) == Merge(Merge(base, p), q))
            <==> ObjectsMeet(Some(Object(p)), Some(Object(q)))
  {
    var vp, vq := Some(Object(p)), Some(Object(q));
    if ObjectsMeet(vp, vq) {
      forall base: Table ensures Merge(base, Accumulate(p, q)) == Merge(Merge(base, p), q) {
        AccumulateLaw(Some(Object(base)), vp, vq);
      }
    } else {
      var base := AccumulateLawFails(vp, vq);
      assert Merge(Fields(base), Accumulate(p, q)) != Merge(Merge(Fields(base), p), q);
    }
  }

  /** Does a patch say anything at a path, or replace something above it? */
  ghost predicate Speaks(p: Option<Value>, path: Path)
    decreases |path|
  {
    p.Some? && (path == [] || !IsObject(p) || Speaks(Child(p, path[0]), path[1..]))
  }

  /** A captured deletion is never resurrected: a tombstone of the newer patch is stored, and one
      of the older patch stands until a later patch speaks for its path. */
  lemma {:induction false} TombstonesPersist(p: Option<Value>, q: Option<Value>, path: Path)
    requires Lookup(q, path) == Some(Null) || (Lookup(p, path) == Some(Null) && !Speaks(q, path))
    ensures Lookup(AccumulateAt(p, q), path) == Some(Null)
    decreases |path|
  {
    if path != [] {
      if IsObject(p) && IsObject(q) {
        AccumulateChild(p, q, path[0]);
        TombstonesPersist(Child(p, path[0]), Child(q, path[0]), path[1..]);
      } else if !IsObject(q) {
        AbsentBelow(q, path);
      } else {
        AbsentBelow(p, path);
      }
    }
  }

  /** A stored tombstone keeps its path out of every render it is merged into. */
  lemma {:induction false} TombstoneDeletes(base: Option<Value>, p: Option<Value>, path: Path)
    requires Lookup(p, path) == Some(Null)
    ensures Lookup(MergeAt(base, p), path).None?
    decreases |path|
  {
    if path != [] {
      if !IsObject(p) { AbsentBelow(p, path); }
      MergeChild(base, p, path[0]);
      TombstoneDeletes(Child(base, path[0]), Child(p, path[0]), path[1..]);
    }
  }

  // ---------------------------------------------------------------- the fold strips nulls

  lemma {:induction false} MergeNullFree(t: Option<Value>, p: Option<Value>)
    requires NullFree(t)
    ensures NullFree(MergeAt(t, p))
    decreases p.Some?, if p.Some? then p.value else Null
  {
    if IsObject(p) {
      forall k ensures NullFree(Child(MergeAt(t, p), k)) {
        assert NullFree(Child(t, k));
        if k in Fields(p) { MergeNullFree(Child(t, k), Child(p, k)); }
      }
    }
  }

  /** A fold never produces a null, whatever its layers hold. */
  lemma {:induction false} FoldNullFree(layers: seq<Table>)
    ensures NullFree(Some(Object(Fold(layers))))
  {
    if layers != [] {
      FoldNullFree(layers[..|layers| - 1]);
      MergeNullFree(Some(Object(Fold(layers[..|layers| - 1]))), Some(Object(layers[|layers| - 1])));
    }
  }

  // ---------------------------------------------------------------- the loops over decoded maps

  /** mergeValue: a non-object patch replaces; an object patch is merged key by key, in any order. */
  method MergeValue(target: Value, patch: Value) returns (r: Value)
    ensures Some(r) == if patch.Null? then Some(Null) else MergeAt(Some(target), Some(patch))
    decreases patch
  {
    if !patch.Object? {
      return patch;
    }
    var base := if target.Object? then target.fields else map[];
    var result := base;
    var todo := patch.fields.Keys;
    while todo != {}
      invariant todo <= patch.fields.Keys
      invariant forall k :: At(result, k) == if k in todo then At(base, k)
                                             else MergeAt(At(base, k), At(patch.fields, k))
      decreases todo
    {
      var k :| k in todo;
      if patch.fields[k].Null? {
        result := result - {k};
      } else {
        var v := MergeValue(if k in result then result[k] else Null, patch.fields[k]);
        if k !in base { NothingIsNull(At(base, k), At(patch.fields, k)); }
        result := result[k := v];
      }
      todo := todo - {k};
    }
    r := Object(result);
    ghost var want := MergeAt(Some(target), Some(patch));
    forall k ensures Child(Some(r), k) == Child(want, k) {
      MergeChild(Some(target), Some(patch), k);
    }
    SameObject(Some(r), want);
  }

  /** Merging over an absent key is merging over a null one. */
  lemma {:induction false} NothingIsNull(t: Option<Value>, p: Option<Value>)
    requires p.Some? && t.None?
    ensures MergeAt(t, p) == MergeAt(Some(Null), p)
  {
    if IsObject(p) {
      forall k ensures Child(MergeAt(t, p), k) == Child(MergeAt(Some(Null), p), k) {
        MergeChild(t, p, k);
        MergeChild(Some(Null), p, k);
      }
      SameObject(MergeAt(t, p), MergeAt(Some(Null), p));
    }
  }

  /** deepMerge. */
  method DeepMerge(base: Table, over: Table) returns (r: Table)
    ensures r == Merge(base, over)
  {
    var merged := MergeValue(Object(base), Object(over));
    r := merged.fields;
  }

  /** mergeAccumulate: newer entries are stored over older ones, tombstones included. */
  method MergeAccumulate(base: Table, over: Table) returns (r: Table)
    ensures r == Accumulate(base, over)
    decreases Object(over)
  {
    r := base;
    var todo := over.Keys;
    while todo != {}
      invariant todo <= over.Keys
      invariant forall k :: At(r, k) == if k in todo then At(base, k) else AccumulateAt(At(base, k), At(over, k))
      decreases todo
    {
      var k :| k in todo;
      var v := over[k];
      if v.Object? && k in r && r[k].Object? {
        ghost var old' := r[k];
        var inner := MergeAccumulate(r[k].fields, v.fields);
        r := r[k := Object(inner)];
        AccumulateTable(old', v);
      } else {
        r := r[k := v];
      }
      todo := todo - {k};
    }
    forall k ensures At(r, k) == At(Accumulate(base, over), k) {
      AccumulateChild(Some(Object(base)), Some(Object(over)), k);
    }
    SameTable(r, Accumulate(base, over));
  }

  lemma {:induction false} AccumulateTable(p: Value, q: Value)
    requires p.Object? && q.Object?
    ensures AccumulateAt(Some(p), Some(q)) == Some(Object(Accumulate(p.fields, q.fields)))
  {}

  /** render: the layers folded left to right. */
  method Render(layers: seq<Table>) returns (out: Table)
    ensures out == Fold(layers)
  {
    out := map[];
    assert layers[..0] == [];
    for i := 0 to |layers|
      invariant out == Fold(layers[..i])
    {
      out := DeepMerge(out, layers[i]);
      assert layers[..i + 1][..i] == layers[..i];
    }
    assert layers[..|layers|] == layers;
  }

  /** diffValue: the patch from old to new, and whether anything changed. */
  method DiffValue(old': Value, new': Value) returns (patch: Value, changed: bool)
    ensures changed <==> DiffAt(Some(old'), Some(new')).Some?
    ensures changed ==> Some(patch) == DiffAt(Some(old'), Some(new'))
    ensures old'.Object? && new'.Object? ==> patch.Object? && patch.fields == Diff(old'.fields, new'.fields)
    decreases new'
  {
    if !(old'.Object? && new'.Object?) {
      if old' == new' {
        return Null, false;
      }
      return new', true;
    }
    var o, n := old'.fields, new'.fields;
    var out: Table := map[];
    var todo := n.Keys;
    while todo != {}
      invariant todo <= n.Keys
      invariant forall k :: At(out, k) == if k in n && k !in todo then DiffAt(At(o, k), At(n, k)) else None
      decreases todo
    {
      var k :| k in todo;
      if k !in o {
        out := out[k := n[k]];
      } else {
        var sub, differs := DiffValue(o[k], n[k]);
        if differs { out := out[k := sub]; }
      }
      todo := todo - {k};
    }
    todo := o.Keys;
    while todo != {}
      invariant todo <= o.Keys
      invariant forall k :: At(out, k) == if k in n then DiffAt(At(o, k), At(n, k))
                                          else if k in o && k !in todo then Some(Null) else None
      decreases todo
    {
      var k :| k in todo;
      if k !in n { out := out[k := Null]; }
      todo := todo - {k};
    }
    forall k ensures At(out, k) == At(Diff(o, n), k) {
      DiffChild(Some(old'), Some(new'), k);
    }
    SameTable(out, Diff(o, n));
    patch, changed := Object(out), out != map[];
    DiffIsTable(Some(old'), Some(new'));
  }

  lemma {:induction false} DiffIsTable(old': Option<Value>, new': Option<Value>)
    requires IsObject(old') && IsObject(new')
    ensures var d := Diff(old'.value.fields, new'.value.fields);
            DiffAt(old', new') == if d == map[] then None else Some(Object(d))
  {}

  /** mergeDiff. */
  method MergeDiff(old': Table, new': Table) returns (r: Table)
    ensures r == Diff(old', new')
  {
    var patch, _ := DiffValue(Object(old'), Object(new'));
    r := patch.fields;
  }
}
