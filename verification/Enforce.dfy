/** internal/agentcfg/enforce.go: the managed floor, re-asserted over whatever the fold produced. */
module Enforce {
  import opened Values
  import opened Engine

  /** What a key holds once the managed entry m has been enforced over cur. Unlike a merge, a
      managed null is a value to write, not a deletion. */
  function EnforceAt(cur: Option<Value>, m: Option<Value>): Option<Value>
    decreases m.Some?, if m.Some? then m.value else Null
  {
    if m.None? then cur
    else if IsObject(cur) && IsObject(m) then
      Some(Object(map k | k in Fields(cur).Keys + Fields(m).Keys && EnforceAt(Child(cur, k), Child(m, k)).Some?
                    :: EnforceAt(Child(cur, k), Child(m, k)).value))
    else m
  }

  /** The TOML floor: a managed null deletes, and a managed table that asserts nothing is not
      created where there was none. */
  function EnforceTomlAt(cur: Option<Value>, m: Option<Value>): Option<Value>
    decreases m.Some?, if m.Some? then m.value else Null
  {
    if m.None? then cur
    else match m.value
      case Null => None
      case Object(f) =>
        var table := map k | k in Fields(cur).Keys + f.Keys && EnforceTomlAt(Child(cur, k), At(f, k)).Some?
                       :: EnforceTomlAt(Child(cur, k), At(f, k)).value;
        if IsObject(cur) || table != map[] then Some(Object(table)) else None
      case _ => m
  }

  lemma {:induction false} EnforceChild(cur: Option<Value>, m: Option<Value>, k: string)
    requires IsObject(m)
    ensures IsObject(EnforceAt(cur, m))
    ensures Child(EnforceAt(cur, m), k) == EnforceAt(Child(cur, k), Child(m, k))
  {}

  lemma {:induction false} EnforceTomlChild(cur: Option<Value>, m: Option<Value>, k: string)
    requires IsObject(m)
    ensures IsObject(cur) ==> IsObject(EnforceTomlAt(cur, m))
    ensures EnforceTomlAt(cur, m).None? || IsObject(EnforceTomlAt(cur, m))
    ensures Child(EnforceTomlAt(cur, m), k) == EnforceTomlAt(Child(cur, k), Child(m, k))
  {
    var f := m.value.fields;
    if EnforceTomlAt(Child(cur, k), At(f, k)).Some? {
      var table := map j | j in Fields(cur).Keys + f.Keys && EnforceTomlAt(Child(cur, j), At(f, j)).Some?
                     :: EnforceTomlAt(Child(cur, j), At(f, j)).value;
      assert k in table;
    }
  }

  /** The floor of a surface: TOML has no null to render, every other object codec does. */
  function FloorAt(toml: bool, cur: Option<Value>, m: Option<Value>): Option<Value> {
    if toml then EnforceTomlAt(cur, m) else EnforceAt(cur, m)
  }

  lemma {:induction false} FloorChild(toml: bool, cur: Option<Value>, m: Option<Value>, k: string)
    requires m.None? || IsObject(m)
    ensures m.Some? ==> FloorAt(toml, cur, m).None? || IsObject(FloorAt(toml, cur, m))
    ensures IsObject(cur) || (m.Some? && !toml) ==> IsObject(FloorAt(toml, cur, m))
    ensures IsObject(cur) || m.Some? ==>
              Child(FloorAt(toml, cur, m), k) == FloorAt(toml, Child(cur, k), Child(m, k))
  {
    if m.Some? {
      EnforceChild(cur, m, k);
      EnforceTomlChild(cur, m, k);
    }
  }

  predicate IsLeaf(v: Option<Value>) {
    v.Some? && !v.value.Object?
  }

  /** The floor: a path managed gives a leaf value holds that value, and a path managed says
      nothing about holds what it held. */
  lemma {:induction false} FloorHolds(cur: Option<Value>, m: Option<Value>, path: Path)
    ensures IsLeaf(Lookup(m, path)) ==> Lookup(EnforceAt(cur, m), path) == Lookup(m, path)
    ensures !Speaks(m, path) ==> Lookup(EnforceAt(cur, m), path) == Lookup(cur, path)
    decreases |path|
  {
    if path != [] {
      if IsObject(m) {
        EnforceChild(cur, m, path[0]);
        FloorHolds(Child(cur, path[0]), Child(m, path[0]), path[1..]);
      } else {
        AbsentBelow(m, path);
      }
    }
  }

  /** The same two facts for the TOML floor, whose null leaves delete. */
  lemma {:induction false} TomlFloorHolds(cur: Option<Value>, m: Option<Value>, path: Path)
    ensures IsLeaf(Lookup(m, path)) ==>
              Lookup(EnforceTomlAt(cur, m), path) == if Lookup(m, path) == Some(Null) then None else Lookup(m, path)
    ensures !Speaks(m, path) ==> Lookup(EnforceTomlAt(cur, m), path) == Lookup(cur, path)
    decreases |path|
  {
    if path != [] {
      if IsObject(m) {
        EnforceTomlChild(cur, m, path[0]);
        TomlFloorHolds(Child(cur, path[0]), Child(m, path[0]), path[1..]);
      } else {
        AbsentBelow(m, path);
        AbsentBelow(None, path);
      }
    }
  }

  /** The TOML floor never hands the encoder a null it would have to refuse. */
  lemma {:induction false} TomlFloorNullFree(cur: Option<Value>, m: Option<Value>)
    requires NullFree(cur)
    ensures NullFree(EnforceTomlAt(cur, m))
    decreases m.Some?, if m.Some? then m.value else Null
  {
    if IsObject(m) {
      forall k ensures NullFree(Child(EnforceTomlAt(cur, m), k)) {
        EnforceTomlChild(cur, m, k);
        assert NullFree(Child(cur, k));
        if k in Fields(m) { TomlFloorNullFree(Child(cur, k), Child(m, k)); }
      }
    }
  }

  /** The JSON floor and the fold's merge agree on every config exactly when managed holds no null. */
  lemma {:induction false} EnforceIsMergeIff(m: Option<Value>)
    ensures (forall cur :: EnforceAt(cur, m) == MergeAt(cur, m)) <==> NullFree(m)
  {
    if NullFree(m) {
      forall cur ensures EnforceAt(cur, m) == MergeAt(cur, m) {
        EnforceIsMerge(cur, m);
      }
    } else {
      MergeNullFree(None, m);
      assert EnforceAt(None, m) == m;
    }
  }

  lemma {:induction false} EnforceIsMerge(cur: Option<Value>, m: Option<Value>)
    requires NullFree(m)
    ensures EnforceAt(cur, m) == MergeAt(cur, m)
    decreases m.Some?, if m.Some? then m.value else Null
  {
    if IsObject(m) {
      forall k ensures Child(EnforceAt(cur, m), k) == Child(MergeAt(cur, m), k) {
        EnforceChild(cur, m, k);
        MergeChild(cur, m, k);
        if k in Fields(m) { EnforceIsMerge(Child(cur, k), Child(m, k)); }
      }
      SameObject(EnforceAt(cur, m), MergeAt(cur, m));
    }
  }

  // ---------------------------------------------------------------- the in-place methods

  /** A decoded config object shared by reference: the floor and the literal-null pass rewrite it
      where it stands. */
  class ConfigMap {
    var fields: Table

    constructor (fields: Table)
      ensures this.fields == fields
    {
      this.fields := fields;
    }

    /** enforceManaged on a config object; a keyless managed value replaces the whole config,
        which is left alone and the replacement returned instead. */
    method EnforceManaged(managed: Value) returns (replaced: Option<Value>)
      modifies this
      ensures managed.Object? ==>
                replaced.None? && Some(Object(fields)) == EnforceAt(Some(Object(old(fields))), Some(managed))
      ensures !managed.Object? ==> fields == old(fields) && replaced == (if managed.Null? then None else Some(managed))
    {
      if !managed.Object? {
        return if managed.Null? then None else Some(managed);
      }
      ghost var was := Some(Object(fields));
      var todo := managed.fields.Keys;
      while todo != {}
        invariant todo <= managed.fields.Keys
        invariant forall k :: At(fields, k) == if k in todo then Child(was, k)
                                               else EnforceAt(Child(was, k), At(managed.fields, k))
        decreases todo
      {
        var k :| k in todo;
        var v := EnforceValue(if k in fields then fields[k] else Null, managed.fields[k]);
        fields := fields[k := v];
        todo := todo - {k};
      }
      ghost var want := EnforceAt(was, Some(managed));
      forall k ensures Child(Some(Object(fields)), k) == Child(want, k) {
        EnforceChild(was, Some(managed), k);
      }
      SameObject(Some(Object(fields)), want);
      replaced := None;
    }

    /** enforceManagedTOML on a config object. */
    method EnforceManagedTOML(managed: Table)
      modifies this
      ensures Some(Object(fields)) == EnforceTomlAt(Some(Object(old(fields))), Some(Object(managed)))
      decreases Object(managed)
    {
      ghost var was := Some(Object(fields));
      var todo := managed.Keys;
      while todo != {}
        invariant todo <= managed.Keys
        invariant forall k :: At(fields, k) == if k in todo then Child(was, k)
                                               else EnforceTomlAt(Child(was, k), At(managed, k))
        decreases todo
      {
        var k :| k in todo;
        match managed[k] {
          case Null =>
            fields := fields - {k};
          case Object(sub) =>
            var present := k in fields && fields[k].Object?;
            var nested := new ConfigMap(if present then fields[k].fields else map[]);
            ghost var before := nested.fields;
            nested.EnforceManagedTOML(sub);
            EnforceTomlFromEmpty(Child(was, k), before, sub);
            if present || nested.fields != map[] {
              fields := fields[k := Object(nested.fields)];
            } else {
              fields := fields - {k};
            }
          case _ =>
            fields := fields[k := managed[k]];
        }
        todo := todo - {k};
      }
      ghost var want := EnforceTomlAt(was, Some(Object(managed)));
      forall k ensures Child(Some(Object(fields)), k) == Child(want, k) {
        EnforceTomlChild(was, Some(Object(managed)), k);
      }
      EnforceTomlChild(was, Some(Object(managed)), "");
      SameObject(Some(Object(fields)), want);
    }
  }

  /** Enforcing a table over a non-table starts from an empty one, and an empty outcome is dropped. */
  lemma {:induction false} EnforceTomlFromEmpty(cur: Option<Value>, before: Table, sub: Table)
    requires before == Fields(cur)
    ensures var nested := EnforceTomlAt(Some(Object(before)), Some(Object(sub)));
            EnforceTomlAt(cur, Some(Object(sub))) ==
            if IsObject(cur) || Fields(nested) != map[] then nested else None
  {
    var direct, nested := EnforceTomlAt(cur, Some(Object(sub))), EnforceTomlAt(Some(Object(before)), Some(Object(sub)));
    forall k ensures Child(direct, k) == Child(nested, k) {
      EnforceTomlChild(cur, Some(Object(sub)), k);
      EnforceTomlChild(Some(Object(before)), Some(Object(sub)), k);
    }
    if direct.Some? {
      SameObject(direct, nested);
    } else {
      forall k ensures At(Fields(nested), k) == At(map[], k) {
        assert Child(direct, k) == Child(nested, k);
      }
      SameTable(Fields(nested), map[]);
    }
  }

  /** enforceValue: a fresh value, the managed one winning at every depth. */
  method EnforceValue(cur: Value, managed: Value) returns (r: Value)
    ensures Some(r) == EnforceAt(Some(cur), Some(managed))
    ensures Some(r) == EnforceAt(None, Some(managed)) || !cur.Null?
    decreases managed
  {
    if !managed.Object? || !cur.Object? {
      return managed;
    }
    var out := cur.fields;
    var todo := managed.fields.Keys;
    while todo != {}
      invariant todo <= managed.fields.Keys
      invariant forall k :: At(out, k) == if k in todo then At(cur.fields, k)
                                          else EnforceAt(At(cur.fields, k), At(managed.fields, k))
      decreases todo
    {
      var k :| k in todo;
      var v := EnforceValue(if k in cur.fields then cur.fields[k] else Null, managed.fields[k]);
      out := out[k := v];
      todo := todo - {k};
    }
    r := Object(out);
    forall k ensures Child(Some(r), k) == Child(EnforceAt(Some(cur), Some(managed)), k) {
      EnforceChild(Some(cur), Some(managed), k);
    }
    SameObject(Some(r), EnforceAt(Some(cur), Some(managed)));
  }
}
