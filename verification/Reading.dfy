/** internal/agentcfg/codec, as far as values go: what a value becomes when it is written in a format and
    read back, what each format can hold, and what each encoder refuses. Every format keeps the shape of a
    value; JSON keeps one kind of number, YAML and TOML their own. The overlay sidecar is JSON whatever the
    surface's codec. */
module Reading {
  import opened Values
  import opened Engine
  import opened Enforce
  import opened LiteralNull
  import opened Narrow

  datatype Codec = Json | Yaml | Toml

  // ---------------------------------------------------------------- scalars and values

  /** YAML writes an integral decimal without a point, until it writes it with an exponent. */
  const YAML_EXPONENT: real := 1000000.0

  predicate PointlessInYaml(r: real) {
    r == r.Floor as real && 0.0 - YAML_EXPONENT < r && r < YAML_EXPONENT
  }

  function JsonScalar(s: Scalar): Scalar {
    match s
    case Whole(n) => Decimal(Float64(n))
    case Machine(n) => Decimal(Float64(n))
    case Moment(stamp) => Text(stamp)
    case _ => s
  }

  function YamlScalar(s: Scalar): Scalar {
    match s
    case Whole(n) => Machine(n)
    case Decimal(r) => if PointlessInYaml(r) then Machine(r.Floor) else s
    case _ => s
  }

  function TomlScalar(s: Scalar): Scalar {
    match s
    case Machine(n) => Whole(n)
    case _ => s
  }

  function RereadScalar(c: Codec, s: Scalar): Scalar {
    match c
    case Json => JsonScalar(s)
    case Yaml => YamlScalar(s)
    case Toml => TomlScalar(s)
  }

  function Reread(c: Codec, v: Value): Value {
    match v
    case Null => Null
    case Leaf(s) => Leaf(RereadScalar(c, s))
    case List(elems) => List(seq(|elems|, i requires 0 <= i < |elems| => Reread(c, elems[i])))
    case Object(fields) => Object(map k | k in fields :: Reread(c, fields[k]))
  }

  function RereadAt(c: Codec, v: Option<Value>): Option<Value> {
    if v.Some? then Some(Reread(c, v.value)) else None
  }

  /** Two values JSON cannot tell apart: the same but for the kinds of their numbers, and what of a whole number
      a float64 does not hold. */
  ghost predicate Same(a: Option<Value>, b: Option<Value>) {
    RereadAt(Json, a) == RereadAt(Json, b)
  }

  lemma {:induction false} RereadChild(c: Codec, v: Option<Value>, k: string)
    ensures IsObject(RereadAt(c, v)) <==> IsObject(v)
    ensures Child(RereadAt(c, v), k) == RereadAt(c, Child(v, k))
    ensures Fields(RereadAt(c, v)).Keys == Fields(v).Keys
  {}

  /** A table that is only there to hold something. */
  ghost predicate HoldsSome(v: Option<Value>) {
    && (v.None? || IsObject(v))
    && (v.None? <==> forall k :: Child(v, k).None?)
  }

  lemma {:induction false} HoldingAlike(a: Option<Value>, b: Option<Value>)
    requires HoldsSome(a) && HoldsSome(b) && forall k :: Child(a, k) == Child(b, k)
    ensures a == b
  {
    assert (forall k :: Child(a, k).None?) <==> (forall k :: Child(b, k).None?) by {
      assert forall k :: Child(a, k) == Child(b, k);
    }
    if a.Some? && b.Some? { SameObject(a, b); }
  }

  lemma {:induction false} RereadHolding(c: Codec, v: Option<Value>)
    requires HoldsSome(v)
    ensures HoldsSome(RereadAt(c, v))
  {
    if v.Some? {
      var k :| Child(v, k).Some?;
      RereadChild(c, v, k);
    }
  }

  /** Whatever a value was read back as before, JSON reads it as it would have read the value. */
  lemma {:induction false} JsonAfter(c: Codec, v: Value)
    ensures Reread(Json, Reread(c, v)) == Reread(Json, v)
  {
    match v
    case List(elems) =>
      forall i | 0 <= i < |elems| ensures Reread(Json, Reread(c, elems[i])) == Reread(Json, elems[i]) { JsonAfter(c, elems[i]); }
      assert Reread(Json, Reread(c, v)).elems == Reread(Json, v).elems;
    case Object(fields) =>
      forall k | k in fields ensures Reread(Json, Reread(c, fields[k])) == Reread(Json, fields[k]) { JsonAfter(c, fields[k]); }
      assert Reread(Json, Reread(c, v)).fields == Reread(Json, v).fields;
    case _ =>
  }

  lemma {:induction false} JsonAfterAt(c: Codec, v: Option<Value>)
    ensures Same(RereadAt(c, v), v)
  {
    if v.Some? { JsonAfter(c, v.value); }
  }

  // ---------------------------------------------------------------- every pass commutes with reading back

  lemma {:induction false} RereadMerge(c: Codec, t: Option<Value>, p: Option<Value>)
    ensures RereadAt(c, MergeAt(t, p)) == MergeAt(RereadAt(c, t), RereadAt(c, p))
    decreases p.Some?, if p.Some? then p.value else Null
  {
    if IsObject(p) {
      var here, there := RereadAt(c, MergeAt(t, p)), MergeAt(RereadAt(c, t), RereadAt(c, p));
      forall k ensures Child(here, k) == Child(there, k) {
        MergeChild(t, p, k);
        MergeChild(RereadAt(c, t), RereadAt(c, p), k);
        RereadChild(c, t, k);
        RereadChild(c, p, k);
        RereadChild(c, MergeAt(t, p), k);
        if k in Fields(p) { RereadMerge(c, Child(t, k), Child(p, k)); }
      }
      SameObject(here, there);
    }
  }

  lemma {:induction false} RereadAccumulate(c: Codec, p: Option<Value>, q: Option<Value>)
    ensures RereadAt(c, AccumulateAt(p, q)) == AccumulateAt(RereadAt(c, p), RereadAt(c, q))
    decreases q.Some?, if q.Some? then q.value else Null
  {
    if IsObject(p) && IsObject(q) {
      var here, there := RereadAt(c, AccumulateAt(p, q)), AccumulateAt(RereadAt(c, p), RereadAt(c, q));
      forall k ensures Child(here, k) == Child(there, k) {
        AccumulateChild(p, q, k);
        AccumulateChild(RereadAt(c, p), RereadAt(c, q), k);
        RereadChild(c, p, k);
        RereadChild(c, q, k);
        RereadChild(c, AccumulateAt(p, q), k);
        if k in Fields(q) { RereadAccumulate(c, Child(p, k), Child(q, k)); }
      }
      SameObject(here, there);
    }
  }

  lemma {:induction false} RereadFloor(c: Codec, toml: bool, cur: Option<Value>, m: Option<Value>)
    ensures RereadAt(c, FloorAt(toml, cur, m)) == FloorAt(toml, RereadAt(c, cur), RereadAt(c, m))
    decreases m.Some?, if m.Some? then m.value else Null
  {
    if IsObject(m) {
      var here, there := RereadAt(c, FloorAt(toml, cur, m)), FloorAt(toml, RereadAt(c, cur), RereadAt(c, m));
      forall k ensures Child(here, k) == Child(there, k) {
        FloorChild(toml, cur, m, k);
        FloorChild(toml, RereadAt(c, cur), RereadAt(c, m), k);
        RereadChild(c, cur, k);
        RereadChild(c, m, k);
        RereadChild(c, FloorAt(toml, cur, m), k);
        if k in Fields(m) { RereadFloor(c, toml, Child(cur, k), Child(m, k)); }
      }
      FloorChild(toml, cur, m, "");
      FloorChild(toml, RereadAt(c, cur), RereadAt(c, m), "");
      if toml && !IsObject(cur) {
        TomlFloorHolding(cur, m);
        TomlFloorHolding(RereadAt(c, cur), RereadAt(c, m));
        RereadHolding(c, FloorAt(toml, cur, m));
        HoldingAlike(here, there);
      } else {
        SameObject(here, there);
      }
    }
  }

  /** Where there was no table, the TOML floor makes one exactly when something is in it. */
  lemma {:induction false} TomlFloorHolding(cur: Option<Value>, m: Option<Value>)
    requires !IsObject(cur) && IsObject(m)
    ensures HoldsSome(EnforceTomlAt(cur, m))
  {
    var r := EnforceTomlAt(cur, m);
    if r.Some? {
      var k :| k in Fields(r);
      assert Child(r, k).Some?;
    }
  }

  lemma {:induction false} RereadRender(c: Codec, toml: bool, t: Option<Value>, o: Option<Value>, k: Option<Value>, m: Option<Value>)
    ensures RereadAt(c, RenderAt(toml, t, o, k, m))
         == RenderAt(toml, RereadAt(c, t), RereadAt(c, o), RereadAt(c, k), RereadAt(c, m))
  {
    RereadMerge(c, t, o);
    RereadMerge(c, MergeAt(t, o), k);
    RereadFloor(c, toml, MergeAt(MergeAt(t, o), k), m);
  }

  lemma {:induction false} RereadReinstate(c: Codec, cur: Option<Value>, mark: Option<Value>, held: seq<Value>)
    ensures RereadAt(c, ReinstateAt(cur, mark, held)) == ReinstateAt(RereadAt(c, cur), mark, held)
    decreases mark.Some?, if mark.Some? then mark.value else Null
  {
    if IsObject(mark) && Enters(cur, held) {
      var here, there := RereadAt(c, ReinstateAt(cur, mark, held)), ReinstateAt(RereadAt(c, cur), mark, held);
      forall k ensures Child(here, k) == Child(there, k) {
        ReinstateChild(cur, mark, held, k);
        ReinstateChild(RereadAt(c, cur), mark, held, k);
        RereadChild(c, cur, k);
        RereadChild(c, ReinstateAt(cur, mark, held), k);
        if k in Fields(mark) { RereadReinstate(c, Child(cur, k), Child(mark, k), Below(held, k)); }
      }
      ReinstateChild(cur, mark, held, "");
      ReinstateChild(RereadAt(c, cur), mark, held, "");
      if IsObject(cur) {
        SameObject(here, there);
      } else {
        ReinstateHolding(cur, mark, held);
        ReinstateHolding(RereadAt(c, cur), mark, held);
        RereadHolding(c, ReinstateAt(cur, mark, held));
        HoldingAlike(here, there);
      }
    }
  }

  lemma {:induction false} ReinstateHolding(cur: Option<Value>, mark: Option<Value>, held: seq<Value>)
    requires !IsObject(cur) && IsObject(mark) && Enters(cur, held)
    ensures HoldsSome(ReinstateAt(cur, mark, held))
  {
    var r := ReinstateAt(cur, mark, held);
    if r.Some? {
      ReinstateChild(cur, mark, held, "");
      var k :| k in Fields(r);
      assert Child(r, k).Some?;
    }
  }

  lemma {:induction false} RereadSkeleton(c: Codec, v: Option<Value>)
    ensures SkeletonAt(RereadAt(c, v)) == SkeletonAt(v)
    decreases v.Some?, if v.Some? then v.value else Null
  {
    if IsObject(v) {
      forall k ensures Child(SkeletonAt(RereadAt(c, v)), k) == Child(SkeletonAt(v), k) {
        SkeletonChild(v, k);
        SkeletonChild(RereadAt(c, v), k);
        RereadChild(c, v, k);
        if k in Fields(v) { RereadSkeleton(c, Child(v, k)); }
      }
      SkeletonHolding(v);
      SkeletonHolding(RereadAt(c, v));
      HoldingAlike(SkeletonAt(RereadAt(c, v)), SkeletonAt(v));
    }
  }

  lemma {:induction false} SkeletonHolding(v: Option<Value>)
    requires IsObject(v)
    ensures HoldsSome(SkeletonAt(v))
  {
    if SkeletonAt(v).Some? {
      SkeletonChild(v, "");
      var k :| k in Fields(SkeletonAt(v));
      assert Child(SkeletonAt(v), k).Some?;
    }
  }

  /** Narrowing asks of an owner only its tables, and of the overlay only its shape. */
  lemma {:induction false} RereadDropOwned(c: Codec, d: Codec, v: Option<Value>, owner: Option<Value>)
    ensures DropOwnedAt(RereadAt(c, v), RereadAt(d, owner)) == RereadAt(c, DropOwnedAt(v, owner))
    ensures DropOwnedAt(RereadAt(c, v), owner) == RereadAt(c, DropOwnedAt(v, owner))
    decreases v.Some?, if v.Some? then v.value else Null
  {
    if IsObject(v) && IsObject(owner) {
      var plain, other, want := DropOwnedAt(RereadAt(c, v), owner), DropOwnedAt(RereadAt(c, v), RereadAt(d, owner)), RereadAt(c, DropOwnedAt(v, owner));
      forall k ensures Child(plain, k) == Child(want, k) && Child(other, k) == Child(want, k) {
        DropOwnedChild(v, owner, k);
        DropOwnedChild(RereadAt(c, v), owner, k);
        DropOwnedChild(RereadAt(c, v), RereadAt(d, owner), k);
        RereadChild(c, v, k);
        RereadChild(d, owner, k);
        RereadChild(c, DropOwnedAt(v, owner), k);
        if k in Fields(v) { RereadDropOwned(c, d, Child(v, k), Child(owner, k)); }
      }
      DropOwnedHolding(v, owner);
      DropOwnedHolding(RereadAt(c, v), owner);
      DropOwnedHolding(RereadAt(c, v), RereadAt(d, owner));
      RereadHolding(c, DropOwnedAt(v, owner));
      HoldingAlike(plain, want);
      HoldingAlike(other, want);
    }
  }

  lemma {:induction false} RereadNarrow(c: Codec, o: Option<Value>, k: Option<Value>, m: Option<Value>)
    ensures NarrowAt(RereadAt(c, o), k, m) == RereadAt(c, NarrowAt(o, k, m))
  {
    RereadDropOwned(c, c, o, k);
    RereadDropOwned(c, c, DropOwnedAt(o, k), m);
  }

  lemma {:induction false} DropOwnedHolding(v: Option<Value>, owner: Option<Value>)
    requires IsObject(v) && IsObject(owner)
    ensures HoldsSome(DropOwnedAt(v, owner))
  {
    var r := DropOwnedAt(v, owner);
    if r.Some? {
      var k :| k in Fields(r);
      assert Child(r, k).Some?;
    }
  }

  lemma {:induction false} RereadDropNulls(c: Codec, v: Option<Value>)
    ensures DropNullsAt(RereadAt(c, v)) == RereadAt(c, DropNullsAt(v))
    decreases v.Some?, if v.Some? then v.value else Null
  {
    if IsObject(v) && Fields(v) != map[] {
      var plain, want := DropNullsAt(RereadAt(c, v)), RereadAt(c, DropNullsAt(v));
      assert Fields(RereadAt(c, v)) != map[] by { RereadChild(c, v, ""); var k :| k in Fields(v); assert k in Fields(RereadAt(c, v)); }
      forall k ensures Child(plain, k) == Child(want, k) {
        DropNullsChild(v, k);
        DropNullsChild(RereadAt(c, v), k);
        RereadChild(c, v, k);
        RereadChild(c, DropNullsAt(v), k);
        if k in Fields(v) { RereadDropNulls(c, Child(v, k)); }
      }
      DropNullsHolding(v);
      DropNullsHolding(RereadAt(c, v));
      RereadHolding(c, DropNullsAt(v));
      HoldingAlike(plain, want);
    }
  }

  lemma {:induction false} DropNullsHolding(v: Option<Value>)
    requires IsObject(v) && Fields(v) != map[]
    ensures HoldsSome(DropNullsAt(v))
  {
    if DropNullsAt(v).Some? {
      var k :| k in Fields(DropNullsAt(v));
      assert Child(DropNullsAt(v), k).Some?;
    }
  }
}
