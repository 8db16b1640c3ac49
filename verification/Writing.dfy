/** internal/agentcfg/codec: what a file of each format can hold, what each encoder refuses, and that
    reading numbers differently never makes an encoder refuse. */
module Writing {
  import opened Values
  import opened Engine
  import opened Enforce
  import opened LiteralNull
  import opened Narrow
  import opened Reading

  // ---------------------------------------------------------------- what decoding can give

  predicate LegibleScalar(c: Codec, s: Scalar) {
    match c
    case Json => s.Text? || s.Flag? || s.Decimal?
    case Yaml => !s.Whole? && !s.Moment?
    case Toml => !s.Machine?
  }

  /** A file of the format can hold the value: its decoder gives nothing else. */
  predicate Legible(c: Codec, v: Value) {
    match v
    case Null => !c.Toml?
    case Leaf(s) => LegibleScalar(c, s)
    case List(elems) => forall i :: 0 <= i < |elems| ==> Legible(c, elems[i])
    case Object(fields) => forall k :: k in fields ==> Legible(c, fields[k])
  }

  // ---------------------------------------------------------------- what encoding accepts

  /** A TOML array that is no array of tables: no table or null in it, at any depth. */
  predicate InlineToml(v: Value) {
    match v
    case Null => false
    case Leaf(s) => !s.Moment?
    case List(elems) => forall i :: 0 <= i < |elems| ==> InlineToml(elems[i])
    case Object(_) => false
  }

  /** What the TOML encoder takes under a key: no null and no date; a list of tables only, or of none. */
  predicate KeyedToml(v: Value) {
    match v
    case Null => false
    case Leaf(s) => !s.Moment?
    case List(elems) =>
      || (elems != [] && forall i :: 0 <= i < |elems| ==> elems[i].Object? && KeyedToml(elems[i]))
      || (forall i :: 0 <= i < |elems| ==> InlineToml(elems[i]))
    case Object(fields) => forall k :: k in fields ==> KeyedToml(fields[k])
  }

  predicate NoMoment(v: Value) {
    match v
    case Null => true
    case Leaf(s) => !s.Moment?
    case List(elems) => forall i :: 0 <= i < |elems| ==> NoMoment(elems[i])
    case Object(fields) => forall k :: k in fields ==> NoMoment(fields[k])
  }

  /** The encoder takes the value under a key of the config. */
  predicate EncodableEntry(c: Codec, v: Value) {
    match c
    case Json => true
    case Yaml => NoMoment(v)
    case Toml => KeyedToml(v)
  }

  /** The encoder takes the whole config: a TOML document is a table. */
  predicate Encodable(c: Codec, config: Value) {
    EncodableEntry(c, config) && (c.Toml? ==> config.Object?)
  }

  ghost predicate EncodableAt(c: Codec, v: Option<Value>) {
    v.Some? ==> EncodableEntry(c, v.value)
  }

  lemma {:induction false} EncodableByKey(c: Codec, config: Value)
    requires config.Object?
    ensures Encodable(c, config) <==> forall k :: EncodableAt(c, Child(Some(config), k))
  {
    assert forall k :: k in config.fields ==> Child(Some(config), k) == Some(config.fields[k]);
    if forall k :: EncodableAt(c, Child(Some(config), k)) {
      forall k | k in config.fields ensures EncodableEntry(c, config.fields[k]) {
        assert EncodableAt(c, Child(Some(config), k));
      }
    }
  }

  // ---------------------------------------------------------------- what is written can be read

  lemma {:induction false} InlineLegible(v: Value)
    requires InlineToml(v)
    ensures Legible(Toml, Reread(Toml, v))
  {
    if v.List? {
      forall i | 0 <= i < |v.elems| ensures Legible(Toml, Reread(Toml, v).elems[i]) { InlineLegible(v.elems[i]); }
    }
  }

  lemma {:induction false} WrittenLegible(c: Codec, v: Value)
    requires EncodableEntry(c, v)
    ensures Legible(c, Reread(c, v))
  {
    match v
    case List(elems) =>
      forall i | 0 <= i < |elems| ensures Legible(c, Reread(c, v).elems[i]) {
        if c.Toml? && InlineToml(elems[i]) { InlineLegible(elems[i]); } else { WrittenLegible(c, elems[i]); }
      }
    case Object(fields) =>
      forall k | k in fields ensures Legible(c, Reread(c, v).fields[k]) { WrittenLegible(c, fields[k]); }
    case _ =>
  }

  /** What a JSON file holds, JSON reads as it is. */
  lemma {:induction false} JsonLegibleStands(v: Value)
    requires Legible(Json, v)
    ensures Reread(Json, v) == v
  {
    match v
    case List(elems) =>
      forall i | 0 <= i < |elems| ensures Reread(Json, elems[i]) == elems[i] { JsonLegibleStands(elems[i]); }
      assert Reread(Json, v).elems == elems;
    case Object(fields) =>
      forall k | k in fields ensures Reread(Json, fields[k]) == fields[k] { JsonLegibleStands(fields[k]); }
      assert Reread(Json, v).fields == fields;
    case _ =>
  }

  /** A TOML file holds no literal null. */
  lemma {:induction false} TomlUnmarked(v: Value)
    requires Legible(Toml, v)
    ensures SkeletonAt(Some(v)).None?
  {
    if v.Object? {
      forall k | k in v.fields ensures SkeletonAt(Child(Some(v), k)).None? { TomlUnmarked(v.fields[k]); }
    }
  }

  // ---------------------------------------------------------------- read through JSON, and no harder to write

  /** The one value is the other, with some of its entries read through JSON. */
  ghost predicate Milder(a: Option<Value>, b: Option<Value>)
    decreases b.Some?, if b.Some? then b.value else Null
  {
    if IsObject(a) && IsObject(b) then
      Fields(a).Keys == Fields(b).Keys && forall k :: k in Fields(b) ==> Milder(Child(a, k), Child(b, k))
    else a == b || a == RereadAt(Json, b)
  }

  lemma {:induction false} MilderSelf(v: Option<Value>)
    ensures Milder(v, v) && Milder(RereadAt(Json, v), v)
    decreases v.Some?, if v.Some? then v.value else Null
  {
    if IsObject(v) {
      forall k | k in Fields(v) ensures Milder(Child(v, k), Child(v, k)) && Milder(Child(RereadAt(Json, v), k), Child(v, k)) {
        RereadChild(Json, v, k);
        MilderSelf(Child(v, k));
      }
      RereadChild(Json, v, "");
    }
  }

  lemma {:induction false} MilderShape(a: Option<Value>, b: Option<Value>, k: string)
    requires Milder(a, b)
    ensures a.Some? == b.Some? && IsObject(a) == IsObject(b) && (a == Some(Null) <==> b == Some(Null))
    ensures Milder(Child(a, k), Child(b, k))
  {
    RereadChild(Json, b, k);
    if k !in Fields(b) { assert Child(a, k) == None == Child(b, k); }
  }

  lemma {:induction false} MilderTable(a: Option<Value>, b: Option<Value>)
    requires IsObject(a) && IsObject(b) && forall k :: Milder(Child(a, k), Child(b, k))
    ensures Milder(a, b)
  {
    forall k ensures k in Fields(a) <==> k in Fields(b) { MilderShape(Child(a, k), Child(b, k), ""); }
  }

  lemma {:induction false} MilderMerge(t': Option<Value>, t: Option<Value>, p': Option<Value>, p: Option<Value>)
    requires Milder(t', t) && Milder(p', p)
    ensures Milder(MergeAt(t', p'), MergeAt(t, p))
    decreases p.Some?, if p.Some? then p.value else Null
  {
    MilderShape(p', p, "");
    if IsObject(p) {
      forall k ensures Milder(Child(MergeAt(t', p'), k), Child(MergeAt(t, p), k)) {
        MergeChild(t', p', k);
        MergeChild(t, p, k);
        MilderShape(t', t, k);
        MilderShape(p', p, k);
        if k in Fields(p) { MilderMerge(Child(t', k), Child(t, k), Child(p', k), Child(p, k)); }
      }
      MilderTable(MergeAt(t', p'), MergeAt(t, p));
    }
  }

  lemma {:induction false} MilderFloor(toml: bool, cur': Option<Value>, cur: Option<Value>, m: Option<Value>)
    requires Milder(cur', cur)
    ensures Milder(FloorAt(toml, cur', m), FloorAt(toml, cur, m))
    decreases m.Some?, if m.Some? then m.value else Null
  {
    MilderShape(cur', cur, "");
    if IsObject(m) {
      var a, b := FloorAt(toml, cur', m), FloorAt(toml, cur, m);
      forall k ensures Milder(Child(a, k), Child(b, k)) {
        FloorChild(toml, cur', m, k);
        FloorChild(toml, cur, m, k);
        MilderShape(cur', cur, k);
        if k in Fields(m) { MilderFloor(toml, Child(cur', k), Child(cur, k), Child(m, k)); } else { MilderSelf(None); }
      }
      FloorChild(toml, cur', m, "");
      FloorChild(toml, cur, m, "");
      if toml && !IsObject(cur) {
        TomlFloorHolding(cur', m);
        TomlFloorHolding(cur, m);
        MilderHolding(a, b);
      } else {
        MilderTable(a, b);
      }
    } else {
      MilderSelf(m);
    }
  }

  lemma {:induction false} MilderHolding(a: Option<Value>, b: Option<Value>)
    requires HoldsSome(a) && HoldsSome(b) && forall k :: Milder(Child(a, k), Child(b, k))
    ensures Milder(a, b)
  {
    forall k ensures Child(a, k).None? <==> Child(b, k).None? { MilderShape(Child(a, k), Child(b, k), ""); }
    if a.Some? && b.Some? { MilderTable(a, b); }
  }

  lemma {:induction false} MilderReinstate(cur': Option<Value>, cur: Option<Value>, mark: Option<Value>, held: seq<Value>)
    requires Milder(cur', cur)
    ensures Milder(ReinstateAt(cur', mark, held), ReinstateAt(cur, mark, held))
    decreases mark.Some?, if mark.Some? then mark.value else Null
  {
    MilderShape(cur', cur, "");
    if IsObject(mark) && Enters(cur, held) {
      var a, b := ReinstateAt(cur', mark, held), ReinstateAt(cur, mark, held);
      forall k ensures Milder(Child(a, k), Child(b, k)) {
        ReinstateChild(cur', mark, held, k);
        ReinstateChild(cur, mark, held, k);
        MilderShape(cur', cur, k);
        if k in Fields(mark) { MilderReinstate(Child(cur', k), Child(cur, k), Child(mark, k), Below(held, k)); }
      }
      ReinstateChild(cur', mark, held, "");
      ReinstateChild(cur, mark, held, "");
      if IsObject(cur) {
        MilderTable(a, b);
      } else {
        ReinstateHolding(cur', mark, held);
        ReinstateHolding(cur, mark, held);
        MilderHolding(a, b);
      }
    } else {
      MilderSelf(Some(Null));
    }
  }

  lemma {:induction false} InlineReread(v: Value)
    requires InlineToml(v)
    ensures InlineToml(Reread(Json, v))
  {
    if v.List? {
      forall i | 0 <= i < |v.elems| ensures InlineToml(Reread(Json, v).elems[i]) { InlineReread(v.elems[i]); }
    }
  }

  lemma {:induction false} EncodableReread(c: Codec, v: Value)
    requires EncodableEntry(c, v)
    ensures EncodableEntry(c, Reread(Json, v))
  {
    match v
    case List(elems) =>
      var again := Reread(Json, v).elems;
      if c.Toml? && forall i :: 0 <= i < |elems| ==> InlineToml(elems[i]) {
        forall i | 0 <= i < |elems| ensures InlineToml(again[i]) { InlineReread(elems[i]); }
      } else {
        forall i | 0 <= i < |elems| ensures EncodableEntry(c, again[i]) && (elems[i].Object? ==> again[i].Object?) { EncodableReread(c, elems[i]); }
      }
    case Object(fields) =>
      forall k | k in fields ensures EncodableEntry(c, Reread(Json, v).fields[k]) { EncodableReread(c, fields[k]); }
    case _ =>
  }

  lemma {:induction false} EncodableMilder(c: Codec, a: Option<Value>, b: Option<Value>)
    requires Milder(a, b) && EncodableAt(c, b)
    ensures EncodableAt(c, a)
    decreases b.Some?, if b.Some? then b.value else Null
  {
    if IsObject(a) && IsObject(b) {
      forall k | k in Fields(a) ensures EncodableEntry(c, Fields(a)[k]) {
        assert Child(b, k).Some?;
        EncodableMilder(c, Child(a, k), Child(b, k));
      }
    } else if b.Some? {
      EncodableReread(c, b.value);
    }
  }
}
