/** What the three formats do to a value, without the functions that do it: which numbers a float64 keeps, what
    each format reads back, and which values each encoder takes. */
module Formats {
  import opened Values
  import opened Enforce
  import opened Narrow
  import opened Reading
  import opened Writing
  import opened Compose
  import opened StateRender

  // ---------------------------------------------------------------- whole numbers as float64

  predicate PowerOfTwo(u: nat) {
    u == 1 || (u > 1 && u % 2 == 0 && PowerOfTwo(u / 2))
  }

  /** The spacing of the floats around n is the power of two that leaves n 53 bits. */
  lemma {:induction false} UlpMeans(n: nat)
    ensures PowerOfTwo(Ulp(n))
    ensures n < 9007199254740992 ==> Ulp(n) == 1
    ensures n >= 9007199254740992 ==> 4503599627370496 * Ulp(n) <= n < 9007199254740992 * Ulp(n)
  {
    if n >= MANTISSA { UlpMeans(n / 2); }
  }

  /** The nearest float: a multiple of the spacing, no more than half of it away, and of two as near the one whose
      multiple is even. */
  lemma {:induction false} NearestMeans(n: nat) returns (m: nat)
    ensures Nearest(n) == m * Ulp(n)
    ensures -(Ulp(n) as int) <= 2 * (Nearest(n) - n) <= Ulp(n)
    ensures n >= 9007199254740992 && (2 * (Nearest(n) - n) == Ulp(n) || 2 * (n - Nearest(n)) == Ulp(n)) ==> m % 2 == 0
  {
    var u := Ulp(n);
    var q, r := n / u, n % u;
    Divide(n, u);
    if n < MANTISSA {
      m := n;
    } else if 2 * r < u || (2 * r == u && q % 2 == 0) {
      m := q;
    } else {
      m := q + 1;
    }
  }

  lemma {:induction false} Divide(n: nat, u: nat)
    requires u > 0
    ensures n == (n / u) * u + n % u && (n / u + 1) * u == (n / u) * u + u
  {}

  /** A float64 keeps the sign, and every whole number of 53 bits. */
  lemma {:induction false} FloatKeeps(n: int)
    ensures -9007199254740992 < n < 9007199254740992 ==> Float64(n) == n as real
    ensures Float64(-n) == 0.0 - Float64(n)
  {}

  /** The first one it does not keep, and the next it rounds up. */
  lemma {:induction false} FirstLost()
    ensures Float64(9007199254740993) == 9007199254740992.0 && Float64(9007199254740995) == 9007199254740996.0
    ensures Float64(-9007199254740993) == -9007199254740992.0
  {
    UlpMeans(9007199254740993);
    UlpMeans(9007199254740995);
    assert Ulp(4503599627370496) == 1 && Ulp(4503599627370497) == 1;
    assert Ulp(9007199254740993) == 2 && Ulp(9007199254740995) == 2;
  }

  // ---------------------------------------------------------------- a scalar read back

  predicate Numeric(s: Scalar) {
    s.Whole? || s.Machine? || s.Decimal?
  }

  /** A number read back is the same number, of the format's own kind; JSON's has 53 bits. */
  lemma {:induction false} NumbersReadBack(n: int)
    ensures RereadScalar(Json, Whole(n)) == RereadScalar(Json, Machine(n)) == Decimal(Float64(n))
    ensures RereadScalar(Yaml, Whole(n)) == RereadScalar(Yaml, Machine(n)) == Machine(n)
    ensures RereadScalar(Toml, Whole(n)) == RereadScalar(Toml, Machine(n)) == Whole(n)
  {}

  /** A decimal is read back as it was, but for one YAML writes without a point: from a million up it has an exponent. */
  lemma {:induction false} DecimalsReadBack(c: Codec, r: real)
    ensures c == Yaml && r.Floor as real == r && -1000000.0 < r < 1000000.0 ==>
              RereadScalar(c, Decimal(r)).Machine? && RereadScalar(c, Decimal(r)).i as real == r
    ensures !(c == Yaml && r.Floor as real == r && -1000000.0 < r < 1000000.0) ==> RereadScalar(c, Decimal(r)) == Decimal(r)
  {}

  /** Text and flags stand; a date is text in JSON. */
  lemma {:induction false} OthersReadBack(c: Codec, s: Scalar)
    requires !Numeric(s)
    ensures !s.Moment? || c != Json ==> RereadScalar(c, s) == s
    ensures s.Moment? ==> RereadScalar(Json, s) == Text(s.stamp)
  {}

  // ---------------------------------------------------------------- what an encoder takes

  /** The value is this one, or in a list or under a key of it, at any depth. */
  ghost predicate Within(w: Value, v: Value)
    decreases v
  {
    w == v ||
    match v
    case List(elems) => exists i :: 0 <= i < |elems| && Within(w, elems[i])
    case Object(fields) => exists k :: k in fields && Within(w, fields[k])
    case _ => false
  }

  lemma {:induction false} WithinTrans(u: Value, w: Value, v: Value)
    requires Within(u, w) && Within(w, v)
    ensures Within(u, v)
    decreases v
  {
    if w != v {
      match v
      case List(elems) =>
        var i :| 0 <= i < |elems| && Within(w, elems[i]);
        WithinTrans(u, w, elems[i]);
      case Object(fields) =>
        var k :| k in fields && Within(w, fields[k]);
        WithinTrans(u, w, fields[k]);
    }
  }

  predicate Date(v: Value) {
    v.Leaf? && v.scalar.Moment?
  }

  /** A list that may hold tables: every element is one. */
  predicate TablesOnly(v: Value) {
    v.List? ==> forall i :: 0 <= i < |v.elems| ==> v.elems[i].Object?
  }

  ghost predicate HasTable(v: Value) {
    exists w: Value :: w.Object? && Within(w, v)
  }

  /** A value TOML can hold under a key: no null and no date anywhere in it, and a list with a table anywhere in it
      holds tables alone. */
  ghost predicate TomlCan(v: Value) {
    forall w :: Within(w, v) ==> w != Null && !Date(w) && (w.List? && HasTable(w) ==> TablesOnly(w))
  }

  lemma {:induction false} InlineIff(v: Value)
    ensures InlineToml(v) <==> forall w :: Within(w, v) ==> w != Null && !Date(w) && !w.Object?
    decreases v
  {
    assert Within(v, v);
    if v.List? {
      forall i | 0 <= i < |v.elems| ensures InlineToml(v.elems[i]) <==> forall w :: Within(w, v.elems[i]) ==> w != Null && !Date(w) && !w.Object? {
        InlineIff(v.elems[i]);
      }
      if forall w :: Within(w, v) ==> w != Null && !Date(w) && !w.Object? {
        forall i, w | 0 <= i < |v.elems| && Within(w, v.elems[i]) ensures w != Null && !Date(w) && !w.Object? { assert Within(w, v); }
      }
    }
  }

  /** The TOML encoder takes a value under a key exactly when TOML can hold it there. */
  lemma {:induction false} TomlTakesIff(v: Value)
    ensures EncodableEntry(Toml, v) <==> TomlCan(v)
    decreases v
  {
    assert Within(v, v);
    match v
    case List(elems) => TomlTakesList(v);
    case Object(fields) =>
      forall k | k in fields ensures KeyedToml(fields[k]) <==> TomlCan(fields[k]) { TomlTakesIff(fields[k]); }
      if TomlCan(v) {
        forall k | k in fields ensures TomlCan(fields[k]) { TomlCanBelow(v, fields[k]); }
      }
    case _ =>
  }

  lemma {:induction false} TomlCanBelow(v: Value, w: Value)
    requires TomlCan(v) && ((v.List? && w in v.elems) || (v.Object? && w in v.fields.Values))
    ensures TomlCan(w)
  {
    assert Within(w, w) && Within(w, v);
    forall u | Within(u, w) ensures u != Null && !Date(u) && (u.List? && HasTable(u) ==> TablesOnly(u)) { WithinTrans(u, w, v); }
  }

  lemma {:induction false} TomlTakesList(v: Value)
    requires v.List?
    ensures KeyedToml(v) <==> TomlCan(v)
    decreases v, 0
  {
    assert Within(v, v);
    InlineIff(v);
    if HasTable(v) {
      var t: Value :| t.Object? && Within(t, v);
      assert !InlineToml(v) && v.elems != [];
      forall i | 0 <= i < |v.elems| ensures KeyedToml(v.elems[i]) <==> TomlCan(v.elems[i]) { TomlTakesIff(v.elems[i]); }
      if TomlCan(v) {
        forall i | 0 <= i < |v.elems| ensures TomlCan(v.elems[i]) { TomlCanBelow(v, v.elems[i]); }
      }
    } else {
      NoTableBelow(v);
    }
  }

  lemma {:induction false} NoTableBelow(v: Value)
    requires v.List? && !HasTable(v)
    ensures KeyedToml(v) <==> InlineToml(v)
    ensures TomlCan(v) <==> InlineToml(v)
  {
    InlineIff(v);
    forall i | 0 <= i < |v.elems| ensures !v.elems[i].Object? {
      assert Within(v.elems[i], v.elems[i]);
      assert Within(v.elems[i], v);
    }
    forall w | Within(w, v) ensures !w.Object? && !HasTable(w) {
      if HasTable(w) {
        var t: Value :| t.Object? && Within(t, w);
        WithinTrans(t, w, v);
      }
    }
  }

  /** JSON takes anything, YAML anything without a date. */
  lemma {:induction false} OthersTakeIff(v: Value)
    ensures EncodableEntry(Json, v)
    ensures EncodableEntry(Yaml, v) <==> forall w :: Within(w, v) ==> !Date(w)
    decreases v
  {
    assert Within(v, v);
    match v
    case List(elems) =>
      forall i | 0 <= i < |elems| ensures NoMoment(elems[i]) <==> forall w :: Within(w, elems[i]) ==> !Date(w) { OthersTakeIff(elems[i]); }
      if forall w :: Within(w, v) ==> !Date(w) {
        forall i, w | 0 <= i < |elems| && Within(w, elems[i]) ensures !Date(w) { assert Within(w, v); }
      }
    case Object(fields) =>
      forall k | k in fields ensures NoMoment(fields[k]) <==> forall w :: Within(w, fields[k]) ==> !Date(w) { OthersTakeIff(fields[k]); }
      if forall w :: Within(w, v) ==> !Date(w) {
        forall k, w | k in fields && Within(w, fields[k]) ensures !Date(w) { assert Within(w, v); }
      }
    case _ =>
  }

  /** A TOML document is a table: managed's own scalar or list can never be written as one. */
  lemma {:induction false} TomlNeedsTable(l: Layers, overlay: Value, literalNulls: Table)
    requires l.surface.codec == Toml && l.surface.managed != Null && !l.surface.managed.Object?
    ensures ComposeSpec(l, overlay, literalNulls).Err?
  {
    if Refusal(l, overlay).None? {
      assert overlay in LowerLayers(l) + [overlay, l.computed] && l.computed in LowerLayers(l) + [overlay, l.computed];
      EnforcedIsSome(l, overlay);
    }
  }

  // ---------------------------------------------------------------- what a decoder gives

  /** Which kinds of scalar a file of the format has. */
  predicate Native(c: Codec, s: Scalar) {
    || s.Text? || s.Flag? || s.Decimal?
    || (c == Yaml && s.Machine?)
    || (c == Toml && (s.Whole? || s.Moment?))
  }

  ghost predicate AllNative(c: Codec, v: Value) {
    forall w :: Within(w, v) ==> (w.Leaf? ==> Native(c, w.scalar)) && (w == Null ==> c != Toml)
  }

  lemma {:induction false} LegibleIff(c: Codec, v: Value)
    ensures Legible(c, v) <==> AllNative(c, v)
    decreases v
  {
    assert Within(v, v);
    match v
    case List(elems) =>
      forall i | 0 <= i < |elems| ensures Legible(c, elems[i]) <==> AllNative(c, elems[i]) { LegibleIff(c, elems[i]); }
      if AllNative(c, v) {
        forall i, w | 0 <= i < |elems| && Within(w, elems[i]) ensures (w.Leaf? ==> Native(c, w.scalar)) && (w == Null ==> c != Toml) { assert Within(w, v); }
      }
    case Object(fields) =>
      forall k | k in fields ensures Legible(c, fields[k]) <==> AllNative(c, fields[k]) { LegibleIff(c, fields[k]); }
      if AllNative(c, v) {
        forall k, w | k in fields && Within(w, fields[k]) ensures (w.Leaf? ==> Native(c, w.scalar)) && (w == Null ==> c != Toml) { assert Within(w, v); }
      }
    case _ =>
  }

  // ---------------------------------------------------------------- the repair, by the one value it knows

  /** The repair drops one entry at most: the theme pi cannot load, from pi's settings, once their declared default
      is another. */
  lemma {:induction false} RepairIs(s: Surface, overlay: Table)
    ensures RepairSpec(s, overlay) ==
              if s.agent == "pi" && s.name == "settings" && At(overlay, "theme") == Some(Leaf(Text("system")))
                 && s.defaults.Object? && "theme" in s.defaults.fields && s.defaults.fields["theme"] != Leaf(Text("system"))
              then overlay - {"theme"} else overlay
  {
    var theme := RejectedValue("pi", "settings", "theme", Leaf(Text("system")));
    assert REJECTED_VALUES == [theme];
    forall k | k in overlay ensures Rejects(s, k, overlay[k]) <==> Applies(theme, s) && k == "theme" && overlay[k] == theme.value {
      assert theme in REJECTED_VALUES;
    }
    forall k ensures At(RepairSpec(s, overlay), k) == At(if Applies(theme, s) && At(overlay, "theme") == Some(theme.value) then overlay - {"theme"} else overlay, k) {}
    SameTable(RepairSpec(s, overlay), if Applies(theme, s) && At(overlay, "theme") == Some(theme.value) then overlay - {"theme"} else overlay);
  }

  // ---------------------------------------------------------------- what a boot reports

  /** A last render is trusted when it holds a table its format can hold. */
  ghost predicate Trusted(l: Layers, f: FileContent) {
    f.Holds? && f.value.Object? && AllNative(l.surface.codec, f.value)
  }

  /** A boot is a first migration exactly when it finds no last render it can trust; it then renders the layers alone
      exactly when it finds a file it can read, to tell that file's own entries from theirs. */
  lemma {:induction false} BootReports(l: Layers, disk: Disk)
    requires BootSpec(l, disk).Ok?
    ensures var boot := BootSpec(l, disk).value;
            && (boot.firstMigration <==> !Trusted(l, disk.lastRender))
            && (boot.pure.Some? <==> !Trusted(l, disk.lastRender) && Trusted(l, disk.file))
            && (boot.pure.Some? ==> ComposeSpec(l, Null, map[]) == Ok(boot.pure.value))
  {
    if disk.lastRender.Holds? { LegibleIff(l.surface.codec, disk.lastRender.value); }
    if disk.file.Holds? { LegibleIff(l.surface.codec, disk.file.value); }
  }

  /** What a boot leaves on disk: the file and the last render alike, and every overlay entry, nulls and all. */
  lemma {:induction false} BootPersists(l: Layers, boot: Boot, k: string)
    ensures Persist(l, boot).file == Persist(l, boot).lastRender
    ensures boot.config.Object? && (l.surface.codec != Toml || boot.config.fields != map[]) ==>
              Persist(l, boot).file == Holds(Reread(l.surface.codec, boot.config))
    ensures l.surface.codec == Toml && boot.config == Object(map[]) ==> Persist(l, boot).file == Blank
    ensures var sidecar := Persist(l, boot).overlay;
            sidecar.Holds? && sidecar.value.Object? && At(sidecar.value.fields, k) == RereadAt(Json, At(boot.overlay, k))
  {}
}
