/** Which layer a config's leaf comes from: the precedence of internal/agentcfg/compose.go, path by path, in
    terms of the layers as they are handed in. */
module Precedence {
  import opened Values
  import opened Engine
  import opened Enforce
  import opened LiteralNull
  import opened Narrow
  import opened Reading
  import opened Writing
  import opened Compose

  // ---------------------------------------------------------------- one merge at a path

  /** A leaf of the patch is the result's, a null removes, and a path the patch is silent at is the target's. */
  lemma {:induction false} MergeAtPath(t: Option<Value>, p: Option<Value>, path: Path)
    ensures IsLeaf(Lookup(p, path)) ==> Lookup(MergeAt(t, p), path) == if Lookup(p, path) == Some(Null) then None else Lookup(p, path)
    ensures !Speaks(p, path) ==> Lookup(MergeAt(t, p), path) == Lookup(t, path)
    decreases |path|
  {
    if path != [] {
      if IsObject(p) {
        MergeChild(t, p, path[0]);
        MergeAtPath(Child(t, path[0]), Child(p, path[0]), path[1..]);
      } else {
        AbsentBelow(p, path);
      }
    }
  }

  /** A layer that does not say anything at or above a path. */
  ghost predicate Silent(layer: Value, path: Path) {
    !Speaks(Present(layer), path)
  }

  /** What a layer holds at a path, when it is a value and no table. */
  ghost predicate Says(layer: Value, path: Path, v: Value) {
    !v.Object? && Lookup(Present(layer), path) == Some(v)
  }

  /** What the fold of some layers holds at a path. */
  ghost function FoldedAt(layers: seq<Value>, path: Path): Option<Value> {
    Lookup(Some(Object(Fold(Tables(layers)))), path)
  }

  lemma {:induction false} FoldOneMore(before: seq<Value>, last: Value, path: Path)
    requires Foldable(last)
    ensures Silent(last, path) ==> FoldedAt(before + [last], path) == FoldedAt(before, path)
    ensures forall v :: Says(last, path, v) ==> FoldedAt(before + [last], path) == if v.Null? then None else Some(v)
  {
    TablesAppend(before, [last]);
    assert Tables([last]) == if last.Object? then [last.fields] else [];
    if last.Object? {
      FoldOnto(Tables(before), last.fields);
      MergeAtPath(Some(Object(Fold(Tables(before)))), Some(last), path);
    } else {
      assert Tables(before) + [] == Tables(before);
      if path != [] { AbsentBelow(None, path); }
    }
  }

  /** The last of some layers to speak at a path says what their fold holds there. */
  lemma {:induction false} FoldAtPath(layers: seq<Value>, path: Path, i: nat, v: Value)
    requires path != [] && i < |layers| && forall j :: 0 <= j < |layers| ==> Foldable(layers[j])
    requires Says(layers[i], path, v) && forall j :: i < j < |layers| ==> Silent(layers[j], path)
    ensures FoldedAt(layers, path) == if v.Null? then None else Some(v)
    decreases |layers|
  {
    var n := |layers| - 1;
    assert layers[..n] + [layers[n]] == layers;
    FoldOneMore(layers[..n], layers[n], path);
    if i < n { FoldAtPath(layers[..n], path, i, v); }
  }

  /** If none speaks, nothing is there. */
  lemma {:induction false} FoldSilent(layers: seq<Value>, path: Path)
    requires path != [] && forall j :: 0 <= j < |layers| ==> Foldable(layers[j]) && Silent(layers[j], path)
    ensures FoldedAt(layers, path).None?
    decreases |layers|
  {
    if layers == [] {
      assert Fold(Tables([])) == map[] && Child(Some(Object(map[])), path[0]) == None;
      if |path| > 1 { AbsentBelow(None, path[1..]); }
      assert Lookup(Some(Object(map[])), path) == Lookup(None, path[1..]);
    } else {
      var n := |layers| - 1;
      assert layers[..n] + [layers[n]] == layers;
      FoldOneMore(layers[..n], layers[n], path);
      FoldSilent(layers[..n], path);
    }
  }

  // ---------------------------------------------------------------- a whole config at a path

  /** No mark at the path, above it or beneath it. */
  ghost predicate Unmarked(literalNulls: Table, path: Path) {
    forall h :: IsLeaf(Lookup(Marks(literalNulls), h)) ==> !Comparable(h, path)
  }

  /** Where managed is silent and nothing is marked, the config holds what the fold does. */
  lemma {:induction false} ConfigAtPath(l: Layers, overlay: Value, literalNulls: Table, path: Path)
    requires Foldable(overlay) && Foldable(l.computed)
    requires Silent(l.surface.managed, path) && Unmarked(literalNulls, path)
    ensures Lookup(Some(ConfigOf(l, overlay, literalNulls)), path)
         == Lookup(Some(Object(Fold(Tables(LowerLayers(l) + [overlay, l.computed])))), path)
  {
    var merged := Some(Object(Fold(Tables(LowerLayers(l) + [overlay, l.computed]))));
    var m, mark, held := Present(l.surface.managed), Marks(literalNulls), Objects(Outranking(l));
    FoldWithOverlay(l, overlay);
    FloorHolds(merged, m, path);
    TomlFloorHolds(merged, m, path);
    EnforcedIsSome(l, overlay);
    OnlyHonouredMarksMove(Enforced(l, overlay), mark, held, path);
    SomeReinstated(Enforced(l, overlay), mark, held);
  }

  lemma {:induction false} SomeReinstated(cur: Option<Value>, mark: Option<Value>, held: seq<Value>)
    requires cur.Some?
    ensures ReinstateAt(cur, mark, held).Some?
  {}

  /** Every layer of a composition is a table or says nothing, the host file's included. */
  ghost predicate Composable(l: Layers, overlay: Value) {
    && Foldable(l.surface.defaults) && Foldable(Host(l)) && Foldable(l.workspace) && Foldable(overlay) && Foldable(l.computed)
    && forall i :: 0 <= i < |l.overlays| ==> Foldable(l.overlays[i])
  }

  /** The host file as a layer: what it decoded to, or nothing. */
  ghost function Host(l: Layers): Value {
    match l.host
    case Decoded(value) => value
    case _ => Null
  }

  ghost predicate OverlaysSilent(l: Layers, from: nat, path: Path) {
    forall j :: from <= j < |l.overlays| ==> Silent(l.overlays[j], path)
  }

  /** What a layer that says v comes to in a config: a null deletes. */
  ghost function Said(v: Value): Option<Value> {
    if v.Null? then None else Some(v)
  }

  lemma {:induction false} LayerAtPath(l: Layers, overlay: Value, literalNulls: Table, path: Path, i: nat, v: Value)
    requires Composable(l, overlay) && path != []
    requires Silent(l.surface.managed, path) && Unmarked(literalNulls, path)
    requires var all := [l.surface.defaults, Host(l), l.workspace] + l.overlays + [overlay, l.computed];
             i < |all| && Says(all[i], path, v) && forall j :: i < j < |all| ==> Silent(all[j], path)
    ensures Lookup(Some(ConfigOf(l, overlay, literalNulls)), path) == Said(v)
  {
    var all := [l.surface.defaults, Host(l), l.workspace] + l.overlays + [overlay, l.computed];
    assert all == LowerLayers(l) + [overlay, l.computed];
    forall j | 0 <= j < |all| ensures Foldable(all[j]) {
      assert 3 <= j < 3 + |l.overlays| ==> all[j] == l.overlays[j - 3];
    }
    FoldAtPath(all, path, i, v);
    ConfigAtPath(l, overlay, literalNulls, path);
  }

  /** The precedence of the layers, lowest first: defaults, host, workspace, each config overlay over the ones
      before it, the capture overlay, computed. A value a layer holds at a path, when it is no table, is what
      the config holds there, and a null it holds deletes there, if no layer above it speaks at the path,
      managed is silent, and the file's literal nulls have no part in it. */
  lemma {:induction false} LayerPrecedence(l: Layers, overlay: Value, literalNulls: Table, path: Path, v: Value)
    requires Composable(l, overlay) && path != []
    requires Silent(l.surface.managed, path) && Unmarked(literalNulls, path)
    ensures Says(l.computed, path, v) ==> Lookup(Some(ConfigOf(l, overlay, literalNulls)), path) == Said(v)
    ensures Says(overlay, path, v) && Silent(l.computed, path) ==> Lookup(Some(ConfigOf(l, overlay, literalNulls)), path) == Said(v)
    ensures forall i :: 0 <= i < |l.overlays| && Says(l.overlays[i], path, v) && OverlaysSilent(l, i + 1, path)
                        && Silent(overlay, path) && Silent(l.computed, path) ==>
              Lookup(Some(ConfigOf(l, overlay, literalNulls)), path) == Said(v)
    ensures Says(l.workspace, path, v) && OverlaysSilent(l, 0, path) && Silent(overlay, path) && Silent(l.computed, path) ==>
              Lookup(Some(ConfigOf(l, overlay, literalNulls)), path) == Said(v)
    ensures Says(Host(l), path, v) && Silent(l.workspace, path) && OverlaysSilent(l, 0, path) && Silent(overlay, path)
            && Silent(l.computed, path) ==>
              Lookup(Some(ConfigOf(l, overlay, literalNulls)), path) == Said(v)
    ensures Says(l.surface.defaults, path, v) && Silent(Host(l), path) && Silent(l.workspace, path) && OverlaysSilent(l, 0, path)
            && Silent(overlay, path) && Silent(l.computed, path) ==>
              Lookup(Some(ConfigOf(l, overlay, literalNulls)), path) == Said(v)
  {
    var n := |l.overlays|;
    var all := [l.surface.defaults, Host(l), l.workspace] + l.overlays + [overlay, l.computed];
    assert all[0] == l.surface.defaults && all[1] == Host(l) && all[2] == l.workspace && all[n + 3] == overlay && all[n + 4] == l.computed;
    assert forall j :: 0 <= j < n ==> all[j + 3] == l.overlays[j];
    forall i | 0 <= i < n + 5 && Says(all[i], path, v) && SilentAbove(l, overlay, i, path)
      ensures Lookup(Some(ConfigOf(l, overlay, literalNulls)), path) == Said(v)
    {
      LayersAbove(l, overlay, i, path);
      LayerAtPath(l, overlay, literalNulls, path, i, v);
    }
    forall i | 0 <= i < n && Says(l.overlays[i], path, v) && OverlaysSilent(l, i + 1, path) && Silent(overlay, path) && Silent(l.computed, path)
      ensures Lookup(Some(ConfigOf(l, overlay, literalNulls)), path) == Said(v)
    {
      assert Says(all[i + 3], path, v) && SilentAbove(l, overlay, i + 3, path);
    }
    assert Says(all[n + 4], path, v) ==> SilentAbove(l, overlay, n + 4, path);
    assert Says(all[n + 3], path, v) && Silent(l.computed, path) ==> SilentAbove(l, overlay, n + 3, path);
  }

  /** The layers above the i-th, named one by one. */
  ghost predicate SilentAbove(l: Layers, overlay: Value, i: nat, path: Path) {
    && (i < 1 ==> Silent(Host(l), path))
    && (i < 2 ==> Silent(l.workspace, path))
    && OverlaysSilent(l, if i < 3 then 0 else i - 2, path)
    && (i < |l.overlays| + 3 ==> Silent(overlay, path))
    && (i < |l.overlays| + 4 ==> Silent(l.computed, path))
  }

  lemma {:induction false} LayersAbove(l: Layers, overlay: Value, i: nat, path: Path)
    requires SilentAbove(l, overlay, i, path)
    ensures var all := [l.surface.defaults, Host(l), l.workspace] + l.overlays + [overlay, l.computed];
            forall j :: i < j < |all| ==> Silent(all[j], path)
  {
    var n := |l.overlays|;
    var all := [l.surface.defaults, Host(l), l.workspace] + l.overlays + [overlay, l.computed];
    forall j | i < j < |all| ensures Silent(all[j], path) {
      if 3 <= j < n + 3 {
        assert all[j] == l.overlays[j - 3];
      } else {
        assert all[1] == Host(l) && all[2] == l.workspace && all[n + 3] == overlay && all[n + 4] == l.computed;
      }
    }
  }

  /** A path no layer speaks at, and that is not marked, is not in the config. */
  lemma {:induction false} NothingUnsaid(l: Layers, overlay: Value, literalNulls: Table, path: Path)
    requires Composable(l, overlay) && path != []
    requires Silent(l.surface.managed, path) && Unmarked(literalNulls, path)
    requires Silent(l.surface.defaults, path) && SilentAbove(l, overlay, 0, path)
    ensures Lookup(Some(ConfigOf(l, overlay, literalNulls)), path).None?
  {
    var all := [l.surface.defaults, Host(l), l.workspace] + l.overlays + [overlay, l.computed];
    assert all == LowerLayers(l) + [overlay, l.computed];
    LayersAbove(l, overlay, 0, path);
    assert all[0] == l.surface.defaults;
    forall j | 0 <= j < |all| ensures Foldable(all[j]) && Silent(all[j], path) {
      assert 3 <= j < 3 + |l.overlays| ==> all[j] == l.overlays[j - 3];
    }
    FoldSilent(all, path);
    ConfigAtPath(l, overlay, literalNulls, path);
  }

  /** Managed is over them all: its leaf is the config's, whatever any layer holds and whatever is marked. On
      TOML its null deletes instead. */
  lemma {:induction false} ManagedPrecedence(l: Layers, overlay: Value, literalNulls: Table, path: Path, v: Value)
    requires Foldable(overlay) && Foldable(l.computed) && Says(l.surface.managed, path, v)
    ensures Lookup(Some(ConfigOf(l, overlay, literalNulls)), path)
         == if l.surface.codec == Toml then Said(v) else Some(v)
  {
    var merged := MergeAt(MergeAt(Some(Object(Lower(l))), Present(overlay)), Present(l.computed));
    FloorHolds(merged, Present(l.surface.managed), path);
    TomlFloorHolds(merged, Present(l.surface.managed), path);
    EnforcedIsSome(l, overlay);
    if l.surface.managed.Object? {
      OutrankingIs(l);
      assert l.surface.managed.fields in Outranking(l);
      MarkYields(l, overlay, literalNulls, l.surface.managed.fields, path);
    } else if path != [] {
      AbsentBelow(Present(l.surface.managed), path);
    }
  }

  lemma {:induction false} MarkYields(l: Layers, overlay: Value, literalNulls: Table, layer: Table, path: Path)
    requires Foldable(overlay) && Foldable(l.computed) && layer in Outranking(l) && IsLeaf(Lookup(Some(Object(layer)), path))
    ensures Lookup(Some(ConfigOf(l, overlay, literalNulls)), path) == Lookup(Enforced(l, overlay), path)
  {
    var held := Objects(Outranking(l));
    var i :| 0 <= i < |Outranking(l)| && Outranking(l)[i] == layer;
    assert held[i] == Object(layer);
    EnforcedIsSome(l, overlay);
    SettledPathsStand(Enforced(l, overlay), Marks(literalNulls), held, Object(layer), path, path);
    SomeReinstated(Enforced(l, overlay), Marks(literalNulls), held);
  }

  /** A literal null of the file does not move what computed holds at the path. */
  lemma {:induction false} ComputedOverMarks(l: Layers, overlay: Value, literalNulls: Table, path: Path, v: Value)
    requires Composable(l, overlay) && path != [] && Silent(l.surface.managed, path) && Says(l.computed, path, v)
    ensures Lookup(Some(ConfigOf(l, overlay, literalNulls)), path) == Said(v)
  {
    AbsentBelow(None, path);
    forall h ensures IsLeaf(Lookup(Marks(map[]), h)) ==> false { NoMarks(h); }
    LayerPrecedence(l, overlay, map[], path, v);
    OutrankingIs(l);
    assert l.computed.fields in Outranking(l);
    MarkYields(l, overlay, literalNulls, l.computed.fields, path);
    MarkYields(l, overlay, map[], l.computed.fields, path);
  }

  lemma {:induction false} NoMarks(h: Path)
    ensures Lookup(Marks(map[]), h).None?
  {
    if h != [] { AbsentBelow(None, h); }
  }

  /** But it outranks the capture overlay and everything below: where neither computed nor managed speaks at a
      marked path, and the way to it is through tables or nothing, the config holds the null. */
  lemma {:induction false} MarkOverLowerLayers(l: Layers, overlay: Value, literalNulls: Table, path: Path)
    requires Composable(l, overlay) && Foldable(l.surface.managed)
    requires Lookup(Some(Object(literalNulls)), path) == Some(Null)
    requires Silent(l.computed, path) && Silent(l.surface.managed, path)
    requires Reachable(Some(ConfigOf(l, overlay, map[])), path)
    ensures Lookup(Some(ConfigOf(l, overlay, literalNulls)), path) == Some(Null)
  {
    var held := Objects(Outranking(l));
    EnforcedIsSome(l, overlay);
    OutrankingIs(l);
    assert path != [];
    if |path| > 1 { AbsentBelow(None, path[1..]); }
    assert path[0] in literalNulls && Marks(literalNulls) == Some(Object(literalNulls));
    assert Enforced(l, overlay) == Some(ConfigOf(l, overlay, map[]));
    forall o | o in held ensures !Speaks(Some(o), path) {
      var i :| 0 <= i < |held| && held[i] == o;
      assert o == Object(Outranking(l)[i]);
    }
    HonouredIsNull(Enforced(l, overlay), Marks(literalNulls), held, path);
    SomeReinstated(Enforced(l, overlay), Marks(literalNulls), held);
  }

  // ---------------------------------------------------------------- what is refused

  /** A composition is refused exactly when the host file does not decode, or some layer below managed, the host
      file's included, is neither a table nor absent. */
  lemma {:induction false} RefusedIff(l: Layers, overlay: Value)
    ensures Refusal(l, overlay).None? <==>
              !l.host.Undecodable? && (l.host.Decoded? ==> l.host.value.Object?) && Composable(l, overlay)
  {
    var all := [l.surface.defaults, Host(l), l.workspace] + l.overlays + [overlay, l.computed];
    assert all == LowerLayers(l) + [overlay, l.computed];
    assert all[0] == l.surface.defaults && all[1] == Host(l) && all[2] == l.workspace;
    assert all[|l.overlays| + 3] == overlay && all[|l.overlays| + 4] == l.computed;
    assert forall i :: 0 <= i < |l.overlays| ==> all[i + 3] == l.overlays[i];
    if Composable(l, overlay) {
      forall v | v in all ensures Foldable(v) {
        var j :| 0 <= j < |all| && all[j] == v;
        assert 3 <= j < 3 + |l.overlays| ==> v == l.overlays[j - 3];
      }
    }
  }
}
