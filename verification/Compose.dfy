/** internal/agentcfg/compose.go, object surfaces: fold the layers, enforce managed, put the literal
    nulls back. Provenance and the codecs' bytes are not modelled. */
module Compose {
  import opened Values
  import opened Engine
  import opened Enforce
  import opened LiteralNull
  import opened Narrow
  import opened Reading
  import opened Writing

  datatype Result<+T, +E> = Ok(value: T) | Err(error: E)

  datatype Surface = Surface(agent: string, name: string, codec: Codec, defaults: Value, managed: Value)

  datatype HostFile = NoHostFile | Undecodable | Decoded(value: Value)

  /** Everything below and above the capture overlay. A layer that says nothing is null. */
  datatype Layers = Layers(surface: Surface, host: HostFile, workspace: Value, overlays: seq<Value>, computed: Value)

  datatype ComposeError = HostUndecodable | HostNotObject | LayerNotObject(layer: Value) | NotEncodable

  function IsToml(l: Layers): bool {
    l.surface.codec == Toml
  }

  function HostLayer(l: Layers): Value {
    if l.host.Decoded? then l.host.value else Null
  }

  function LowerLayers(l: Layers): seq<Value> {
    [l.surface.defaults, HostLayer(l), l.workspace] + l.overlays
  }

  predicate Foldable(layer: Value) {
    layer.Null? || layer.Object?
  }

  function FirstUnfoldable(layers: seq<Value>): (bad: Option<Value>)
    ensures bad.None? <==> forall v :: v in layers ==> Foldable(v)
  {
    if layers == [] then None
    else if !Foldable(layers[0]) then Some(layers[0])
    else FirstUnfoldable(layers[1..])
  }

  /** The layers that outrank the capture overlay, and so may overrule a literal null of the file. */
  function Outranking(l: Layers): seq<Table> {
    Tables([l.computed, l.surface.managed])
  }

  /** Why these layers are not folded, if they are not. */
  function Refusal(l: Layers, overlay: Value): Option<ComposeError> {
    if l.host.Undecodable? then Some(HostUndecodable)
    else if l.host.Decoded? && !l.host.value.Object? then Some(HostNotObject)
    else
      var bad := FirstUnfoldable(LowerLayers(l) + [overlay, l.computed]);
      if bad.Some? then Some(LayerNotObject(bad.value)) else None
  }

  /** The lower layers folded: what the capture overlay lands on. */
  function Lower(l: Layers): Table {
    Fold(Tables(LowerLayers(l)))
  }

  /** The config with the floor enforced, before literal nulls. */
  function Enforced(l: Layers, overlay: Value): Option<Value> {
    RenderAt(IsToml(l), Some(Object(Lower(l))), Present(overlay), Present(l.computed), Present(l.surface.managed))
  }

  function Marks(literalNulls: Table): Option<Value> {
    if literalNulls == map[] then None else Some(Object(literalNulls))
  }

  /** The composed config: the enforced value with the marked nulls no outranking layer speaks for. */
  function ConfigOf(l: Layers, overlay: Value, literalNulls: Table): Value
    requires Foldable(l.computed) && Foldable(overlay)
  {
    EnforcedIsSome(l, overlay);
    ReinstateAt(Enforced(l, overlay), Marks(literalNulls), Objects(Outranking(l))).value
  }

  lemma {:induction false} EnforcedIsSome(l: Layers, overlay: Value)
    requires Foldable(l.computed) && Foldable(overlay)
    ensures Enforced(l, overlay).Some?
    ensures Foldable(l.surface.managed) ==> IsObject(Enforced(l, overlay))
    ensures !Foldable(l.surface.managed) ==> Enforced(l, overlay) == Some(l.surface.managed)
  {}

  function ComposeSpec(l: Layers, overlay: Value, literalNulls: Table): Result<Value, ComposeError> {
    var refusal := Refusal(l, overlay);
    if refusal.Some? then Err(refusal.value)
    else
      assert overlay in LowerLayers(l) + [overlay, l.computed];
      assert l.computed in LowerLayers(l) + [overlay, l.computed];
      if Writes(l, overlay, literalNulls) then Ok(ConfigOf(l, overlay, literalNulls)) else Err(NotEncodable)
  }

  /** The surface's encoder takes what the layers compose to. */
  predicate Writes(l: Layers, overlay: Value, literalNulls: Table)
    requires Foldable(l.computed) && Foldable(overlay)
  {
    Encodable(l.surface.codec, ConfigOf(l, overlay, literalNulls))
  }

  lemma {:induction false} FoldOnto(layers: seq<Table>, last: Table)
    ensures Fold(layers + [last]) == Merge(Fold(layers), last)
  {
    assert (layers + [last])[..|layers|] == layers;
  }

  lemma {:induction false} FoldWithOverlay(l: Layers, overlay: Value)
    requires Foldable(overlay) && Foldable(l.computed)
    ensures Some(Object(Fold(Tables(LowerLayers(l) + [overlay, l.computed]))))
         == MergeAt(MergeAt(Some(Object(Lower(l))), Present(overlay)), Present(l.computed))
  {
    var low := LowerLayers(l);
    assert low + [overlay, l.computed] == (low + [overlay]) + [l.computed];
    TablesAppend(low + [overlay], [l.computed]);
    TablesAppend(low, [overlay]);
    assert Tables([overlay]) == if overlay.Object? then [overlay.fields] else [];
    assert Tables([l.computed]) == if l.computed.Object? then [l.computed.fields] else [];
    if overlay.Object? { FoldOnto(Tables(low), overlay.fields); }
    var two := Tables(low + [overlay]);
    assert !overlay.Object? ==> two == Tables(low);
    assert !l.computed.Object? ==> Tables(low + [overlay, l.computed]) == two;
    if l.computed.Object? { FoldOnto(two, l.computed.fields); }
  }

  /** The layers that say something, in fold order, or the first of the wrong shape. */
  method CollectLayers(layers: seq<Value>) returns (ordered: seq<Table>, bad: Option<Value>)
    ensures bad == FirstUnfoldable(layers)
    ensures bad.None? ==> ordered == Tables(layers)
  {
    ordered := [];
    assert layers[..0] == [];
    for i := 0 to |layers|
      invariant ordered == Tables(layers[..i])
      invariant FirstUnfoldable(layers) == FirstUnfoldable(layers[i..])
    {
      assert layers[i..][0] == layers[i] && layers[i..][1..] == layers[i + 1..];
      if !Foldable(layers[i]) {
        return ordered, Some(layers[i]);
      }
      assert layers[..i + 1] == layers[..i] + [layers[i]];
      TablesAppend(layers[..i], [layers[i]]);
      if layers[i].Object? { ordered := ordered + [layers[i].fields]; }
    }
    assert layers[..|layers|] == layers;
    bad := None;
  }

  /** Enforce managed over the merged config, then put the literal nulls back, in place. */
  method Finish(l: Layers, overlay: Value, merged: Table, literalNulls: Table) returns (config: Value)
    requires Foldable(overlay) && Foldable(l.computed)
    requires Some(Object(merged)) == MergeAt(MergeAt(Some(Object(Lower(l))), Present(overlay)), Present(l.computed))
    ensures config == ConfigOf(l, overlay, literalNulls)
  {
    var cfg := new ConfigMap(merged);
    EnforcedIsSome(l, overlay);
    if l.surface.codec.Toml? && l.surface.managed.Object? {
      cfg.EnforceManagedTOML(l.surface.managed.fields);
    } else {
      var replaced := cfg.EnforceManaged(l.surface.managed);
      if replaced.Some? {
        return replaced.value;
      }
    }
    ghost var enforced := cfg.fields;
    assert Some(Object(enforced)) == Enforced(l, overlay);
    if literalNulls != map[] {
      var evidence: seq<Table> := if l.computed.Object? then [l.computed.fields] else [];
      if l.surface.managed.Object? { evidence := evidence + [l.surface.managed.fields]; }
      OutrankingIs(l);
      var _ := ReinstateLiteralNulls(cfg, literalNulls, evidence);
      TablesOfObjects(evidence);
      ReinstateChild(Some(Object(enforced)), Some(Object(literalNulls)), Objects(evidence), "");
    }
    config := Object(cfg.fields);
  }

  lemma {:induction false} OutrankingIs(l: Layers)
    ensures Outranking(l) == (if l.computed.Object? then [l.computed.fields] else [])
                           + (if l.surface.managed.Object? then [l.surface.managed.fields] else [])
  {
    TablesAppend([l.computed], [l.surface.managed]);
    assert [l.computed] + [l.surface.managed] == [l.computed, l.surface.managed];
  }

  /** Compose, for an object surface: decode, fold, enforce, reinstate, encode; refused whole on the
      first layer of the wrong shape, and on a config the codec cannot write. */
  method ComposeSurface(l: Layers, overlay: Value, literalNulls: Table) returns (r: Result<Value, ComposeError>)
    ensures r == ComposeSpec(l, overlay, literalNulls)
  {
    if l.host.Undecodable? { return Err(HostUndecodable); }
    if l.host.Decoded? && !l.host.value.Object? { return Err(HostNotObject); }
    var host := if l.host.Decoded? then l.host.value else Null;
    var layers := [l.surface.defaults, host, l.workspace] + l.overlays + [overlay, l.computed];
    assert layers == LowerLayers(l) + [overlay, l.computed];
    var ordered, bad := CollectLayers(layers);
    if bad.Some? { return Err(LayerNotObject(bad.value)); }
    assert overlay in layers && l.computed in layers;
    var merged := Render(ordered);
    FoldWithOverlay(l, overlay);
    var config := Finish(l, overlay, merged, literalNulls);
    EnforcedIsSome(l, overlay);
    if !Encodable(l.surface.codec, config) { return Err(NotEncodable); }
    r := Ok(config);
  }
}
