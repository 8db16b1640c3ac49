# The layered configuration engine, and five machines around it

A model in Dafny of how yolo regenerates an agent's configuration files on every boot, with proofs of what it
promises: edits survive, adoption loses nothing, narrowing and retirement do not show, and an unedited reboot
changes nothing. Around it stand five smaller state machines of the same program: the capture store with its
selection and collector, the delta mover, the AWS credential broker, the base-home walk, and the
environment and selection overlays.

## Reading order

- `Values`, `Engine`, `Enforce`, `LiteralNull`: an unbounded JSON-like value, and the fold (JSON Merge Patch, section 2
  of RFC 7386), diff, patch accumulation, the managed floor in its JSON and TOML forms, and the side channel for
  literal nulls. A value is read through `Option<Value>`, so that one law covers an absent key and a present one;
  the `...At` functions say what happens at one place, and each `...Child` lemma that they work key by key.
- `Reading`, `Writing`: the three formats, and that every pass commutes with reading a value back.
- `Formats`: what those two come to, in terms of the values alone.
- `Narrow`, `Compose`, `StateRender`: narrowing an overlay against its owners, one composition, one boot. Every
  method follows the loops of its Go function and is proved equal to a specification function; the laws are
  proved about those functions.
- `Precedence`: which layer a path of the config comes from. `Regenerated`: what adoption takes over under a key the
  computed layer holds. `Unread`: boots over a file that cannot be read.
- `BootRuns`, `Survival`: what holds from boot to boot, and over whole runs of boots and edits; `BootFails`: when a boot
  fails; `Witnesses`: boots at which a conditional promise fails.
- `Selection`, `AgentEnv`: the edge-triggered selection apply, and the environment overlay.
- `CaptureDelta`, `Relocate`, `CaptureStore`, `CaptureSelect`, `CaptureGc`: a capture from snapshot to collection. An act on
  the store is the list of disks its steps leave; stopping anywhere in the list is a crash.
- `Broker`: any number of concurrent calls, one atomic step at a time.
- `BaseHome`: classification, and the walk with its collapse rule; `BaseHomeRules`: both in terms of the declarations.

Codecs are modelled on values: a file is absent, blank, unreadable, or holds the value its text stands for. `Reading`
says what each format makes of a scalar that is written in it and read back, `Writing` what its decoder can give and its
encoder refuses. The overlay sidecar is written and read as JSON, whatever the surface's codec. The tree digest is an
arbitrary function. Clocks, mints and readers are oracles, passed in as parameters or as steps.

## What the proofs found

Each of these is a lemma, and none is repaired in the model.

- Merge patches compose only where objects meet objects (`Engine.AccumulateLawIff`). So an edit that puts an object where
  the stored overlay holds a tombstone, scalar or array can let keys of a lower layer through:
  `Survival.EditExact` says exactly when, and `Witnesses.EditBleeds` is a home it happens to.
- `dropOverriddenKeys` is described as the exact dual of the merge each owner gets. It is not where the overlay holds a
  scalar or array under an owner's object: the entry hid a lower layer's object, and dropping it shows that
  object again (`Narrow.ClashChangesRender`). On TOML an emptied table kept against an absent one is a second case.
  `Narrow.NarrowingInvisibleIff` gives the exact condition for both floors.
- The overlay sidecar is JSON on every surface, and JSON has one kind of number. A whole number captured from a TOML
  file comes back a decimal, and the next boot, with no edit between, writes `5.0` for `5`
  (`Witnesses.WholeNumberRespelled`). That and the next point are all that disturbs an unedited reboot
  (`BootRuns.Quiescence`); it happens once (`BootRuns.SettlesAtSecondBoot`), and never on JSON (`BootRuns.JsonQuiescence`).
  On YAML the number changes its Go type, and its text only from a million on. What survives a boot or a run survives up
  to the kinds of stored numbers, and to what a float64 holds of them, and the contracts say so.
- A TOML surface whose render is empty while its overlay is not (tombstones only) encodes to a blank file, which is no
  trusted baseline: the next boot adopts instead of capturing, and forgets the tombstones (`BootRuns.Quiescence`;
  `Witnesses.QuiescenceFails` is such a pair of boots).
- A file can make a boot fail, against the promise that a mangled home never does: the TOML decoder takes a list that mixes
  tables with other values, and a date, and the encoder refuses both (`Witnesses.UnwritableFileFails`).
  `BootFails.BootFailsIff` says exactly when a boot fails, `BootFails.NothingOnDiskFails` that no file of another format does it.
- Adoption loses a table that holds nothing but nulls where a layer holds a scalar or a list
  (`Survival.AdoptionPreservesIff`, `Witnesses.NullTableDropped`).
- A directory moved across mounts is copied, and the copy skips sockets and pipes before the source is removed: such
  a file ends in neither place. `CaptureDelta.InNeitherIff` says exactly which files, and `CaptureDelta.SocketIsLost`
  is a run that loses one.
- The exemption of a provisioned directory does not reach its parents: an empty one more than one level beneath a
  root is carried off with a collapsed parent (`BaseHome.ProvisionedCarriedIff`, and `BaseHome.CacheMountCarried` for a
  home). The declarations of `internal/basehome/decls.go` provision nothing that deep beneath a root, and what is at most
  one level beneath one stands (`BaseHome.ProvisionedNearRootStands`); the condition is latent until a deeper
  mountpoint is declared.

## Model

| member | source | states |
|---|---|---|
| `Engine.RoundTripIff` | internal/agentcfg/engine.go:142-204 | merging the diff of old and new into old gives new, for any two values at all, exactly when every null new holds under an object key is already carried at the same place by old |
| `Engine.RoundTripStripsNulls` | internal/agentcfg/engine.go:142-204 | over an old value with no null under a key at any depth, merging the diff gives new with its null-valued keys removed at every depth |
| `Engine.DiffEmptyIffEqual` | internal/agentcfg/engine.go:173-204 | there is no diff exactly when the two values are equal |
| `Engine.DiffOnlyNamesChanges` | internal/agentcfg/engine.go:142-204 | every path a diff speaks at is one where the two values really differ, so unchanged siblings never enter the overlay |
| `Engine.AccumulateLaw` | internal/agentcfg/engine.go:92-128 | accumulating two patches and merging once equals merging twice, over every base, when the later patch puts an object only where the earlier holds an object or nothing |
| `Engine.AccumulateLawFails` | internal/agentcfg/engine.go:92-128 | otherwise a base exists on which the two differ, constructed for every pair of patches that fails the condition |
| `Engine.AccumulateLawIff` | internal/agentcfg/engine.go:92-128 | the accumulation law holds over every base if and only if objects meet objects at every depth |
| `Engine.TombstonesPersist` | internal/agentcfg/engine.go:92-128 | a deletion in the later patch, or in the earlier one where the later says nothing, is still a deletion in the accumulated patch |
| `Engine.TombstoneDeletes` | internal/agentcfg/engine.go:63-90 | a path a patch holds a tombstone at is absent after the merge, whatever the base |
| `Engine.MergeNullFree` | internal/agentcfg/engine.go:63-90 | merging never puts a null under a key of a value that had none |
| `Engine.FoldNullFree` | internal/agentcfg/engine.go:134-140 | no fold of layers, whatever nulls they hold, leaves a null under a key |
| `Engine.MergeValue` | internal/agentcfg/engine.go:63-90 | the range loop over a patch computes the merge of the whole value, a null patch being the caller's deletion |
| `Engine.DeepMerge` | internal/agentcfg/engine.go:46-58 | two tables merged |
| `Engine.MergeAccumulate` | internal/agentcfg/engine.go:106-128 | the loop that keeps tombstones computes the accumulated patch, key by key |
| `Engine.Render` | internal/agentcfg/engine.go:134-140 | layers folded in order from the empty table |
| `Engine.DiffValue` | internal/agentcfg/engine.go:169-204 | the two loops compute the diff and say truthfully whether there is one |
| `Engine.MergeDiff` | internal/agentcfg/engine.go:163-167 | the diff of two tables, empty when nothing changed |
| `Enforce.FloorHolds` | internal/agentcfg/enforce.go:54-67 | on the JSON floor every leaf path managed names holds managed's value, a null included, and every path managed does not speak for is as it was |
| `Enforce.TomlFloorHolds` | internal/agentcfg/enforce.go:73-101 | the same for the TOML floor, where a managed null deletes instead |
| `Enforce.TomlFloorNullFree` | internal/agentcfg/enforce.go:73-101 | the TOML floor never writes a null |
| `Enforce.EnforceIsMergeIff` | internal/agentcfg/enforce.go:1-67 | the JSON floor is a merge patch for every config exactly when managed holds no null: where it departs from the merge, and nowhere else |
| `Enforce.ConfigMap.EnforceManaged` | internal/agentcfg/enforce.go:54-67 | the config map updated in place is the floor of what it was; a managed value that is not a table replaces the config outright |
| `Enforce.ConfigMap.EnforceManagedTOML` | internal/agentcfg/enforce.go:73-101 | the same in place for TOML: an existing table is kept even when emptied, an absent one appears only when something is left in it |
| `Enforce.EnforceValue` | internal/agentcfg/enforce.go:110-124 | the recursion beneath a key forces managed onto any current value |
| `LiteralNull.HonouredIsNull` | internal/agentcfg/literalnull.go:88-158 | a marked null whose path no higher layer settles and whose way there is open is null in the result |
| `LiteralNull.OnlyHonouredMarksMove` | internal/agentcfg/literalnull.go:88-158 | a path not comparable with any honoured mark is exactly as it was |
| `LiteralNull.SettledPathsStand` | internal/agentcfg/literalnull.go:75-158 | wherever a computed or managed layer holds a leaf, the path and everything beneath it stand unchanged, whatever is marked |
| `LiteralNull.FloorAndNulls` | internal/agentcfg/literalnull.go:88-193 | floor then reinstatement: managed leaves still hold, computed leaves are not altered, and every honoured mark is null |
| `LiteralNull.RenderedMarksSettle` | internal/agentcfg/literalnull.go:34-73 | marks read back from a rendered value reproduce that value: the side channel sustains itself across boots |
| `LiteralNull.RenderedMarksAgree` | internal/agentcfg/literalnull.go:34-158 | the marks read back from one render treat a second layer stack alike whenever the first marks did |
| `LiteralNull.MarksAreNulls` | internal/agentcfg/literalnull.go:57-73 | a path is marked exactly when the file holds a null there, and nothing else is a mark |
| `LiteralNull.LiteralNullSkeleton` | internal/agentcfg/literalnull.go:57-73 | the loop collects exactly the null paths of the table |
| `LiteralNull.LayersSpeakFor` | internal/agentcfg/literalnull.go:166-179 | whether any layer holds the key, and whether all that do hold objects |
| `LiteralNull.ChildLayers` | internal/agentcfg/literalnull.go:185-193 | the sub-tables the layers hold at the key, in layer order |
| `LiteralNull.ReinstateKey` | internal/agentcfg/literalnull.go:101-158 | one key put back and no other touched; it reports creation only when it made what was not there |
| `LiteralNull.ReinstateLiteralNulls` | internal/agentcfg/literalnull.go:88-96 | the config updated in place is the reinstatement of what it was, and the keys returned are exactly those newly claimed |
| `Narrow.NarrowingInvisibleIff` | internal/agentcfg/staterender.go:559-669 | over every stack of lower layers and for either floor, rendering the narrowed overlay equals rendering the overlay, if and only if no entry that narrowing drops would have hidden a lower layer (a clash) |
| `Narrow.NarrowingKeepsRender` | internal/agentcfg/staterender.go:559-669 | without a clash narrowing changes no render, value by value at any depth |
| `Narrow.ClashChangesRender` | internal/agentcfg/staterender.go:619-669 | for every clash a lower layer exists on which narrowing does change the render |
| `Narrow.NarrowIdempotent` | internal/agentcfg/staterender.go:597-617 | narrowing a narrowed overlay changes nothing |
| `Narrow.UnownedIffKept` | internal/agentcfg/staterender.go:637-669 | an entry survives dropping unchanged exactly when no owner outranks any leaf in it |
| `Narrow.AdoptionLaw` | internal/agentcfg/staterender.go:270-314 | merging the null-stripped diff into the pure render is merging the null-stripped file itself: nothing the file asserts is lost by adopting only the residue |
| `Narrow.AdoptedValueReturns` | internal/agentcfg/staterender.go:671-710 | a value adopted with its nulls dropped and marked comes back whole, nulls included |
| `Narrow.DropNullsIsNullFree` | internal/agentcfg/staterender.go:691-710 | what is adopted holds no tombstone |
| `Narrow.DropOverriddenKeys` | internal/agentcfg/staterender.go:637-669 | the loop drops exactly what the owner overrides and keeps unowned siblings inside tables |
| `Narrow.NarrowAgainst` | internal/agentcfg/staterender.go:605-617 | one owner's pass, empty tables standing for nothing |
| `Narrow.NarrowBoth` | internal/agentcfg/staterender.go:597-602 | computed's pass then managed's |
| `Narrow.DropNullLeaves` | internal/agentcfg/staterender.go:691-710 | the loop removes every null leaf, and tables the removal empties |
| `Narrow.DropComputedTables` | internal/agentcfg/staterender.go:542-557 | the loop keeps exactly the keys computed does not hold as non-empty tables |
| `Reading.JsonAfter` | internal/agentcfg/codec/codec.go:36-55 | whatever format a value was read back from before, JSON reads it as it would have read the value |
| `Reading.RereadMerge` | internal/agentcfg/engine.go:63-90 | reading back commutes with the merge, for every format |
| `Reading.RereadAccumulate` | internal/agentcfg/engine.go:106-128 | with patch accumulation |
| `Reading.RereadFloor` | internal/agentcfg/enforce.go:54-124 | with both managed floors |
| `Reading.RereadReinstate` | internal/agentcfg/literalnull.go:88-158 | with the reinstatement of literal nulls |
| `Reading.RereadSkeleton` | internal/agentcfg/literalnull.go:57-73 | and changes no mark |
| `Reading.RereadDropOwned` | internal/agentcfg/staterender.go:637-669 | with narrowing, which asks of an owner only its tables |
| `Reading.RereadDropNulls` | internal/agentcfg/staterender.go:691-710 | with the dropping of null leaves |
| `Writing.WrittenLegible` | internal/agentcfg/codec/codec.go:36-55 | every value an encoder takes is one its decoder gives |
| `Writing.JsonLegibleStands` | internal/agentcfg/codec/json.go:25-32 | what a JSON file holds JSON reads as it is |
| `Writing.TomlUnmarked` | internal/agentcfg/literalnull.go:48-56 | a TOML file marks no literal null |
| `Writing.EncodableMilder` | internal/agentcfg/codec/toml.go:104-242 | entries read back through JSON are never harder to write than they were |
| `Compose.ComposeSurface` | internal/agentcfg/compose.go:352-571 | the layer loops, floor and reinstatement produce the specified config, whose layers Precedence ranks; it is refused with the first layer that is no table, and when the surface's codec cannot write the config |
| `Compose.FoldWithOverlay` | internal/agentcfg/compose.go:379-488 | folding all layers is folding the lower ones, then merging overlay, then computed |
| `Compose.CollectLayers` | internal/agentcfg/compose.go:461-488 | the layers collected in precedence order, or the first one that cannot be folded |
| `Compose.Finish` | internal/agentcfg/compose.go:516-559 | floor then reinstatement applied to the folded map |
| `StateRender.ConfigByKey` | internal/agentcfg/compose.go:352-571 | the config at a top-level key depends on each layer's entry for that key and on nothing else |
| `StateRender.SameConfig` | internal/agentcfg/compose.go:352-571 | overlays that agree key by key render the same config |
| `StateRender.RetireInvisible` | internal/agentcfg/staterender.go:730-765 | dropping the entries that are each redundant on their own never changes the config |
| `StateRender.RetireMinimal` | internal/agentcfg/staterender.go:730-765 | every entry that is left changes the config: none could be dropped without showing |
| `StateRender.RetireIdempotent` | internal/agentcfg/staterender.go:730-765 | retiring twice retires nothing more |
| `StateRender.RepairRejected` | internal/agentcfg/rejectedvalues.go:192-207 | the overlay loses exactly the rejected key and value pairs of its own surface, in place, and each removal is reported |
| `StateRender.ComposesAlike` | internal/agentcfg/staterender.go:730-765 | composing with one entry alone tells truthfully whether it is redundant |
| `StateRender.RetireConvergedOverlay` | internal/agentcfg/staterender.go:725-765 | the overlay with its redundant entries retired; refused as the layers are, or when the layers alone or with some one entry cannot be written |
| `StateRender.RetireEntries` | internal/agentcfg/staterender.go:747-765 | the loop over entries: one composition each, stopping at the first the codec cannot write |
| `StateRender.RetireWritesIff` | internal/agentcfg/staterender.go:730-765 | entries that each compose alone compose together, and the other way about, key by key |
| `StateRender.KeptWrites` | internal/agentcfg/staterender.go:400-434 | the last composition of a boot cannot be the first to fail |
| `StateRender.WrittenReads` | internal/agentcfg/codec/codec.go:36-55 | what an encoder takes, its decoder reads back as the format rereads it; only an empty TOML document does not come back |
| `StateRender.DecideOverlay` | internal/agentcfg/staterender.go:206-357 | adoption without a trusted baseline, else capture; with a baseline and no file to read, the stored overlay entry by entry as JSON reads it; with neither, nothing; the pure render is reported on adoption only |
| `StateRender.ComposeStateful` | internal/agentcfg/staterender.go:199-451 | the whole boot: decide, repair, narrow, retire, render; it fails exactly when the layers are refused or something it composes cannot be written, and its repairs are exactly the rejected values the decided overlay held |
| `Precedence.LayerPrecedence` | internal/agentcfg/compose.go:379-404 | the layers rank, from below: defaults, host file, workspace, each overlay over the one before it, capture overlay, computed. A value one of them holds at a path, no table, is the config's there, and its null deletes there, when none above it speaks at the path, managed is silent and nothing of it is marked; one clause a layer, on the layers themselves |
| `Precedence.NothingUnsaid` | internal/agentcfg/compose.go:379-404 | a path no layer speaks at is not in the config |
| `Precedence.ManagedPrecedence` | internal/agentcfg/compose.go:516-559 | managed's leaf is the config's whatever any layer holds and whatever is marked; on TOML its null deletes |
| `Precedence.ComputedOverMarks` | internal/agentcfg/literalnull.go:75-158 | a literal null of the file does not move what computed holds |
| `Precedence.MarkOverLowerLayers` | internal/agentcfg/literalnull.go:88-158 | but it is a null of the config over the capture overlay and every layer below, wherever computed and managed are silent and the way there is open |
| `Precedence.RefusedIff` | internal/agentcfg/compose.go:363-488 | a composition is refused exactly when the host file does not decode or is no table, or some layer is neither a table nor absent |
| `Unread.UnreadFileLosesNothing` | internal/agentcfg/staterender.go:324-355 | a boot with a baseline over a file that is absent or cannot be read: at every key, owned or not, whose last render holds no literal null, the config has the same numbers, strings and tables as the last render, and the overlay the stored entry as JSON reads it, or none if it no longer shows; exactly the same if JSON reads that entry as it was |
| `Unread.NothingLostForGood` | internal/agentcfg/staterender.go:199-451 | through any run of boots that edit other keys, corrupt the file or remove it, such a key renders at the end as it did at the start, up to the kinds of its numbers |
| `Unread.StepLosesNothing` | internal/agentcfg/staterender.go:199-451 | the same for one boot of either kind |
| `Regenerated.FilledTableIsFresh` | internal/agentcfg/staterender.go:542-557 | after an adopting boot no key computed holds as a non-empty table is in the overlay, and the config there is the layers' own with the file's marks, whatever else the file held under it |
| `Regenerated.EmptyTableIsAdopted` | internal/agentcfg/staterender.go:542-557 | under a key computed holds as an empty table and managed does not mention, an entry of the file keeps every leaf, null and table in the config if and only if no table of nulls alone meets a scalar or a list of the layers |
| `Regenerated.EmptyTableRender` | internal/agentcfg/staterender.go:270-314 | what that entry renders as, from the lower layers and the file alone |
| `Formats.TomlTakesIff` | internal/agentcfg/codec/toml.go:104-223 | the TOML encoder takes a value under a key exactly when no null and no date is anywhere in it, and every list with a table anywhere in it holds tables alone |
| `Formats.TomlNeedsTable` | internal/agentcfg/codec/toml.go:82-94 | a scalar or list managed puts in place of the whole config is refused on TOML |
| `Formats.OthersTakeIff` | internal/agentcfg/codec/yaml.go:27-70 | JSON takes any value, YAML exactly those without a date |
| `Formats.LegibleIff` | internal/agentcfg/codec/codec.go:36-55 | what the model lets a file of each format hold: which kinds of scalar, and a null in all but TOML |
| `Formats.NumbersReadBack` | internal/agentcfg/staterender.go:766-798 | a whole number written and read back: a 53-bit decimal in JSON, the format's own integer in YAML and TOML |
| `Formats.DecimalsReadBack` | internal/agentcfg/codec/toml.go:210-218 | a decimal comes back as it was, except that YAML makes an integer of an integral one under a million |
| `Formats.NearestMeans` | internal/agentcfg/selection.go:299-337 | the float64 of a whole number is a multiple of the spacing there, at most half of it away, and the even multiple of two as near |
| `Formats.UlpMeans` | internal/agentcfg/selection.go:299-337 | that spacing is the power of two which leaves the number 53 bits |
| `Formats.FirstLost` | internal/agentcfg/selection.go:299-337 | the first whole number a float64 does not hold, and the next it rounds up |
| `Formats.RepairIs` | internal/agentcfg/rejectedvalues.go:95-207 | the repair drops one entry at most: theme "system" of pi's settings, while their defaults declare another theme |
| `Formats.BootReports` | internal/agentcfg/staterender.go:206-314 | a boot is a first migration exactly when no last render can be read as a table of its format, and renders the layers alone exactly when it then has a file it can read |
| `Formats.BootPersists` | internal/agentcfg/staterender.go:766-798 | file and last render are written alike, and the sidecar holds every overlay entry, tombstones too |
| `BootRuns.PassesSettle` | internal/agentcfg/staterender.go:359-420 | what repair, narrowing and retirement leave is a joint fixpoint of repair and narrowing |
| `BootRuns.EnforcedNullsSpoken` | internal/agentcfg/staterender.go:418-434 | after the floor, a null can stand only where an outranking layer speaks |
| `BootRuns.KeyRerenders` | internal/agentcfg/staterender.go:418-434 | a key rendered again with the marks of its own render is unchanged |
| `BootRuns.KeyStaysKept` | internal/agentcfg/staterender.go:400-420 | an entry worth keeping under the old marks is worth keeping under the marks of its render |
| `BootRuns.BootLeavesRendered` | internal/agentcfg/staterender.go:199-451 | every boot that succeeds, adopting or capturing, leaves the disk in the state the run theorems start from |
| `BootRuns.UntouchedKeyStands` | internal/agentcfg/staterender.go:324-351 | whatever else was edited in the file, a key the user left alone renders with the same numbers, strings and tables; its overlay entry is the stored one as JSON reads it, or is let go as converged; and if JSON reads it as it was, entry and value stand exactly |
| `BootRuns.RebootIsNoOp` | internal/agentcfg/staterender.go:199-451 | a boot over an unedited file changes the config at most in the kinds of its numbers, and neither overlay nor config at all if JSON reads the stored overlay as it was |
| `BootRuns.Quiescence` | internal/agentcfg/staterender.go:199-451 | of two successful boots, the second over the files the first wrote, the second gives the same config and overlay if and only if the written config reads back and JSON reads the overlay as it was, or the overlay is empty; literal nulls included |
| `BootRuns.RebootGoes` | internal/agentcfg/staterender.go:199-451 | after a successful boot the next one over what it wrote goes exactly when the layers with the file's nulls can still be written, which on JSON and TOML is always |
| `BootRuns.SettlesAtSecondBoot` | internal/agentcfg/staterender.go:199-451 | a home is unsettled for one boot at most: the third boot repeats the second unless the second's config does not read back |
| `BootRuns.JsonQuiescence` | internal/agentcfg/staterender.go:199-451 | on a JSON surface every successful boot is followed by one that changes neither config nor overlay nor what any of the three files holds |
| `BootRuns.JsonOverlayStands` | internal/agentcfg/staterender.go:766-798 | no overlay a JSON surface can decide is read otherwise from the sidecar |
| `BootRuns.KeyRendersSame` | internal/agentcfg/compose.go:352-571 | overlay entries JSON cannot tell apart render to what JSON cannot tell apart |
| `BootRuns.RestoredSettled` | internal/agentcfg/staterender.go:359-420 | an overlay that repair and narrowing leave alone is left alone again when read back from the sidecar |
| `BootFails.BootFailsIff` | internal/agentcfg/staterender.go:175-197 | a boot fails if and only if its layers are refused, or at some key the codec cannot write the pure render it adopts against, the layers with the file's nulls, or the layers with the decided entry |
| `BootFails.NothingOnDiskFails` | internal/agentcfg/staterender.go:175-197 | on JSON and YAML, where the layers alone can be written no file and no sidecar whatever makes a boot fail |
| `BootFails.DatelessRender` | internal/agentcfg/codec/yaml.go:27-34 | an overlay entry without a date brings none up from the layers, whatever it covers or deletes |
| `Survival.EditSurvives` | internal/agentcfg/staterender.go:324-351 | the render after a captured edit keeps every leaf of the edited value and keeps absent every key the user removed, under any lower layers, stored entry and marks |
| `Survival.EditExact` | internal/agentcfg/staterender.go:324-351 | it equals the edited value exactly when no object the edit adds lands on a lower object through a tombstone, scalar or array of the stored entry |
| `Survival.EditHoldsTombstones` | internal/agentcfg/staterender.go:324-351 | the overlay an edit leaves is again one the next edit can start from |
| `Survival.AddedEntrySurvives` | internal/agentcfg/engine.go:106-128 | the same survival where the user adds what the last render lacked |
| `Survival.AddedEntryExact` | internal/agentcfg/engine.go:106-128 | and its exact condition |
| `Survival.ComposingEditExact` | internal/agentcfg/staterender.go:324-351 | an edit whose delta meets only objects with objects is reproduced exactly |
| `Survival.PreservesLeaves` | internal/agentcfg/staterender.go:324-351 | what "survives" gives at a path: every leaf of the file |
| `Survival.PreservesRemovals` | internal/agentcfg/staterender.go:324-351 | and every removed path absent |
| `Survival.FileEditSurvives` | internal/agentcfg/staterender.go:199-451 | through a whole boot, on every top-level key neither computed nor managed mentions, every leaf of the edit survives with its number, string or flag and every removed key stays away; render and file are the same to JSON if and only if nothing bleeds through; a key the repair takes held the rejected value itself and falls back to the lower layers |
| `Survival.RereadEditSurvives` | internal/agentcfg/staterender.go:324-351 | the same for one key, baseline read through the surface's codec and stored entry through JSON, from any lower layers, entry and marks; and the new entry's tombstones hold again |
| `Survival.AfterEditReread` | internal/agentcfg/staterender.go:324-351 | reading the entry as JSON and the baseline as the codec does makes, to JSON, no difference to the next render |
| `Survival.RepairedFallsBack` | internal/agentcfg/staterender.go:359-380 | what a boot repairs is what the user just wrote: the overlay lets go of it, and where nothing outranks the overlay the lower layers render |
| `Survival.SiblingSurvives` | internal/agentcfg/staterender.go:597-669 | an edit inside an object an owner also holds survives at every path the owners do not reach |
| `Survival.FileSiblingSurvives` | internal/agentcfg/staterender.go:199-451 | the same through a whole boot, a repaired key falling back |
| `Survival.AdoptionIsLossless` | internal/agentcfg/staterender.go:237-314 | on a first migration every top-level key of the file that no owner mentions and the pure render lacks is rendered unchanged, nulls included; only the value a repair rejects is not taken over |
| `Survival.AdoptionPreservesIff` | internal/agentcfg/staterender.go:237-314 | on a first migration, on every key no owner mentions, the render keeps every leaf, null and table of the file's value if and only if no table of nulls alone meets a scalar or a list of the layers |
| `Survival.AdoptedWholeIff` | internal/agentcfg/staterender.go:270-314 | the same for one value over any null-free lower layers |
| `Survival.AdoptionUnderTomlFloor` | internal/agentcfg/staterender.go:237-314 | on TOML, where managed may mention a key the pure render lacks, the file's entry returns at every path managed does not speak for, and nowhere managed deletes |
| `Survival.JsonPureKeysUnmanaged` | internal/agentcfg/enforce.go:54-67 | on a JSON surface a key absent from the pure render and from computed is one managed does not mention |
| `Survival.AdoptionHolds` | internal/agentcfg/staterender.go:237-314 | an adopting boot leaves the survival invariant |
| `Survival.BootKeepsHolding` | internal/agentcfg/staterender.go:199-451 | and every later boot, whatever the file held, keeps it |
| `Survival.RunInvariant` | internal/agentcfg/staterender.go:199-451 | any run of boots, failing ones included, keeps what the next capture needs |
| `Survival.EditsSurviveRuns` | internal/agentcfg/staterender.go:199-451 | from a home without a baseline, through any run of edits, corruptions and boots that go or fail, the next captured edit survives its boot, or falls back if the repair rejects it |
| `Survival.UntouchedForGood` | internal/agentcfg/staterender.go:324-351 | a key no edit of a run touches renders at its end the same but for the kinds of its numbers, and exactly the same if JSON reads its stored entry as it was |
| `Witnesses.QuiescenceFails` | internal/agentcfg/staterender.go:199-451 | two boots of a TOML surface with one default, its file left with no key in it: the first stores the deletion and writes a blank file, the second forgets it and the default is back |
| `Witnesses.WholeNumberRespelled` | internal/agentcfg/staterender.go:766-798 | a TOML file with one whole number: the first boot renders and stores it, the second, with no edit between, renders a decimal |
| `Witnesses.UnwritableFileFails` | internal/agentcfg/staterender.go:730-765 | a TOML file holding, at a key of its own, a value the decoder takes and the encoder refuses makes the boot fail, though the layers alone can be written |
| `Witnesses.MixedListAndDate` | internal/agentcfg/codec/toml.go:158-242 | a list mixing a table with other values, and a date, are such values |
| `Witnesses.NullTableDropped` | internal/agentcfg/staterender.go:270-314 | an adopting boot that drops a table of nulls where a default holds a scalar |
| `Witnesses.EditBleeds` | internal/agentcfg/staterender.go:324-351 | a default table deleted at one boot and another table written before the next: the render holds the keys of both |
| `Witnesses.EmptiedBoot` | internal/agentcfg/staterender.go:324-351 | emptying a file that held the one default stores its tombstone and renders the empty table |
| `Selection.ApplySelection` | internal/agentcfg/selection.go:152-204 | the loop over selected and recorded keys computes the lift and the next record |
| `Selection.ApplyKey` | internal/agentcfg/selection.go:165-202 | the switch decides one key as the rules say |
| `Selection.DecisionTable` | internal/agentcfg/selection.go:110-204 | the documented table, clause by clause: a selected key absent from the file is lifted and recorded; one that holds what was last written moves with the selection; one the user changed stands unless the selection moved; one no longer selected stands; what is no scalar is not lifted |
| `Selection.SameMeans` | internal/agentcfg/selection.go:299-337 | numbers are one choice when their float64 values are, whatever their Go types; nothing else is but what is equal; no record reads as a null one |
| `Selection.OverwritesIff` | internal/agentcfg/selection.go:152-204 | a scalar already in the file is replaced if and only if the selection names the key with another value, the record knows the key, and the selected value is not the recorded one |
| `Selection.DeselectedKeyStands` | internal/agentcfg/selection.go:134-136 | a key no longer selected keeps its value in the file and its record |
| `Selection.RerunIsStable` | internal/agentcfg/selection.go:152-204 | running again over the file with the lift applied gives the same lift and record |
| `Selection.OverwriteNeedsNewSelection` | internal/agentcfg/selection.go:110-150 | over any run of boots and edits, each overwrite goes back to an earlier boot that selected a different value for the key |
| `Selection.ConstantSelectionNeverOverwrites` | internal/agentcfg/selection.go:110-150 | once a constant selection has had one boot, no present scalar is overwritten again |
| `Selection.RecordSettles` | internal/agentcfg/selection.go:152-204 | after one boot of a constant selection the record, if it has the key, holds the selected value |
| `Selection.RecordWasSelected` | internal/agentcfg/selection.go:110-150 | a recorded value was selected at some earlier boot |
| `AgentEnv.Apply` | internal/agentenv/agentenv.go:47-90 | the list and index updated in place, slots freed and compacted, spell the overlaid environment |
| `AgentEnv.ApplyRefinesMap` | internal/agentenv/agentenv.go:42-90 | keys are distinct, a key is listed exactly when its outcome is set, and its entry is that outcome: the last variable naming it, else the last inherited entry |
| `AgentEnv.InheritedOrderKept` | internal/agentenv/agentenv.go:42-90 | inherited keys never unset come first in their own order; whatever follows was named by a variable |
| `AgentEnv.KeysAreOutcomes` | internal/agentenv/agentenv.go:47-90 | the key list is distinct and holds exactly the keys whose outcome is set |
| `AgentEnv.EnvKeyOfAssignment` | internal/agentenv/agentenv.go:94-101 | the key read off KEY=value is KEY |
| `AgentEnv.EnvKeyOf` | internal/agentenv/agentenv.go:94-101 | the scan for the first equals sign finds the key, or the whole entry |
| `AgentEnv.EnvKeyMeans` | internal/agentenv/agentenv.go:94-101 | the key holds no equals sign, begins the entry, and is followed by one unless it is all of it |
| `AgentEnv.LastVariableDecides` | internal/agentenv/agentenv.go:42-90 | of the variables of one name the last decides: the entries listed for the name are none if it unsets, else the one it spells |
| `AgentEnv.UnnamedIsInherited` | internal/agentenv/agentenv.go:42-90 | a name no variable has lists exactly the last entry inherited for it, unaltered |
| `AgentEnv.RemovesIff` | internal/agentenv/agentenv.go:62-88 | the list is compacted exactly when some variable unsets a key that is set when its turn comes |
| `Relocate.FileHasPrefix` | internal/capture/relocate.go:124-179 | for every content and every way the reader splits it, found exactly when the needle occurs, binary exactly when a NUL is in the first 8000 bytes; after a failed read neither is claimed falsely |
| `Relocate.AnswersMean` | internal/capture/relocate.go:124-179 | byte by byte: what it is for a needle to occur, and for one of the first 8000 bytes to be a NUL |
| `Relocate.WindowSuffices` | internal/capture/relocate.go:130-170 | an occurrence in what has been read is in what had been read before or in the new window, when the window carries one byte less than the needle |
| `Relocate.SniffAdvances` | internal/capture/relocate.go:146-158 | the sniff over successive chunks sees each of the first 8000 bytes once |
| `Relocate.Absorb` | internal/capture/relocate.go:140-170 | one read keeps the two answers exact for what has been read, inside the fixed buffer |
| `Relocate.CarryTail` | internal/capture/relocate.go:159-166 | the overlap moved to the front of the buffer in place |
| `CaptureDelta.CaptureRun` | internal/capture/inner.go:399-577 | snapshot, install, move: every path's fate, in raw fields and by the rules. A leaf stays in the home exactly when it is not delta (beneath a surface, not excluded, new or changed), and is in the captured tree, the same, exactly when it is delta and not a special file whose carrier, the path moved as one with it, goes by copy, which restamps it; directories as DirectoryStays says; no excluded path is captured, by a whole-directory move or otherwise |
| `CaptureDelta.InNeitherIff` | internal/capture/inner.go:550-664 | a leaf is never in both places, and is in neither if and only if it is a new or changed special file whose carrier crosses a mount |
| `CaptureDelta.SocketIsLost` | internal/capture/inner.go:550-664 | a run from start to end that loses a file: a socket left on a surface, its path on another mount |
| `CaptureDelta.ByCopyHere` | internal/capture/inner.go:523-546 | beneath a path moved as one, everything goes by copy exactly when that one move crosses a mount |
| `CaptureDelta.PartitionedStays` | internal/capture/inner.go:432-543 | in the raw fields: a leaf of the home after the run, beneath a surface and no exclusion, stays if and only if the same was there before: no directory, a link just when it is one, of equal mode, size and modification time; any one of these alone moves it |
| `CaptureDelta.OutsideStays` | internal/capture/inner.go:490-515 | a leaf outside every surface, or at or beneath an exclusion, stays as it is and is not captured |
| `CaptureDelta.DirectoryStays` | internal/capture/inner.go:505-530 | a directory leaves the home if and only if it is, or lies in, one strictly beneath a surface that was no directory before and has no exclusion above, at or beneath it; an empty one too; and it is then in the tree in its own mode |
| `CaptureDelta.FatesPartition` | internal/capture/inner.go:486-547 | the settled surfaces and the untouched rest give every path its exact fate |
| `CaptureDelta.Driver.MoveDelta` | internal/capture/inner.go:486-499 | every path beneath a surface settles, exactly, and nothing outside them moved |
| `CaptureDelta.Driver.Visit` | internal/capture/inner.go:502-547 | beneath one path everything settles, with special files dropped exactly where their carrier is copied, and everything beside it stands |
| `CaptureDelta.Driver.Descend` | internal/capture/inner.go:527-547 | the same for the children of a directory, one after the other |
| `CaptureDelta.Driver.Move` | internal/capture/inner.go:550-577 | a subtree leaves the home and appears in the tree whole, with its parents, by rename or by copy; a copy has no sockets or pipes |
| `CaptureDelta.Driver.EnsureParents` | internal/capture/inner.go:582-608 | exactly the missing ancestors are made, with the permissions they have in the home |
| `CaptureDelta.Walk` | internal/capture/inner.go:399-445 | the snapshot is every path of every surface that is not excluded |
| `CaptureDelta.BaselineGrounded` | internal/capture/inner.go:399-445 | the snapshot of a real tree is prefix-closed beneath its surfaces |
| `CaptureDelta.NewDirectoryIsDelta` | internal/capture/inner.go:517-530 | beneath a directory the baseline lacks every leaf is delta, which is what licenses moving it whole |
| `CaptureStore.NeverTorn` | internal/capture/store.go:217-333 | over every sequence of admits, reaps and receipts, each cut off at any step, an entry with its marker has a frozen tree whose digest gives its key |
| `CaptureStore.ActKeepsWhole` | internal/capture/store.go:224-279 | the same for one act cut off anywhere |
| `CaptureStore.FinishedAdmitResolves` | internal/capture/store.go:224-279 | an admit left to finish resolves under its tree's key whatever wreck it found, leaves a complete entry untouched, and disturbs no other key |
| `CaptureStore.AdmittedSlot` | internal/capture/store.go:188-279 | a finished admit leaves its tree, frozen and marked, with the receipts of an entry-shaped staging directory and none of a bare tree's; cut anywhere, an entry that resolves already has them |
| `CaptureStore.ReapedSlot` | internal/capture/gc.go:215-224 | a reap takes the marker first and the tree second, leaves no tree when finished, and never touches the receipts or another entry |
| `CaptureStore.Store.AdmitTree` | internal/capture/store.go:224-279 | the disk after any number of the admit's steps |
| `CaptureStore.Store.ReapEntry` | internal/capture/gc.go:219-224 | the disk after any number of the reap's steps: marker first, tree second |
| `CaptureStore.Store.EntryKeys` | internal/capture/store.go:311-333 | the listed keys are exactly the entries that resolve |
| `CaptureSelect.ChoiceIsMaximum` | internal/capture/select.go:164-179 | a program is answered exactly when some receipt names it, and the answer is the greatest in time, then key |
| `CaptureSelect.SelectionMeans` | internal/capture/select.go:138-179 | of the store itself: a program is answered exactly when a receipt naming its binary and platform lies beside a marked entry whose log can be read, and by an entry with the newest of them, of equally new ones the greatest key |
| `CaptureSelect.KeyLessMeans` | internal/capture/select.go:164-179 | the order of keys, character by character |
| `CaptureSelect.ScanOrderIsIrrelevant` | internal/capture/select.go:164-179 | the chosen key does not depend on the order of the scan |
| `CaptureSelect.BestIsUnique` | internal/capture/select.go:164-179 | two greatest candidates agree on key and time |
| `CaptureSelect.SelectFrom` | internal/capture/select.go:166-179 | the nested loops compute the choice |
| `CaptureSelect.SelectEntry` | internal/capture/select.go:169-176 | the inner loop, over one entry's records |
| `CaptureSelect.ScanRecords` | internal/capture/select.go:138-162 | the scan holds each complete entry once with its readable, named receipts |
| `CaptureSelect.ScanIsCandidates` | internal/capture/select.go:138-162 | the pairs scanned are exactly the store's candidates |
| `CaptureGc.InterruptedCollectionIsInvisible` | internal/capture/gc.go:131-192 | stopped after any removals, each itself cut off at any step, a collection leaves every program's selected key as it was |
| `CaptureGc.InterruptedPassIsInvisible` | internal/capture/gc.go:131-192 | a pass stopped after any of the removals it makes, the next one cut at any step, changes no program's selected key |
| `CaptureGc.PruneTwice` | internal/capture/gc.go:157-192 | two passes one after the other: the second reaps nothing and keeps as many, and every answer is as before the first |
| `CaptureGc.ReapKeepsSelection` | internal/capture/gc.go:215-224 | the same for one reap of an entry selection does not return |
| `CaptureGc.PruneSupersededCaptures` | internal/capture/gc.go:157-192 | the pass reaps exactly the complete entries selection returns for no program, by exactly one removal each, counts the others kept, keeps every receipt, and without apply changes nothing |
| `CaptureGc.PassKeepsWinners` | internal/capture/gc.go:157-192 | after a pass exactly the winners are complete |
| `CaptureGc.SecondPassReapsNothing` | internal/capture/gc.go:131-192 | a second full pass finds nothing to reap and selects as before |
| `CaptureGc.ScanSelects` | internal/capture/gc.go:157-192 | what the collector's scan selects is what the store selects |
| `Broker.FetchIsSafe` | internal/awsauth/broker.go:135-179 | in every reachable state of any number of calls with any profiles and narrowings: lock holders exclude each other, a call mints only when the entry it reloaded under the lock was not warm for it, and what a call returns is complete and carries its own narrowing |
| `Broker.StepKeepsInv` | internal/awsauth/broker.go:135-179 | every atomic step keeps the invariant those follow from |
| `Broker.RunKeepsInv` | internal/awsauth/broker.go:135-254 | and so does every run |
| `Broker.EntryStandsThroughRun` | internal/awsauth/broker.go:151-171 | while the cache stays readable, a mint for one profile never loses or alters another's entry, however calls interleave |
| `Broker.StepKeepsOtherEntries` | internal/awsauth/broker.go:151-171 | the same for one step |
| `Broker.WarmServeIsLockFree` | internal/awsauth/broker.go:117-145 | a call begins by reading, whoever holds the lock and without touching lock or file: it returns the entry exactly when that is complete, of its own narrowing and has more than the lead to live, and else goes to wait |
| `Broker.ReloadDecides` | internal/awsauth/broker.go:147-156 | under the lock it reads again, and mints only if what is there now may not be served |
| `Broker.OnlyMintsWrite` | internal/awsauth/broker.go:147-171 | a file that can be read changes only by the write of a mint, under the lock and at the one profile, to the credential the call is then served |
| `Broker.WriteRestores` | internal/awsauth/broker.go:147-171 | in every run a call's write puts on disk every other profile's entry it had reloaded, even if the file has become unreadable since |
| `Broker.FailureEnds` | internal/awsauth/broker.go:132-179 | whatever fails ends the call with that failure, lets the lock go and leaves the file as it was |
| `Broker.CallIsShort` | internal/awsauth/broker.go:132-179 | in every run a call takes at most five steps and mints at most once: there is no retry |
| `Broker.LeadMeans` | internal/awsauth/awsauth.go:40-43 | the lead is ten minutes unless a positive one is set |
| `Broker.RemintDueIff` | internal/awsauth/broker.go:97-114 | a re-mint is due for a configured profile exactly while nothing that may be served can be read for it |
| `Broker.OneMintPerEpisode` | internal/awsauth/broker.go:123-179 | with one shared configuration, no failures and a mint that stays warm, a cold episode mints at most once in every state, and when all calls have returned exactly once, by exactly one call, all served what it minted |
| `Broker.EpisodeInvariant` | internal/awsauth/broker.go:135-179 | at each moment of the episode, either nothing is minted and the entry is cold, or one credential is minted and every answer is it |
| `Broker.TickBeforeExpiry` | internal/awsauth/broker.go:74-114 | ticking at half the lead, the entry the last tick left has more than half the lead to live until the next |
| `BaseHome.SafeCollapse` | internal/basehome/detect.go:258-375 | for every tree: candidates are never nested; a candidate covers nothing kept and, where something cannot be examined, only that very place; every leaf to be moved is covered; each candidate's bytes and leaves are those of the moving leaves beneath it |
| `BaseHome.ScanAccounts` | internal/basehome/detect.go:242-256 | kept, bytes and leaves are sums over what was met, the candidates' bytes and leaves sum to the same, and opaque says truthfully that something was not examined |
| `BaseHome.CollapsesIff` | internal/basehome/detect.go:302-317 | a directory becomes one candidate exactly when nothing met beneath it is kept or unexamined and it is not provisioned |
| `BaseHome.KeptLeafNeverMoves` | internal/basehome/detect.go:258-375 | a file kept by its path or by its link's target is covered by no candidate but a directory named as one that could not be examined |
| `BaseHome.ProvisionedCarriedIff` | internal/basehome/detect.go:309-317 | a provisioned directory is carried off exactly when a directory above it, beneath the root, is not provisioned and has nothing kept or unexamined in it |
| `BaseHome.ProvisionedNearRootStands` | internal/basehome/detect.go:309-317 | a provisioned directory at most one level beneath a root is never carried off |
| `BaseHome.ProvisionedCarriedWithParent` | internal/basehome/detect.go:309-317 | and it happens: an empty one two levels down goes with its undeclared parent |
| `BaseHome.CacheMountCarried` | internal/basehome/detect.go:309-317 | a home where it happens, the nested mount being the only declaration |
| `BaseHomeRules.ClassifyExactly` | internal/basehome/classify.go:133-200 | each rule by the class it gives, the earlier one winning: the home, shared directories and login files are credential, then surfaces config, then destinations content; a path none of them names has the class of the database it is a WAL or SHM sibling of, and else is runtime |
| `BaseHomeRules.CandidateIff` | internal/basehome/classify.go:133-200 | a path is a candidate if and only if neither it nor a database it is a sidecar of is the home, lies at or beneath a shared directory, a declared credential file, a config surface after redirection or a content destination, has a declared credential's last name, or one of the three core names, all written out |
| `BaseHomeRules.KeptFileStays` | internal/basehome/detect.go:323-373 | a file that is there, whose path the declarations keep or whose link points to a path they keep, is covered by no candidate the walk has examined |
| `BaseHomeRules.LoginFileStays` | internal/basehome/classify.go:151-167 | so no file named auth.json ever is, whatever is declared |
| `BaseHomeRules.OtherFileMoves` | internal/basehome/detect.go:258-375 | any other file, with nothing kept whole above it, is covered by a candidate that counts it and its bytes, and by none but itself if its size is unknown; or by a directory that could not be examined |
| `BaseHomeRules.CandidatesAreNamed` | internal/basehome/detect.go:258-375 | every candidate is something in the tree and says truly whether it is a directory; one that could not be examined is |
| `BaseHomeRules.ListsDeep` | internal/basehome/detect.go:297-301 | the walk lists every directory down to 63 levels that lies in none the rules keep |
| `BaseHomeRules.ListsShallow` | internal/basehome/detect.go:297-301 | and none deeper |
| `BaseHomeRules.TooDeepIsNamed` | internal/basehome/detect.go:297-301 | each directory beneath the deepest listed ones is named as one that could not be examined |
| `BaseHome.UndeclaredIsRuntime` | internal/basehome/classify.go:133-200 | under no declaration, a path whose name is no core credential's and no sidecar's is runtime |
| `BaseHome.SidecarStaysWithDatabase` | internal/basehome/classify.go:183-196 | a WAL or SHM sidecar of a kept database is kept |
| `BaseHome.ScanDir` | internal/basehome/detect.go:258-375 | the loop over entries accumulates the walk |
| `BaseHome.WalkLeaf` | internal/basehome/detect.go:323-373 | one leaf's class, stat and link rules |

## Left out

- Keyless (raw and lines) surfaces: the layers replace one another whole, and every claim about them is immediate.
- Bytes, syntax and key order of the formats: a codec is what it does to a value, not to its spelling. The YAML and TOML
  parsers and encoding/json are taken at their documented word.
- NaN and the infinities, and the rounding of a decimal's own text.
- YAML integers beyond 64 bits, and a YAML timestamp, at which decoding fails.
- Provenance labels, retired layer labels, reports and banners.
- Go's sharing of nested maps: the config map and the overlay are objects updated in place at their top level;
  tables nested in them are values, so aliasing between layers is not modelled (the Go code copies before it
  mutates).
- A `Base.Overlay` or `Base.LiteralNulls` set by the caller of a stateful boot: callers leave both absent.
- An unknown codec, and a layer that is a typed nil pointer: neither reaches the object branch.
- `TakeSelection` and `ParseSelectionRecord`: single-branch filters on the way in.
- `LiteralNull.ReinstateKey`: the nested tables it rebuilds are returned rather than updated in place; only the top-level
  config is an object.
- `StateRender.ComposeStateful`: the text of the errors, and which of several entries that cannot be written is the one named.
- `BootRuns.Quiescence`: the layers are the same on both boots; a declaration that moves between boots is not part of this model.
- `CaptureDelta.Driver.Move`: a system error halfway through a move or a copy; every rename and copy succeeds.
- `CaptureStore.Store.AdmitTree`: I/O errors other than a stop between steps, and the digest algorithm itself.
- Concurrent admit and reap of one store key: the code does not serialize them, so acts are sequential here.
- `CaptureGc.PruneSupersededCaptures`: the sizes and the superseding receipts in its report, and the sorted order of the report.
- `Relocate.FileHasPrefix`: opening the file and the retry of an interrupted read; a read returns some bytes, possibly
  none, possibly with an error or the end of the file.
- `scanContentRefs` and `decideRelocatable`: single-branch facts about lists.
- `Broker.FetchIsSafe`: an unconfigured broker, which returns before its first step; a cache file that becomes unreadable is
  a step of its own.
- `Broker.TickBeforeExpiry`: saturation of a duration near the limit of 64 bits.
- The mint command line and its answer: a mint gives a complete credential under its caller's narrowing, or fails.
- `BaseHome.SafeCollapse`: path strings are clean lists of names without surrounding spaces; a link's target is already
  resolved to a home path or to none. `Detect` itself, its roots and its report are not part of this model; it never
  scans a root that cannot be listed.
- Manifests, materialization, subprocesses, flock and file system calls, TLS and HTTP.
