/** internal/capture/store.go: admission, offline resolution and the completion marker of the
    content-addressed capture store, with every act cut off wherever a crash may cut it. */
module CaptureStore {
  import opened Values

  type Key = string

  /** A captured tree; all the store ever asks of one is its key. */
  datatype Tree = Tree(content: string)

  datatype Record = Record(bin: string, platform: string, time: int)

  /** An entry directory: its marker, its tree, whether the tree's files are read-only, and the receipts
      beside the tree. */
  datatype Slot = Slot(marker: bool, tree: Option<Tree>, frozen: bool, receipts: seq<Record>)

  type Entries = map<Key, Slot>

  /** Resolve: the marker is the only thing checked. */
  predicate Resolves(entries: Entries, key: Key) {
    key in entries && entries[key].marker
  }

  /** A complete entry is whole: its tree is there, frozen, and its content dictates its key. */
  ghost predicate Whole(keyOf: Tree -> Key, entries: Entries) {
    forall k :: Resolves(entries, k) ==> entries[k].tree.Some? && keyOf(entries[k].tree.value) == k && entries[k].frozen
  }

  /** What an interrupted recursive removal may leave: anything but a marker. */
  datatype Debris = Debris(tree: Option<Tree>, frozen: bool, receipts: seq<Record>)

  function Wreck(d: Debris): Slot {
    Slot(false, d.tree, d.frozen, d.receipts)
  }

  /** The disk after each step of an admit: nothing for a key already complete; else clear what a dead
      admit left, make room, rename the staged tree in, freeze it, and only then write the marker. An
      entry-shaped staging directory brings its receipts with it in the one rename. */
  function AdmitTrace(entries: Entries, key: Key, tree: Tree, whole: bool, receipts: seq<Record>, debris: Debris)
    : (trace: seq<Entries>)
    ensures trace != []
  {
    if Resolves(entries, key) then [entries]
    else
      var cleared := entries - {key};
      var moved := Slot(false, Some(tree), false, if whole then receipts else []);
      [entries]
      + (if key in entries then [entries[key := Wreck(debris)]] else [])
      + [cleared]
      + (if whole then [] else [cleared[key := Slot(false, None, false, [])]])
      + [cleared[key := moved]]
      + [cleared[key := moved.(frozen := true)]]
      + [cleared[key := moved.(frozen := true, marker := true)]]
  }

  /** The disk after each step of a reap: the marker goes first, the tree second, the receipts stay. */
  function ReapTrace(entries: Entries, key: Key, debris: Debris): (trace: seq<Entries>)
    ensures trace != []
  {
    if key !in entries then [entries]
    else
      var e := entries[key];
      [entries,
       entries[key := e.(marker := false)],
       entries[key := e.(marker := false, tree := debris.tree, frozen := debris.frozen)],
       entries[key := e.(marker := false, tree := None, frozen := debris.frozen)]]
  }

  datatype Act =
    | Admit(tree: Tree, whole: bool, receipts: seq<Record>, debris: Debris)
    | Reap(key: Key, debris': Debris)
    | AppendReceipt(key': Key, record: Record)

  function Trace(keyOf: Tree -> Key, entries: Entries, act: Act): seq<Entries> {
    match act
    case Admit(tree, whole, receipts, debris) => AdmitTrace(entries, keyOf(tree), tree, whole, receipts, debris)
    case Reap(key, debris) => ReapTrace(entries, key, debris)
    case AppendReceipt(key, record) =>
      if key in entries then [entries, entries[key := entries[key].(receipts := entries[key].receipts + [record])]]
      else [entries]
  }

  /** An act cut off after some number of its steps; a large cut lets it finish. */
  function Perform(keyOf: Tree -> Key, entries: Entries, act: Act, cut: nat): Entries {
    var trace := Trace(keyOf, entries, act);
    trace[if cut < |trace| then cut else |trace| - 1]
  }

  function PerformAll(keyOf: Tree -> Key, entries: Entries, acts: seq<(Act, nat)>): Entries
    decreases |acts|
  {
    if acts == [] then entries else PerformAll(keyOf, Perform(keyOf, entries, acts[0].0, acts[0].1), acts[1..])
  }

  /** A slot that may stand at its key. */
  ghost predicate Untorn(keyOf: Tree -> Key, k: Key, s: Slot) {
    s.marker ==> s.tree.Some? && keyOf(s.tree.value) == k && s.frozen
  }

  lemma {:induction false} AdmitKeepsWhole(keyOf: Tree -> Key, entries: Entries, tree: Tree, whole: bool, receipts: seq<Record>, debris: Debris, i: nat)
    requires Whole(keyOf, entries) && i < |AdmitTrace(entries, keyOf(tree), tree, whole, receipts, debris)|
    ensures Whole(keyOf, AdmitTrace(entries, keyOf(tree), tree, whole, receipts, debris)[i])
  {
    var key, after := keyOf(tree), AdmitTrace(entries, keyOf(tree), tree, whole, receipts, debris)[i];
    assert after == entries || (forall k :: k in after && k != key ==> k in entries && after[k] == entries[k]);
    assert after == entries || (key in after ==> Untorn(keyOf, key, after[key]));
  }

  lemma {:induction false} ReapKeepsWhole(keyOf: Tree -> Key, entries: Entries, key: Key, debris: Debris, i: nat)
    requires Whole(keyOf, entries) && i < |ReapTrace(entries, key, debris)|
    ensures Whole(keyOf, ReapTrace(entries, key, debris)[i])
  {
    var after := ReapTrace(entries, key, debris)[i];
    assert after == entries || (key in after && !after[key].marker && after == entries[key := after[key]]);
  }

  lemma {:induction false} ActKeepsWhole(keyOf: Tree -> Key, entries: Entries, act: Act, cut: nat)
    requires Whole(keyOf, entries)
    ensures Whole(keyOf, Perform(keyOf, entries, act, cut))
  {
    var trace := Trace(keyOf, entries, act);
    var i := if cut < |trace| then cut else |trace| - 1;
    match act
    case Admit(tree, whole, receipts, debris) => AdmitKeepsWhole(keyOf, entries, tree, whole, receipts, debris, i);
    case Reap(key, debris) => ReapKeepsWhole(keyOf, entries, key, debris, i);
    case AppendReceipt(key, record) =>
      assert forall k :: Resolves(trace[i], k) ==> Resolves(entries, k) && trace[i][k].tree == entries[k].tree;
  }

  /** Over every sequence of admits, reaps and receipts from an empty store, each cut off at any step, an
      entry the store lists or resolves is never torn. */
  lemma {:induction false} NeverTorn(keyOf: Tree -> Key, entries: Entries, acts: seq<(Act, nat)>)
    requires Whole(keyOf, entries)
    ensures Whole(keyOf, PerformAll(keyOf, entries, acts))
    decreases |acts|
  {
    if acts != [] {
      ActKeepsWhole(keyOf, entries, acts[0].0, acts[0].1);
      NeverTorn(keyOf, Perform(keyOf, entries, acts[0].0, acts[0].1), acts[1..]);
    }
  }

  /** An act left to finish does what it says, whatever torn state it found: an admitted tree resolves
      under its own key, and an entry already complete is not touched. */
  lemma {:induction false} FinishedAdmitResolves(keyOf: Tree -> Key, entries: Entries, act: Act, cut: nat)
    requires act.Admit? && cut >= 6 && Whole(keyOf, entries)
    ensures var after := Perform(keyOf, entries, act, cut);
            var key := keyOf(act.tree);
            && Resolves(after, key) && keyOf(after[key].tree.value) == key
            && (!Resolves(entries, key) ==> after[key].tree == Some(act.tree))
            && (Resolves(entries, key) ==> after == entries)
            && (forall k :: k != key ==> (k in after <==> k in entries) && (k in entries ==> after[k] == entries[k]))
  {}

  /** What a finished admit leaves at a key not complete before: the tree, frozen and marked, with the receipts of
      an entry-shaped staging directory and with none of a bare tree's; and until its last step no marker at all. */
  lemma {:induction false} AdmittedSlot(keyOf: Tree -> Key, entries: Entries, tree: Tree, whole: bool, receipts: seq<Record>, debris: Debris, cut: nat)
    requires !Resolves(entries, keyOf(tree))
    ensures var after := Perform(keyOf, entries, Act.Admit(tree, whole, receipts, debris), cut);
            && (cut >= 6 ==> keyOf(tree) in after && after[keyOf(tree)] == Slot(true, Some(tree), true, if whole then receipts else []))
            && (Resolves(after, keyOf(tree)) ==> after[keyOf(tree)].receipts == if whole then receipts else [])
            && (cut == 0 ==> after == entries)
  {}

  /** A reap takes the claim first, and finished leaves no tree; it never touches the receipts or another entry. */
  lemma {:induction false} ReapedSlot(keyOf: Tree -> Key, entries: Entries, key: Key, debris: Debris, cut: nat)
    requires key in entries
    ensures var after := Perform(keyOf, entries, Act.Reap(key, debris), cut);
            && after.Keys == entries.Keys && after[key].receipts == entries[key].receipts
            && (cut >= 1 ==> !after[key].marker)
            && (cut <= 1 ==> after[key].tree == entries[key].tree)
            && (cut >= 3 ==> after[key].tree.None?)
            && forall k :: k in entries && k != key ==> after[k] == entries[k]
  {}

  /** The store as the methods act on it. */
  class Store {
    var entries: Entries

    constructor ()
      ensures entries == map[]
    {
      entries := map[];
    }

    /** admit, with the process dying once its budget of steps is spent. */
    method AdmitTree(keyOf: Tree -> Key, tree: Tree, whole: bool, receipts: seq<Record>, debris: Debris, budget: nat)
      modifies this
      ensures entries == Perform(keyOf, old(entries), Act.Admit(tree, whole, receipts, debris), budget)
    {
      var key := keyOf(tree);
      ghost var was := entries;
      ghost var trace := AdmitTrace(was, key, tree, whole, receipts, debris);
      var left := budget;
      if key in entries && entries[key].marker { return; }
      if left == 0 { return; }
      if key in entries {
        entries := entries[key := Wreck(debris)];
        left := left - 1;
        if left == 0 { return; }
      }
      entries := entries - {key};
      ghost var cleared := was - {key};
      assert entries == cleared;
      left := left - 1;
      if left == 0 { return; }
      if !whole {
        entries := entries[key := Slot(false, None, false, [])];
        left := left - 1;
        if left == 0 { return; }
      }
      var moved := Slot(false, Some(tree), false, if whole then receipts else []);
      entries := entries[key := moved];
      assert entries == cleared[key := moved];
      left := left - 1;
      if left == 0 { return; }
      entries := entries[key := entries[key].(frozen := true)];
      assert entries == cleared[key := moved.(frozen := true)];
      left := left - 1;
      if left == 0 { return; }
      entries := entries[key := entries[key].(marker := true)];
      assert entries == cleared[key := moved.(frozen := true, marker := true)];
    }

    /** reapEntry, likewise. */
    method ReapEntry(keyOf: Tree -> Key, key: Key, debris: Debris, budget: nat)
      modifies this
      ensures entries == Perform(keyOf, old(entries), Act.Reap(key, debris), budget)
    {
      ghost var was := entries;
      if key !in entries || budget == 0 { return; }
      entries := entries[key := entries[key].(marker := false)];
      if budget == 1 { return; }
      entries := entries[key := entries[key].(tree := debris.tree, frozen := debris.frozen)];
      assert entries == was[key := was[key].(marker := false, tree := debris.tree, frozen := debris.frozen)];
      if budget == 2 { return; }
      entries := entries[key := entries[key].(tree := None)];
      assert entries == was[key := was[key].(marker := false, tree := None, frozen := debris.frozen)];
    }

    /** EntryKeys: the keys of the complete entries. */
    method EntryKeys() returns (keys: set<Key>)
      ensures forall k :: k in keys <==> Resolves(entries, k)
    {
      keys := {};
      var todo := entries.Keys;
      while todo != {}
        invariant todo <= entries.Keys
        invariant forall k :: k in keys <==> k !in todo && Resolves(entries, k)
        decreases todo
      {
        var k :| k in todo;
        if entries[k].marker { keys := keys + {k}; }
        todo := todo - {k};
      }
    }
  }
}
