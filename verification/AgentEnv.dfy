/** internal/agentenv/agentenv.go: overlaying variable assignments and removals onto an environ list. */
module AgentEnv {
  import opened Values

  datatype Var = Var(key: string, value: string, unset: bool)

  /** The key half of a "KEY=VALUE" entry; an entry without "=" is a bare key. */
  function EnvKey(kv: string): string {
    if kv == "" || kv[0] == '=' then "" else [kv[0]] + EnvKey(kv[1..])
  }

  method EnvKeyOf(kv: string) returns (key: string)
    ensures key == EnvKey(kv)
  {
    for i := 0 to |kv|
      invariant EnvKey(kv) == kv[..i] + EnvKey(kv[i..])
    {
      if kv[i] == '=' {
        return kv[..i];
      }
      assert kv[i..][1..] == kv[i + 1..];
      assert kv[..i] + [kv[i]] == kv[..i + 1];
    }
    assert kv[..|kv|] == kv;
    key := kv;
  }

  lemma {:induction false} EnvKeyOfAssignment(key: string, value: string)
    requires '=' !in key
    ensures EnvKey(key + "=" + value) == key
  {
    var kv := key + "=" + value;
    if key != "" {
      assert kv[1..] == key[1..] + "=" + value;
      EnvKeyOfAssignment(key[1..], value);
    }
  }

  /** The key is what stands before the first "=", or all of an entry without one. */
  lemma {:induction false} EnvKeyMeans(kv: string)
    ensures '=' !in EnvKey(kv) && EnvKey(kv) <= kv
    ensures EnvKey(kv) != kv ==> kv[|EnvKey(kv)|] == '='
  {
    if kv != "" && kv[0] != '=' {
      EnvKeyMeans(kv[1..]);
      assert kv == [kv[0]] + kv[1..];
    }
  }

  // ---------------------------------------------------------------- the map the list stands for

  /** The last inherited entry for a key. */
  function Inherited(environ: seq<string>, k: string): Option<string> {
    if environ == [] then None
    else
      var n := |environ| - 1;
      if EnvKey(environ[n]) == k then Some(environ[n]) else Inherited(environ[..n], k)
  }

  /** What a key is finally set to: the last variable naming it decides, else what was inherited. */
  function Outcome(environ: seq<string>, vars: seq<Var>, k: string): Option<string> {
    if vars == [] then Inherited(environ, k)
    else
      var n := |vars| - 1;
      if vars[n].key != k then Outcome(environ, vars[..n], k)
      else if vars[n].unset then None
      else Some(k + "=" + vars[n].value)
  }

  function Without(keys: seq<string>, k: string): seq<string> {
    if keys == [] then []
    else if keys[0] == k then Without(keys[1..], k)
    else [keys[0]] + Without(keys[1..], k)
  }

  /** The inherited keys in the order of their first entries. */
  function InheritedKeys(environ: seq<string>): seq<string> {
    if environ == [] then []
    else
      var n := |environ| - 1;
      var before, k := InheritedKeys(environ[..n]), EnvKey(environ[n]);
      if k in before then before else before + [k]
  }

  /** The set keys in list order: an update keeps its place, a removal frees it, a new key appends. */
  function KeysAfter(environ: seq<string>, vars: seq<Var>): seq<string> {
    if vars == [] then InheritedKeys(environ)
    else
      var n := |vars| - 1;
      var before, v := KeysAfter(environ, vars[..n]), vars[n];
      if v.unset then Without(before, v.key)
      else if v.key in before then before
      else before + [v.key]
  }

  /** Some variable removed a key that was set. */
  predicate Removes(environ: seq<string>, vars: seq<Var>) {
    vars != [] &&
    var n := |vars| - 1;
    Removes(environ, vars[..n]) || (vars[n].unset && vars[n].key in KeysAfter(environ, vars[..n]))
  }

  predicate Distinct(keys: seq<string>) {
    forall i, j :: 0 <= i < j < |keys| ==> keys[i] != keys[j]
  }

  lemma {:induction false} WithoutMembers(keys: seq<string>, k: string)
    ensures forall x :: x in Without(keys, k) <==> x in keys && x != k
    ensures k !in keys ==> Without(keys, k) == keys
    ensures Distinct(keys) ==> Distinct(Without(keys, k))
  {
    if keys != [] {
      WithoutMembers(keys[1..], k);
      assert forall x :: x in keys <==> x == keys[0] || x in keys[1..];
      if Distinct(keys) {
        forall i | 0 <= i < |keys[1..]| ensures keys[1..][i] != keys[0] {
          assert keys[i + 1] != keys[0];
        }
        assert keys[0] !in Without(keys[1..], k);
      }
    }
  }

  lemma {:induction false} WithoutAppend(a: seq<string>, b: seq<string>, k: string)
    ensures Without(a + b, k) == Without(a, k) + Without(b, k)
  {
    if a == [] {
      assert a + b == b;
    } else {
      assert (a + b)[1..] == a[1..] + b;
      WithoutAppend(a[1..], b, k);
    }
  }

  /** The list's keys are distinct, and are exactly the keys the outcome sets. */
  lemma {:induction false} KeysAreOutcomes(environ: seq<string>, vars: seq<Var>)
    ensures Distinct(KeysAfter(environ, vars))
    ensures forall k :: k in KeysAfter(environ, vars) <==> Outcome(environ, vars, k).Some?
    decreases |vars|, |environ|
  {
    if vars != [] {
      KeysAreOutcomes(environ, vars[..|vars| - 1]);
      WithoutMembers(KeysAfter(environ, vars[..|vars| - 1]), vars[|vars| - 1].key);
    } else if environ != [] {
      var n := |environ| - 1;
      KeysAreOutcomes(environ[..n], []);
      assert KeysAfter(environ[..n], []) == InheritedKeys(environ[..n]);
      forall k ensures Outcome(environ[..n], [], k) == Inherited(environ[..n], k) {}
    }
  }

  /** The entries of the keys, in order. */
  function Spell(environ: seq<string>, vars: seq<Var>): (out: seq<string>)
    ensures |out| == |KeysAfter(environ, vars)|
  {
    KeysAreOutcomes(environ, vars);
    var keys := KeysAfter(environ, vars);
    seq(|keys|, i requires 0 <= i < |keys| && keys[i] in keys => Outcome(environ, vars, keys[i]).value)
  }

  function NonEmpty(entries: seq<string>): seq<string> {
    if entries == [] then []
    else (if entries[0] == "" then [] else [entries[0]]) + NonEmpty(entries[1..])
  }

  // ---------------------------------------------------------------- the slots of the working list

  /** The keys of the slots still in use. */
  function InUse(slots: seq<Option<string>>): seq<string> {
    if slots == [] then []
    else (if slots[0].Some? then [slots[0].value] else []) + InUse(slots[1..])
  }

  lemma {:induction false} InUseAppend(a: seq<Option<string>>, b: seq<Option<string>>)
    ensures InUse(a + b) == InUse(a) + InUse(b)
  {
    if a == [] {
      assert a + b == b;
    } else {
      assert (a + b)[1..] == a[1..] + b;
      InUseAppend(a[1..], b);
    }
  }

  lemma {:induction false} InUseMembers(slots: seq<Option<string>>)
    ensures forall k :: k in InUse(slots) <==> Some(k) in slots
  {
    if slots != [] {
      InUseMembers(slots[1..]);
      assert forall s :: s in slots <==> s == slots[0] || s in slots[1..];
    }
  }

  /** Freeing the one slot of a key takes the key out, and nothing else. */
  lemma {:induction false} FreeSlot(slots: seq<Option<string>>, i: nat, k: string)
    requires i < |slots| && slots[i] == Some(k)
    requires forall j :: 0 <= j < |slots| && slots[j] == Some(k) ==> j == i
    ensures InUse(slots[i := None]) == Without(InUse(slots), k)
  {
    var before, after := slots[..i], slots[i + 1..];
    assert slots == before + [slots[i]] + after;
    assert slots[i := None] == before + [None] + after;
    InUseAppend(before + [slots[i]], after);
    InUseAppend(before, [slots[i]]);
    InUseAppend(before + [None], after);
    InUseAppend(before, [None]);
    InUseMembers(before);
    InUseMembers(after);
    WithoutAppend(InUse(before) + [k], InUse(after), k);
    WithoutAppend(InUse(before), [k], k);
    WithoutMembers(InUse(before), k);
    WithoutMembers(InUse(after), k);
    assert Without([k], k) == [];
    assert InUse([slots[i]]) == [k] && InUse([None]) == [];
  }

  function Entries(keys: seq<string>, entry: string -> string): seq<string> {
    seq(|keys|, i requires 0 <= i < |keys| => entry(keys[i]))
  }

  lemma {:induction false} EntriesCons(k: string, keys: seq<string>, entry: string -> string)
    ensures Entries([k] + keys, entry) == [entry(k)] + Entries(keys, entry)
  {}

  /** A working list spells what its slots in use spell, up to emptied slots. */
  lemma {:induction false} SlotsSpell(out: seq<string>, slots: seq<Option<string>>, entry: string -> string)
    requires |out| == |slots|
    requires forall i :: 0 <= i < |out| ==> out[i] == if slots[i].Some? then entry(slots[i].value) else ""
    ensures NonEmpty(out) == NonEmpty(Entries(InUse(slots), entry))
    ensures None !in slots ==> out == Entries(InUse(slots), entry)
  {
    if out != [] {
      SlotsSpell(out[1..], slots[1..], entry);
      assert out == [out[0]] + out[1..];
      assert None !in slots ==> None !in slots[1..] && slots[0].Some?;
      if slots[0].Some? {
        EntriesCons(slots[0].value, InUse(slots[1..]), entry);
        NonEmptyCons(out[0], out[1..]);
        NonEmptyCons(out[0], Entries(InUse(slots[1..]), entry));
      } else {
        assert slots[0] in slots && InUse(slots) == InUse(slots[1..]);
        NonEmptyCons(out[0], out[1..]);
      }
    }
  }

  lemma {:induction false} NonEmptyCons(first: string, rest: seq<string>)
    ensures NonEmpty([first] + rest) == (if first == "" then [] else [first]) + NonEmpty(rest)
  {
    assert ([first] + rest)[1..] == rest;
  }

  // ---------------------------------------------------------------- Apply

  /** One slot per key: idx sends each key in use to the slot that holds it. */
  ghost predicate Indexed(slots: seq<Option<string>>, idx: map<string, nat>) {
    && (forall k :: k in idx ==> idx[k] < |slots| && slots[idx[k]] == Some(k))
    && (forall i :: 0 <= i < |slots| && slots[i].Some? ==> slots[i].value in idx && idx[slots[i].value] == i)
  }

  /** The working list holds the outcome so far of the key each slot is for. */
  ghost predicate Holds(out: seq<string>, slots: seq<Option<string>>, environ: seq<string>, vars: seq<Var>) {
    && |out| == |slots| && InUse(slots) == KeysAfter(environ, vars)
    && forall i :: 0 <= i < |out| ==> SlotHolds(environ, vars, slots[i], out[i])
  }

  ghost predicate SlotHolds(environ: seq<string>, vars: seq<Var>, slot: Option<string>, text: string) {
    if slot.Some? then Outcome(environ, vars, slot.value) == Some(text) else text == ""
  }

  /** A variable leaves the other keys' slots alone, and says what its own key's slot holds. */
  lemma {:induction false} SlotStep(environ: seq<string>, vars: seq<Var>, n: nat, slot: Option<string>, text: string)
    requires n < |vars|
    ensures slot != Some(vars[n].key) ==> (SlotHolds(environ, vars[..n], slot, text) <==> SlotHolds(environ, vars[..n + 1], slot, text))
    ensures !vars[n].unset ==> SlotHolds(environ, vars[..n + 1], Some(vars[n].key), vars[n].key + "=" + vars[n].value)
  {
    OverlayStep(environ, vars, n, vars[n]);
  }

  ghost predicate HoldsInherited(out: seq<string>, slots: seq<Option<string>>, environ: seq<string>) {
    && |out| == |slots| && InUse(slots) == InheritedKeys(environ)
    && forall i :: 0 <= i < |out| && slots[i].Some? ==> Inherited(environ, slots[i].value) == Some(out[i])
  }

  /** The first loop: one slot per inherited key, the last entry for it winning in place. */
  method Inherit(environ: seq<string>) returns (out: seq<string>, idx: map<string, nat>, ghost slots: seq<Option<string>>)
    ensures Indexed(slots, idx) && None !in slots && Holds(out, slots, environ, [])
  {
    idx, out, slots := map[], [], [];
    assert environ[..0] == [];
    for n := 0 to |environ|
      invariant Indexed(slots, idx) && None !in slots && HoldsInherited(out, slots, environ[..n])
    {
      var kv := environ[n];
      var k := EnvKeyOf(kv);
      if k in idx {
        InheritAgain(out, slots, idx, environ, n, k);
        out := out[idx[k] := kv];
      } else {
        InheritNew(out, slots, idx, environ, n, k);
        IndexedAfterNew(slots, idx, k);
        idx := idx[k := |out|];
        out := out + [kv];
        slots := slots + [Some(k)];
      }
    }
    assert environ[..|environ|] == environ;
  }

  lemma {:induction false} InheritAgain(out: seq<string>, slots: seq<Option<string>>, idx: map<string, nat>, environ: seq<string>, n: nat, k: string)
    requires n < |environ| && k == EnvKey(environ[n]) && k in idx
    requires Indexed(slots, idx) && HoldsInherited(out, slots, environ[..n])
    ensures HoldsInherited(out[idx[k] := environ[n]], slots, environ[..n + 1])
  {
    var out' := out[idx[k] := environ[n]];
    InheritStep(environ, n, k);
    assert InUse(slots) == InheritedKeys(environ[..n + 1]) by {
      SlotLookup(slots, idx, k);
    }
    forall i | 0 <= i < |out'| && slots[i].Some? ensures Inherited(environ[..n + 1], slots[i].value) == Some(out'[i]) {
      assert i != idx[k] ==> slots[i].value != k;
    }
  }

  lemma {:induction false} InheritNew(out: seq<string>, slots: seq<Option<string>>, idx: map<string, nat>, environ: seq<string>, n: nat, k: string)
    requires n < |environ| && k == EnvKey(environ[n]) && k !in idx
    requires Indexed(slots, idx) && HoldsInherited(out, slots, environ[..n])
    ensures HoldsInherited(out + [environ[n]], slots + [Some(k)], environ[..n + 1])
  {
    var out', slots' := out + [environ[n]], slots + [Some(k)];
    InheritStep(environ, n, k);
    assert InUse(slots') == InheritedKeys(environ[..n + 1]) by {
      SlotLookup(slots, idx, k);
      InUseAppend(slots, [Some(k)]);
    }
    forall i | 0 <= i < |out'| && slots'[i].Some? ensures Inherited(environ[..n + 1], slots'[i].value) == Some(out'[i]) {
      assert i < |out| ==> slots[i].value != k;
    }
  }

  lemma {:induction false} InheritStep(environ: seq<string>, n: nat, k: string)
    requires n < |environ| && k == EnvKey(environ[n])
    ensures InheritedKeys(environ[..n + 1]) ==
              if k in InheritedKeys(environ[..n]) then InheritedKeys(environ[..n]) else InheritedKeys(environ[..n]) + [k]
    ensures Inherited(environ[..n + 1], k) == Some(environ[n])
    ensures forall x :: x != k ==> Inherited(environ[..n + 1], x) == Inherited(environ[..n], x)
  {
    assert environ[..n + 1][..n] == environ[..n];
  }

  lemma {:induction false} SlotLookup(slots: seq<Option<string>>, idx: map<string, nat>, k: string)
    requires Indexed(slots, idx)
    ensures k in idx <==> k in InUse(slots)
  {
    InUseMembers(slots);
    if k in idx { assert slots[idx[k]] in slots; }
  }

  lemma {:induction false} OverlayStep(environ: seq<string>, vars: seq<Var>, n: nat, v: Var)
    requires n < |vars| && v == vars[n]
    ensures KeysAfter(environ, vars[..n + 1]) ==
              if v.unset then Without(KeysAfter(environ, vars[..n]), v.key)
              else if v.key in KeysAfter(environ, vars[..n]) then KeysAfter(environ, vars[..n])
              else KeysAfter(environ, vars[..n]) + [v.key]
    ensures Removes(environ, vars[..n + 1]) ==
              (Removes(environ, vars[..n]) || (v.unset && v.key in KeysAfter(environ, vars[..n])))
    ensures forall x: string :: x != v.key ==> Outcome(environ, vars[..n + 1], x) == Outcome(environ, vars[..n], x)
    ensures Outcome(environ, vars[..n + 1], v.key) == if v.unset then None else Some(v.key + "=" + v.value)
  {
    assert vars[..n + 1][..n] == vars[..n];
  }

  /** Freeing the slot of a removed key. */
  lemma {:induction false} IndexedAfterRemoval(slots: seq<Option<string>>, idx: map<string, nat>, k: string)
    requires Indexed(slots, idx) && k in idx
    ensures Indexed(slots[idx[k] := None], idx - {k})
  {}

  lemma {:induction false} HoldsAfterRemoval(out: seq<string>, slots: seq<Option<string>>, idx: map<string, nat>,
                          environ: seq<string>, vars: seq<Var>, n: nat)
    requires n < |vars| && vars[n].unset && vars[n].key in idx
    requires Indexed(slots, idx) && Holds(out, slots, environ, vars[..n])
    ensures Holds(out[idx[vars[n].key] := ""], slots[idx[vars[n].key] := None], environ, vars[..n + 1])
  {
    var i := idx[vars[n].key];
    var out', slots' := out[i := ""], slots[i := None];
    assert InUse(slots') == KeysAfter(environ, vars[..n + 1]) by {
      FreeSlot(slots, i, vars[n].key);
      OverlayStep(environ, vars, n, vars[n]);
    }
    forall j | 0 <= j < |out'| ensures SlotHolds(environ, vars[..n + 1], slots'[j], out'[j]) {
      SlotStep(environ, vars, n, slots'[j], out'[j]);
      assert j != i && slots[j].Some? ==> slots[j].value != vars[n].key;
    }
  }

  /** Writing a variable to its key's slot. */
  lemma {:induction false} HoldsAfterUpdate(out: seq<string>, slots: seq<Option<string>>, idx: map<string, nat>,
                         environ: seq<string>, vars: seq<Var>, n: nat)
    requires n < |vars| && !vars[n].unset && vars[n].key in idx
    requires Indexed(slots, idx) && Holds(out, slots, environ, vars[..n])
    ensures Holds(out[idx[vars[n].key] := vars[n].key + "=" + vars[n].value], slots, environ, vars[..n + 1])
  {
    var k := vars[n].key;
    var out' := out[idx[k] := k + "=" + vars[n].value];
    assert InUse(slots) == KeysAfter(environ, vars[..n + 1]) by {
      OverlayStep(environ, vars, n, vars[n]);
      SlotLookup(slots, idx, k);
    }
    forall j | 0 <= j < |out'| ensures SlotHolds(environ, vars[..n + 1], slots[j], out'[j]) {
      SlotStep(environ, vars, n, slots[j], out'[j]);
      assert j != idx[k] && slots[j].Some? ==> slots[j].value != k;
    }
  }

  /** A new slot at the end, for a key that has none. */
  lemma {:induction false} IndexedAfterNew(slots: seq<Option<string>>, idx: map<string, nat>, k: string)
    requires Indexed(slots, idx) && k !in idx
    ensures Indexed(slots + [Some(k)], idx[k := |slots|])
  {
    assert forall i :: 0 <= i < |slots| && slots[i].Some? ==> slots[i].value != k;
  }

  /** Writing a variable to a new slot at the end. */
  lemma {:induction false} HoldsAfterNew(out: seq<string>, slots: seq<Option<string>>, idx: map<string, nat>,
                      environ: seq<string>, vars: seq<Var>, n: nat)
    requires n < |vars| && !vars[n].unset && vars[n].key !in idx
    requires Indexed(slots, idx) && Holds(out, slots, environ, vars[..n])
    ensures Holds(out + [vars[n].key + "=" + vars[n].value], slots + [Some(vars[n].key)], environ, vars[..n + 1])
  {
    var k := vars[n].key;
    var out', slots' := out + [k + "=" + vars[n].value], slots + [Some(k)];
    assert InUse(slots') == KeysAfter(environ, vars[..n + 1]) by {
      OverlayStep(environ, vars, n, vars[n]);
      SlotLookup(slots, idx, k);
      InUseAppend(slots, [Some(k)]);
    }
    forall j | 0 <= j < |out'| ensures SlotHolds(environ, vars[..n + 1], slots'[j], out'[j]) {
      SlotStep(environ, vars, n, slots'[j], out'[j]);
      assert j < |out| && slots[j].Some? ==> slots[j].value != k;
    }
  }

  /** Apply: an overlay updates in place, a removal frees its slot, and freed slots are compacted. */
  method Apply(environ: seq<string>, vars: seq<Var>) returns (r: seq<string>)
    ensures r == if Removes(environ, vars) then NonEmpty(Spell(environ, vars)) else Spell(environ, vars)
  {
    var out: seq<string>, idx: map<string, nat>;
    ghost var slots;
    out, idx, slots := Inherit(environ);
    var removed := false;
    assert vars[..0] == [];
    for n := 0 to |vars|
      invariant Indexed(slots, idx) && Holds(out, slots, environ, vars[..n])
      invariant removed == Removes(environ, vars[..n]) && (!removed ==> None !in slots)
    {
      var v := vars[n];
      OverlayStep(environ, vars, n, v);
      SlotLookup(slots, idx, v.key);
      if v.unset {
        if v.key in idx {
          IndexedAfterRemoval(slots, idx, v.key);
          HoldsAfterRemoval(out, slots, idx, environ, vars, n);
          out := out[idx[v.key] := ""];
          slots := slots[idx[v.key] := None];
          idx := idx - {v.key};
          removed := true;
        } else {
          WithoutMembers(KeysAfter(environ, vars[..n]), v.key);
        }
      } else {
        var kv := v.key + "=" + v.value;
        OverlayStep(environ, vars, n, v);
        if v.key in idx {
          HoldsAfterUpdate(out, slots, idx, environ, vars, n);
          out := out[idx[v.key] := kv];
        } else {
          HoldsAfterNew(out, slots, idx, environ, vars, n);
          IndexedAfterNew(slots, idx, v.key);
          idx := idx[v.key := |out|];
          out := out + [kv];
          slots := slots + [Some(v.key)];
        }
      }
    }
    assert vars[..|vars|] == vars;
    SpellsSlots(out, slots, environ, vars);
    if !removed {
      return out;
    }
    r := Compact(out);
  }

  method Compact(out: seq<string>) returns (r: seq<string>)
    ensures r == NonEmpty(out)
  {
    r := [];
    for i := 0 to |out|
      invariant NonEmpty(out) == r + NonEmpty(out[i..])
    {
      CompactOne(out, i);
      if out[i] != "" { r := r + [out[i]]; }
    }
  }

  lemma {:induction false} CompactOne(out: seq<string>, i: nat)
    requires i < |out|
    ensures NonEmpty(out[i..]) == (if out[i] != "" then [out[i]] else []) + NonEmpty(out[i + 1..])
  {
    assert out[i..][0] == out[i] && out[i..][1..] == out[i + 1..];
  }

  lemma {:induction false} SpellsSlots(out: seq<string>, slots: seq<Option<string>>, environ: seq<string>, vars: seq<Var>)
    requires Holds(out, slots, environ, vars)
    ensures NonEmpty(out) == NonEmpty(Spell(environ, vars))
    ensures None !in slots ==> out == Spell(environ, vars)
  {
    KeysAreOutcomes(environ, vars);
    var entry := (k: string) => if Outcome(environ, vars, k).Some? then Outcome(environ, vars, k).value else "";
    SlotsSpell(out, slots, entry);
    var keys := InUse(slots);
    forall i | 0 <= i < |keys| ensures Spell(environ, vars)[i] == entry(keys[i]) {
      assert keys[i] in KeysAfter(environ, vars);
    }
    assert Spell(environ, vars) == Entries(InUse(slots), entry);
  }

  // ---------------------------------------------------------------- what the list means

  /** What a process environment gives Apply: entries that are not empty, variables with a name. */
  predicate WellNamed(environ: seq<string>, vars: seq<Var>) {
    "" !in environ && forall i :: 0 <= i < |vars| ==> vars[i].key != "" && '=' !in vars[i].key
  }

  lemma {:induction false} InheritedHasItsKey(environ: seq<string>, k: string)
    ensures Inherited(environ, k).Some? ==> Inherited(environ, k).value in environ && EnvKey(Inherited(environ, k).value) == k
  {
    if environ != [] { InheritedHasItsKey(environ[..|environ| - 1], k); }
  }

  lemma {:induction false} OutcomeHasItsKey(environ: seq<string>, vars: seq<Var>, k: string)
    requires WellNamed(environ, vars)
    ensures Outcome(environ, vars, k).Some? ==> Outcome(environ, vars, k).value != "" && EnvKey(Outcome(environ, vars, k).value) == k
    decreases |vars|
  {
    if vars == [] {
      InheritedHasItsKey(environ, k);
    } else {
      OutcomeHasItsKey(environ, vars[..|vars| - 1], k);
      if vars[|vars| - 1].key == k { EnvKeyOfAssignment(k, vars[|vars| - 1].value); }
    }
  }

  lemma {:induction false} NoneEmpty(entries: seq<string>)
    requires "" !in entries
    ensures NonEmpty(entries) == entries
  {
    if entries != [] { NoneEmpty(entries[1..]); }
  }

  lemma {:induction false} SpelledInOrder(environ: seq<string>, vars: seq<Var>, i: nat)
    requires WellNamed(environ, vars) && i < |KeysAfter(environ, vars)|
    ensures |Spell(environ, vars)| == |KeysAfter(environ, vars)|
    ensures Spell(environ, vars)[i] != "" && EnvKey(Spell(environ, vars)[i]) == KeysAfter(environ, vars)[i]
    ensures Outcome(environ, vars, KeysAfter(environ, vars)[i]) == Some(Spell(environ, vars)[i])
  {
    KeysAreOutcomes(environ, vars);
    assert KeysAfter(environ, vars)[i] in KeysAfter(environ, vars);
    OutcomeHasItsKey(environ, vars, KeysAfter(environ, vars)[i]);
  }

  lemma {:induction false} NothingToCompact(environ: seq<string>, vars: seq<Var>)
    requires WellNamed(environ, vars)
    ensures NonEmpty(Spell(environ, vars)) == Spell(environ, vars)
  {
    forall i | 0 <= i < |KeysAfter(environ, vars)| ensures Spell(environ, vars)[i] != "" { SpelledInOrder(environ, vars, i); }
    NoneEmpty(Spell(environ, vars));
  }

  /** The list Apply returns is the map: its keys are distinct, a key is listed exactly when its outcome
      is set, and the entry listed for it is that outcome. */
  lemma {:induction false} ApplyRefinesMap(environ: seq<string>, vars: seq<Var>, r: seq<string>)
    requires WellNamed(environ, vars)
    requires r == if Removes(environ, vars) then NonEmpty(Spell(environ, vars)) else Spell(environ, vars)
    ensures forall i, j :: 0 <= i < j < |r| ==> EnvKey(r[i]) != EnvKey(r[j])
    ensures forall k, kv :: Outcome(environ, vars, k) == Some(kv) <==> kv in r && EnvKey(kv) == k
    ensures |r| == |KeysAfter(environ, vars)| && forall i :: 0 <= i < |r| ==> EnvKey(r[i]) == KeysAfter(environ, vars)[i]
  {
    NothingToCompact(environ, vars);
    KeysAreOutcomes(environ, vars);
    forall i | 0 <= i < |r|
      ensures EnvKey(r[i]) == KeysAfter(environ, vars)[i] && Outcome(environ, vars, KeysAfter(environ, vars)[i]) == Some(r[i])
    {
      SpelledInOrder(environ, vars, i);
    }
    forall k, kv ensures Outcome(environ, vars, k) == Some(kv) <==> kv in r && EnvKey(kv) == k {
      ListedIffOutcome(environ, vars, r, k, kv);
    }
  }

  lemma {:induction false} ListedIffOutcome(environ: seq<string>, vars: seq<Var>, r: seq<string>, k: string, kv: string)
    requires WellNamed(environ, vars) && r == Spell(environ, vars)
    ensures Outcome(environ, vars, k) == Some(kv) <==> kv in r && EnvKey(kv) == k
  {
    KeysAreOutcomes(environ, vars);
    if Outcome(environ, vars, k) == Some(kv) {
      var i :| 0 <= i < |KeysAfter(environ, vars)| && KeysAfter(environ, vars)[i] == k;
      SpelledInOrder(environ, vars, i);
    }
    if kv in r && EnvKey(kv) == k {
      var i :| 0 <= i < |r| && r[i] == kv;
      SpelledInOrder(environ, vars, i);
    }
  }

  /** The variable at n unsets a name that is set when its turn comes. */
  predicate TakesOut(environ: seq<string>, vars: seq<Var>, n: nat) {
    n < |vars| && vars[n].unset && Outcome(environ, vars[..n], vars[n].key).Some?
  }

  lemma {:induction false} TakesOutBefore(environ: seq<string>, vars: seq<Var>, m: nat, n: nat)
    requires n < m <= |vars|
    ensures TakesOut(environ, vars[..m], n) <==> TakesOut(environ, vars, n)
  {
    assert vars[..m][..n] == vars[..n];
  }

  /** The list is compacted, and its empty entries go, exactly when some variable takes a name out. */
  lemma {:induction false} RemovesIff(environ: seq<string>, vars: seq<Var>)
    ensures Removes(environ, vars) <==> exists n: nat :: TakesOut(environ, vars, n)
    decreases |vars|
  {
    if vars != [] {
      var m := |vars| - 1;
      RemovesIff(environ, vars[..m]);
      KeysAreOutcomes(environ, vars[..m]);
      if n: nat :| TakesOut(environ, vars, n) {
        if n < m { TakesOutBefore(environ, vars, m, n); }
      }
      if n: nat :| TakesOut(environ, vars[..m], n) { TakesOutBefore(environ, vars, m, n); }
      if Removes(environ, vars) && !Removes(environ, vars[..m]) { assert TakesOut(environ, vars, m); }
    }
  }

  /** Position i is the last variable of a name. */
  predicate LastNamed(vars: seq<Var>, k: string, i: nat) {
    i < |vars| && vars[i].key == k && forall j :: i < j < |vars| ==> vars[j].key != k
  }

  lemma {:induction false} OutcomeIsLast(environ: seq<string>, vars: seq<Var>, k: string, i: nat)
    requires LastNamed(vars, k, i)
    ensures Outcome(environ, vars, k) == if vars[i].unset then None else Some(k + "=" + vars[i].value)
    decreases |vars|
  {
    if i < |vars| - 1 { OutcomeIsLast(environ, vars[..|vars| - 1], k, i); }
  }

  lemma {:induction false} OutcomeUnnamed(environ: seq<string>, vars: seq<Var>, k: string)
    requires forall i :: 0 <= i < |vars| ==> vars[i].key != k
    ensures Outcome(environ, vars, k) == Inherited(environ, k)
    decreases |vars|
  {
    if vars != [] { OutcomeUnnamed(environ, vars[..|vars| - 1], k); }
  }

  lemma {:induction false} InheritedIsLast(environ: seq<string>, k: string, i: nat)
    requires i < |environ| && EnvKey(environ[i]) == k && forall j :: i < j < |environ| ==> EnvKey(environ[j]) != k
    ensures Inherited(environ, k) == Some(environ[i])
  {
    if i < |environ| - 1 { InheritedIsLast(environ[..|environ| - 1], k, i); }
  }

  /** What the list says of a name, by the arguments alone: the last variable of the name sets it or takes it out. */
  lemma {:induction false} LastVariableDecides(environ: seq<string>, vars: seq<Var>, r: seq<string>, i: nat, kv: string)
    requires WellNamed(environ, vars) && i < |vars| && LastNamed(vars, vars[i].key, i)
    requires r == if Removes(environ, vars) then NonEmpty(Spell(environ, vars)) else Spell(environ, vars)
    ensures kv in r && EnvKey(kv) == vars[i].key <==> !vars[i].unset && kv == vars[i].key + "=" + vars[i].value
  {
    OutcomeIsLast(environ, vars, vars[i].key, i);
    ApplyRefinesMap(environ, vars, r);
    assert Outcome(environ, vars, vars[i].key) == Some(kv) <==> kv in r && EnvKey(kv) == vars[i].key;
  }

  /** And a name no variable has keeps the last entry inherited for it, as it was. */
  lemma {:induction false} UnnamedIsInherited(environ: seq<string>, vars: seq<Var>, r: seq<string>, i: nat, kv: string)
    requires WellNamed(environ, vars) && i < |environ|
    requires forall j :: 0 <= j < |vars| ==> vars[j].key != EnvKey(environ[i])
    requires forall j :: i < j < |environ| ==> EnvKey(environ[j]) != EnvKey(environ[i])
    requires r == if Removes(environ, vars) then NonEmpty(Spell(environ, vars)) else Spell(environ, vars)
    ensures kv in r && EnvKey(kv) == EnvKey(environ[i]) <==> kv == environ[i]
  {
    OutcomeUnnamed(environ, vars, EnvKey(environ[i]));
    InheritedIsLast(environ, EnvKey(environ[i]), i);
    ApplyRefinesMap(environ, vars, r);
    assert Outcome(environ, vars, EnvKey(environ[i])) == Some(kv) <==> kv in r && EnvKey(kv) == EnvKey(environ[i]);
  }

  predicate Named(vars: seq<Var>, k: string) {
    exists i :: 0 <= i < |vars| && vars[i].key == k
  }

  predicate EverUnset(vars: seq<Var>, k: string) {
    exists i :: 0 <= i < |vars| && vars[i].unset && vars[i].key == k
  }

  /** The keys of a list no variable ever unsets, in list order. */
  function NeverUnset(keys: seq<string>, vars: seq<Var>): seq<string> {
    if keys == [] then []
    else (if EverUnset(vars, keys[0]) then [] else [keys[0]]) + NeverUnset(keys[1..], vars)
  }

  lemma {:induction false} EverUnsetStep(vars: seq<Var>, v: Var, k: string)
    ensures EverUnset(vars + [v], k) <==> EverUnset(vars, k) || (v.unset && v.key == k)
  {
    if EverUnset(vars, k) {
      var i :| 0 <= i < |vars| && vars[i].unset && vars[i].key == k;
      assert (vars + [v])[i] == vars[i];
    }
    if v.unset && v.key == k { assert (vars + [v])[|vars|] == v; }
  }

  lemma {:induction false} NeverUnsetStep(keys: seq<string>, vars: seq<Var>, v: Var)
    ensures NeverUnset(keys, vars + [v]) == if v.unset then Without(NeverUnset(keys, vars), v.key) else NeverUnset(keys, vars)
  {
    if keys != [] {
      NeverUnsetStep(keys[1..], vars, v);
      EverUnsetStep(vars, v, keys[0]);
      var one := if EverUnset(vars, keys[0]) then [] else [keys[0]];
      WithoutAppend(one, NeverUnset(keys[1..], vars), v.key);
      assert Without(one, v.key) == if keys[0] == v.key then [] else one;
    }
  }

  /** Inherited keys that are never unset come first and keep their order, whatever is set, removed or
      set again around them; every other key was appended behind them. */
  lemma {:induction false} InheritedOrderKept(environ: seq<string>, vars: seq<Var>) returns (appended: seq<string>)
    ensures KeysAfter(environ, vars) == NeverUnset(InheritedKeys(environ), vars) + appended
    ensures forall k :: k in appended ==> Named(vars, k)
    decreases |vars|
  {
    if vars == [] {
      NothingUnset(InheritedKeys(environ));
      appended := [];
    } else {
      var n := |vars| - 1;
      var before := InheritedOrderKept(environ, vars[..n]);
      appended := if vars[n].unset then Without(before, vars[n].key)
                  else if vars[n].key in KeysAfter(environ, vars[..n]) then before else before + [vars[n].key];
      WithoutMembers(before, vars[n].key);
      KeysStay(environ, vars, before, appended);
      forall k | k in appended ensures Named(vars, k) {
        assert k in before || k == vars[n].key;
        NamedGrows(vars, k);
      }
    }
  }

  lemma {:induction false} NamedGrows(vars: seq<Var>, k: string)
    requires vars != [] && (Named(vars[..|vars| - 1], k) || vars[|vars| - 1].key == k)
    ensures Named(vars, k)
  {
    if Named(vars[..|vars| - 1], k) {
      var i :| 0 <= i < |vars| - 1 && vars[..|vars| - 1][i].key == k;
      assert vars[i].key == k;
    }
  }

  lemma {:induction false} KeysStay(environ: seq<string>, vars: seq<Var>, before: seq<string>, appended: seq<string>)
    requires vars != []
    requires var upto, v := vars[..|vars| - 1], vars[|vars| - 1];
             && KeysAfter(environ, upto) == NeverUnset(InheritedKeys(environ), upto) + before
             && appended == if v.unset then Without(before, v.key)
                            else if v.key in KeysAfter(environ, upto) then before else before + [v.key]
    ensures KeysAfter(environ, vars) == NeverUnset(InheritedKeys(environ), vars) + appended
  {
    var upto, v := vars[..|vars| - 1], vars[|vars| - 1];
    var stay := NeverUnset(InheritedKeys(environ), upto);
    assert upto + [v] == vars;
    NeverUnsetStep(InheritedKeys(environ), upto, v);
    if v.unset {
      WithoutAppend(stay, before, v.key);
    } else {
      assert stay + (before + [v.key]) == (stay + before) + [v.key];
    }
  }

  lemma {:induction false} NothingUnset(keys: seq<string>)
    ensures NeverUnset(keys, []) == keys
  {
    if keys != [] { NothingUnset(keys[1..]); }
  }
}
