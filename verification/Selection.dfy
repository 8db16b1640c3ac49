/** internal/agentcfg/selection.go: the edge-triggered apply of a computed selection onto a file the
    agent also writes. */
module Selection {
  import opened Values

  predicate IsScalar(v: Option<Value>) {
    v.Some? && v.value.Leaf?
  }

  /** Numbers compare by value, whatever width their decoder gave them. */
  function Normal(v: Option<Value>): Option<Value> {
    match v
    case Some(Leaf(Whole(n))) => Some(Leaf(Decimal(Float64(n))))
    case Some(Leaf(Machine(i))) => Some(Leaf(Decimal(Float64(i))))
    case _ => v
  }

  /** sameScalar; an absent record reads as a null. */
  predicate Same(a: Option<Value>, b: Option<Value>) {
    var x, y := Normal(a), Normal(b);
    (if x.None? then Some(Null) else x) == (if y.None? then Some(Null) else y)
  }

  /** What the apply decides for one key: the value to lift, if any, and the record to keep. */
  datatype Decision = Decision(lift: Option<Value>, record: Option<Value>)

  function Decide(selected: Option<Value>, cur: Option<Value>, wrote: Option<Value>): Decision {
    if selected.None? then
      Decision(if IsScalar(cur) then cur else None, wrote)
    else if cur.None? then
      Decision(selected, selected)
    else if Same(cur, wrote) then
      if !Same(cur, selected) then Decision(selected, selected) else Decision(cur, wrote)
    else if wrote.Some? && !Same(wrote, selected) then
      Decision(selected, selected)
    else
      Decision(if IsScalar(cur) then cur else None, wrote)
  }

  function DecideKey(selection: Table, file: Table, record: Table, k: string): Decision {
    Decide(At(selection, k), At(file, k), At(record, k))
  }

  function LiftOf(selection: Table, file: Table, record: Table): Table {
    map k | k in selection.Keys + record.Keys && DecideKey(selection, file, record, k).lift.Some?
      :: DecideKey(selection, file, record, k).lift.value
  }

  function RecordOf(selection: Table, file: Table, record: Table): Table {
    map k | k in selection.Keys + record.Keys && DecideKey(selection, file, record, k).record.Some?
      :: DecideKey(selection, file, record, k).record.value
  }

  /** Midway: a key still to do is as it was, and one done is as it was decided. */
  ghost predicate AppliedAt(selection: Table, file: Table, record: Table, lift: Table, next: Table, todo: set<string>, k: string) {
    if k in selection.Keys + record.Keys && k !in todo then
      var d := DecideKey(selection, file, record, k);
      At(lift, k) == d.lift && At(next, k) == d.record
    else At(lift, k) == None && At(next, k) == At(record, k)
  }

  /** ApplySelection: every key the selection names or the record remembers is decided. */
  method ApplySelection(selection: Table, file: Table, record: Table) returns (lift: Table, next: Table)
    ensures lift == LiftOf(selection, file, record)
    ensures next == RecordOf(selection, file, record)
  {
    lift, next := map[], record;
    var todo := selection.Keys + record.Keys;
    while todo != {}
      invariant todo <= selection.Keys + record.Keys
      invariant forall j :: AppliedAt(selection, file, record, lift, next, todo, j)
      decreases todo
    {
      var k :| k in todo;
      var lifted, written := ApplyKey(selection, file, record, k);
      ghost var lift0, next0, todo0 := lift, next, todo;
      if lifted.Some? { lift := lift[k := lifted.value]; }
      if written.Some? { next := next[k := written.value]; }
      todo := todo - {k};
      forall j ensures AppliedAt(selection, file, record, lift, next, todo, j) {
        assert AppliedAt(selection, file, record, lift0, next0, todo0, j);
      }
    }
    forall j ensures At(lift, j) == At(LiftOf(selection, file, record), j) && At(next, j) == At(RecordOf(selection, file, record), j) {
      assert AppliedAt(selection, file, record, lift, next, {}, j);
      DecidedAt(selection, file, record, j);
    }
    SameTable(lift, LiftOf(selection, file, record));
    SameTable(next, RecordOf(selection, file, record));
  }

  /** The switch of the loop: what one key lifts, and what is written to its record, if anything is. */
  method ApplyKey(selection: Table, file: Table, record: Table, k: string) returns (lifted: Option<Value>, written: Option<Value>)
    ensures lifted == DecideKey(selection, file, record, k).lift
    ensures (if written.Some? then written else At(record, k)) == DecideKey(selection, file, record, k).record
  {
    lifted, written := None, None;
    if k !in selection {
      if k in file && file[k].Leaf? { lifted := Some(file[k]); }
    } else if k !in file {
      lifted, written := Some(selection[k]), Some(selection[k]);
    } else if Same(Some(file[k]), At(record, k)) {
      if !Same(Some(file[k]), Some(selection[k])) {
        lifted, written := Some(selection[k]), Some(selection[k]);
      } else {
        lifted := Some(file[k]);
      }
    } else if k in record && !Same(Some(record[k]), Some(selection[k])) {
      lifted, written := Some(selection[k]), Some(selection[k]);
    } else if file[k].Leaf? {
      lifted := Some(file[k]);
    }
  }

  predicate IsNumber(v: Value) {
    v.Leaf? && (v.scalar.Whole? || v.scalar.Machine? || v.scalar.Decimal?)
  }

  /** The number a scalar stands for. */
  function Amount(v: Value): real
    requires IsNumber(v)
  {
    match v.scalar
    case Whole(n) => Float64(n)
    case Machine(i) => Float64(i)
    case Decimal(r) => r
  }

  /** Two numbers are one choice when their float64 values are; nothing else is but what is equal, and an absent
      record is a null one. */
  lemma {:induction false} SameMeans(a: Option<Value>, b: Option<Value>)
    ensures a.Some? && b.Some? && IsNumber(a.value) && IsNumber(b.value) ==> (Same(a, b) <==> Amount(a.value) == Amount(b.value))
    ensures a.Some? && b.Some? && !(IsNumber(a.value) && IsNumber(b.value)) ==> (Same(a, b) <==> a == b)
    ensures a.Some? && b.None? ==> (Same(a, b) <==> a == Some(Null)) && (Same(b, a) <==> a == Some(Null))
    ensures a.None? && b.None? ==> Same(a, b)
  {}

  /** The table of the decision: a key absent from the file is activated; one that holds what was last written
      moves with the selection; one the user changed stands, unless the selection has moved; one no longer
      selected stands; and a file's value that is no scalar is not lifted. */
  lemma {:induction false} DecisionTable(selection: Table, file: Table, record: Table, k: string)
    ensures var lift, next := LiftOf(selection, file, record), RecordOf(selection, file, record);
            var V, cur, wrote := At(selection, k), At(file, k), At(record, k);
            && (V.Some? && cur.None? ==> At(lift, k) == V && At(next, k) == V)
            && (V.Some? && cur.Some? && Same(cur, wrote) && !Same(cur, V) ==> At(lift, k) == V && At(next, k) == V)
            && (V.Some? && cur.Some? && Same(cur, wrote) && Same(cur, V) ==> At(lift, k) == cur && At(next, k) == wrote)
            && (V.Some? && cur.Some? && !Same(cur, wrote) && wrote.Some? && !Same(wrote, V) ==> At(lift, k) == V && At(next, k) == V)
            && (V.Some? && cur.Some? && !Same(cur, wrote) && (wrote.None? || Same(wrote, V)) ==>
                  At(lift, k) == (if cur.value.Leaf? then cur else None) && At(next, k) == wrote)
            && (V.None? && wrote.Some? ==> At(lift, k) == (if cur.Some? && cur.value.Leaf? then cur else None) && At(next, k) == wrote)
            && (V.None? && wrote.None? ==> At(lift, k) == None && At(next, k) == None)
  {
    DecidedAt(selection, file, record, k);
  }

  /** A boot takes a scalar the file holds and puts another in its place. */
  predicate Overwrites(selection: Table, file: Table, record: Table, k: string) {
    IsScalar(At(file, k)) && k in LiftOf(selection, file, record) && At(LiftOf(selection, file, record), k) != At(file, k)
  }

  /** The trigger is an edge, in both directions: a scalar of the file is replaced exactly when the
      selected value has moved off the recorded one and is not what the file already holds. */
  lemma {:induction false} OverwritesIff(selection: Table, file: Table, record: Table, k: string)
    ensures Overwrites(selection, file, record, k) <==>
              && IsScalar(At(file, k)) && k in selection && At(selection, k) != At(file, k)
              && k in record && !Same(At(record, k), At(selection, k))
  {}

  /** A key the selection stopped naming is never cleared: what scalar it has is what it keeps. */
  lemma {:induction false} DeselectedKeyStands(selection: Table, file: Table, record: Table, k: string)
    requires k in record && k !in selection
    ensures At(RecordOf(selection, file, record), k) == At(record, k)
    ensures At(LiftOf(selection, file, record), k) == if IsScalar(At(file, k)) then At(file, k) else None
  {}

  lemma {:induction false} DecideTwice(selected: Option<Value>, cur: Option<Value>, wrote: Option<Value>)
    ensures var d := Decide(selected, cur, wrote);
            Decide(selected, if d.lift.Some? then d.lift else cur, d.record) == d
  {}

  lemma {:induction false} DecidedAt(selection: Table, file: Table, record: Table, k: string)
    ensures var d := DecideKey(selection, file, record, k);
            && At(LiftOf(selection, file, record), k) == (if k in selection || k in record then d.lift else None)
            && At(RecordOf(selection, file, record), k) == d.record
  {}

  /** Re-running over the file the lift wrote, with no edit between, moves nothing. */
  lemma {:induction false} RerunIsStable(selection: Table, file: Table, record: Table)
    ensures var lift, next := LiftOf(selection, file, record), RecordOf(selection, file, record);
            LiftOf(selection, file + lift, next) == lift && RecordOf(selection, file + lift, next) == next
  {
    var lift, next := LiftOf(selection, file, record), RecordOf(selection, file, record);
    forall k
      ensures At(LiftOf(selection, file + lift, next), k) == At(lift, k)
      ensures At(RecordOf(selection, file + lift, next), k) == At(next, k)
    {
      assert At(file + lift, k) == if At(lift, k).Some? then At(lift, k) else At(file, k);
      DecidedAt(selection, file, record, k);
      DecidedAt(selection, file + lift, next, k);
      DecideTwice(At(selection, k), At(file, k), At(record, k));
    }
    SameTable(LiftOf(selection, file + lift, next), lift);
    SameTable(RecordOf(selection, file + lift, next), next);
  }

  // ---------------------------------------------------------------- runs of boots

  /** What one boot is given: the selection of the day and the file as the user left it. */
  datatype Boot = Boot(selection: Table, file: Table)

  /** The record after a run of boots over any files and selections. */
  function RecordAfter(boots: seq<Boot>): Table {
    if boots == [] then map[]
    else
      var last := boots[|boots| - 1];
      RecordOf(last.selection, last.file, RecordAfter(boots[..|boots| - 1]))
  }

  /** Boot i of a run overwrites a scalar the user's file held. */
  predicate OverwritesAt(boots: seq<Boot>, i: nat, k: string)
    requires i < |boots|
  {
    Overwrites(boots[i].selection, boots[i].file, RecordAfter(boots[..i]), k)
  }

  /** Whatever is recorded was once selected. */
  lemma {:induction false} RecordWasSelected(boots: seq<Boot>, k: string) returns (j: nat)
    requires k in RecordAfter(boots)
    ensures j < |boots| && At(boots[j].selection, k) == At(RecordAfter(boots), k)
    decreases |boots|
  {
    var n := |boots| - 1;
    var before := boots[..n];
    var d := DecideKey(boots[n].selection, boots[n].file, RecordAfter(before), k);
    assert d.record == At(RecordAfter(boots), k);
    if d.record == At(boots[n].selection, k) {
      j := n;
    } else {
      j := RecordWasSelected(before, k);
      assert forall i :: 0 <= i < n ==> before[i] == boots[i];
    }
  }

  /** Across any run of boots, edits and selections, a scalar the user's file holds is overwritten only
      when the selection has changed since an earlier boot selected the value on record. */
  lemma {:induction false} OverwriteNeedsNewSelection(boots: seq<Boot>, i: nat, k: string) returns (j: nat)
    requires i < |boots| && OverwritesAt(boots, i, k)
    ensures j < i && k in boots[j].selection && k in boots[i].selection
    ensures !Same(At(boots[j].selection, k), At(boots[i].selection, k))
  {
    OverwritesIff(boots[i].selection, boots[i].file, RecordAfter(boots[..i]), k);
    j := RecordWasSelected(boots[..i], k);
  }

  /** So once a selection has had one boot and stays, no scalar a later file holds is ever overwritten. */
  lemma {:induction false} ConstantSelectionNeverOverwrites(boots: seq<Boot>, first: nat, i: nat, k: string)
    requires first < i < |boots|
    requires forall j :: first <= j <= i ==> boots[j].selection == boots[i].selection
    ensures !OverwritesAt(boots, i, k)
  {
    if k in boots[i].selection {
      RecordSettles(boots, first, i, k);
    }
    OverwritesIff(boots[i].selection, boots[i].file, RecordAfter(boots[..i]), k);
  }

  /** From its first boot on, a constant selection is the recorded value of each key it names, or the
      key is one yolo never wrote. */
  lemma {:induction false} RecordSettles(boots: seq<Boot>, first: nat, i: nat, k: string)
    requires first < i <= |boots|
    requires forall j :: first <= j < i ==> At(boots[j].selection, k) == At(boots[first].selection, k)
    requires k in boots[first].selection
    ensures k in RecordAfter(boots[..i]) ==> Same(At(RecordAfter(boots[..i]), k), At(boots[first].selection, k))
    decreases i
  {
    assert boots[..i][..i - 1] == boots[..i - 1];
    assert boots[..i][i - 1] == boots[i - 1];
    var d := DecideKey(boots[i - 1].selection, boots[i - 1].file, RecordAfter(boots[..i - 1]), k);
    assert At(RecordAfter(boots[..i]), k) == d.record;
    if i - 1 > first { RecordSettles(boots, first, i - 1, k); }
  }
}
