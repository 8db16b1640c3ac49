/** Captured edits survive regeneration: what one boot does to a file the user edited, key by key, and
    what whole runs of edits and boots keep. */
module Survival {
  import opened Values
  import opened Engine
  import opened Enforce
  import opened LiteralNull
  import opened Narrow
  import opened Reading
  import opened Writing
  import opened Compose
  import opened StateRender
  import opened BootRuns

  /** The new render r keeps the edit that turned the last render l into the file c: every leaf of the
      file stands, and every key the user removed stays away. Keys neither side had may appear. */
  ghost predicate Preserves(l: Option<Value>, c: Option<Value>, r: Option<Value>)
    decreases c.Some?, if c.Some? then c.value else Null
  {
    if !IsObject(c) then r == c
    else
      && IsObject(r)
      && (forall k :: k in Fields(c) ==> Preserves(Child(l, k), Child(c, k), Child(r, k)))
      && (forall k :: k in Fields(l) && k !in Fields(c) ==> Child(r, k).None?)
  }

  lemma {:induction false} LookupOfNothing(path: Path)
    ensures Lookup(None, path).None?
    decreases |path|
  {
    if path != [] { LookupOfNothing(path[1..]); }
  }

  /** A leaf of the edited file is a leaf of the new render. */
  lemma {:induction false} PreservesLeaves(l: Option<Value>, c: Option<Value>, r: Option<Value>, path: Path)
    requires Preserves(l, c, r) && IsLeaf(Lookup(c, path))
    ensures Lookup(r, path) == Lookup(c, path)
    decreases |path|
  {
    if path != [] {
      if path[0] !in Fields(c) {
        LookupOfNothing(path[1..]);
      } else if IsObject(c) {
        PreservesLeaves(Child(l, path[0]), Child(c, path[0]), Child(r, path[0]), path[1..]);
      }
    }
  }

  /** A path the user removed is absent from the new render. */
  lemma {:induction false} PreservesRemovals(l: Option<Value>, c: Option<Value>, r: Option<Value>, path: Path)
    requires Preserves(l, c, r) && Lookup(l, path).Some? && Lookup(c, path).None?
    ensures Lookup(r, path).None?
    decreases |path|
  {
    if path != [] {
      var k, rest := path[0], path[1..];
      if !IsObject(c) {
        AbsentBelow(c, path);
      } else if k in Fields(c) {
        PreservesRemovals(Child(l, k), Child(c, k), Child(r, k), rest);
      } else {
        LookupOfNothing(rest);
      }
    }
  }

  // ---------------------------------------------------------------- one key, no owner

  /** An unowned key's render: lower layers b, overlay entry o, literal-null mark. */
  function UnownedRender(b: Option<Value>, o: Option<Value>, mark: Option<Value>): Option<Value> {
    ReinstateAt(MergeAt(b, o), mark, [])
  }

  /** What the next boot renders for a file entry c over the last render l. */
  function AfterEdit(b: Option<Value>, o: Option<Value>, l: Option<Value>, c: Option<Value>): Option<Value> {
    UnownedRender(b, AccumulateAt(o, DiffAt(l, c)), SkeletonAt(c))
  }

  /** No stored tombstone sits where the last render shows an object. */
  ghost predicate TombstonesHold(o: Option<Value>, l: Option<Value>)
    decreases o.Some?, if o.Some? then o.value else Null
  {
    (o == Some(Null) ==> !IsObject(l)) &&
    forall k :: k in Fields(o) ==> TombstonesHold(Child(o, k), Child(l, k))
  }

  /** A file object c captured where the render showed none brings nothing up from below: neither the
      stored overlay nor the lower layers hold a key there the file does not name. */
  ghost predicate NothingBelow(b: Option<Value>, o: Option<Value>, c: Option<Value>)
    decreases c.Some?, if c.Some? then c.value else Null
  {
    IsObject(c) ==>
      forall k :: k in Fields(b).Keys + Fields(o).Keys + Fields(c).Keys ==>
        if k in Fields(c) then NothingBelow(Child(b, k), Child(o, k), Child(c, k))
        else MergeAt(Child(b, k), Child(o, k)).None?
  }

  /** The edit brings nothing up from below the captured overlay: wherever it turned a non-object of
      the last render into an object, nothing is waiting underneath. */
  ghost predicate NoBleed(b: Option<Value>, o: Option<Value>, l: Option<Value>, c: Option<Value>)
    decreases c.Some?, if c.Some? then c.value else Null
  {
    IsObject(c) ==>
      if IsObject(l) then forall k :: k in Fields(c) ==> NoBleed(Child(b, k), Child(o, k), Child(l, k), Child(c, k))
      else NothingBelow(b, o, c)
  }

  lemma {:induction false} UnownedChild(b: Option<Value>, o: Option<Value>, mark: Option<Value>, k: string)
    requires Mergeable(mark) && (IsObject(o) || (o.None? && Mergeable(b)))
    ensures Mergeable(UnownedRender(b, o, mark))
    ensures IsObject(o) || IsObject(b) ==> IsObject(UnownedRender(b, o, mark))
    ensures Child(UnownedRender(b, o, mark), k) == UnownedRender(Child(b, k), Child(o, k), Child(mark, k))
  {
    if o.Some? { MergeChild(b, o, k); }
    ReinstateEachKey(MergeAt(b, o), mark, [], k);
  }

  lemma {:induction false} NoObjectHoldsTombstones(o: Option<Value>, l: Option<Value>)
    requires !IsObject(l)
    ensures TombstonesHold(o, l)
    decreases o.Some?, if o.Some? then o.value else Null
  {
    forall k | k in Fields(o) ensures TombstonesHold(Child(o, k), Child(l, k)) {
      NoObjectHoldsTombstones(Child(o, k), Child(l, k));
    }
  }

  lemma {:induction false} MergeHoldsTombstones(b: Option<Value>, o: Option<Value>)
    ensures TombstonesHold(o, MergeAt(b, o))
    decreases o.Some?, if o.Some? then o.value else Null
  {
    forall k | k in Fields(o) ensures TombstonesHold(Child(o, k), Child(MergeAt(b, o), k)) {
      MergeChild(b, o, k);
      MergeHoldsTombstones(Child(b, k), Child(o, k));
    }
  }

  function AfterAdd(b: Option<Value>, o: Option<Value>, c: Option<Value>): Option<Value> {
    UnownedRender(b, AccumulateAt(o, c), SkeletonAt(c))
  }

  lemma {:induction false} AfterAddChild(b: Option<Value>, o: Option<Value>, c: Option<Value>, k: string)
    requires IsObject(c)
    ensures IsObject(AfterAdd(b, o, c)) && IsObject(AccumulateAt(o, c))
    ensures Child(AfterAdd(b, o, c), k) == AfterAdd(Child(b, k), Child(o, k), Child(c, k))
    ensures Child(AccumulateAt(o, c), k) == AccumulateAt(Child(o, k), Child(c, k))
  {
    if IsObject(o) { AccumulateChild(o, c, k); }
    SkeletonEachKey(c, k);
    UnownedChild(b, AccumulateAt(o, c), SkeletonAt(c), k);
  }

  /** An entry captured whole keeps every leaf of it. */
  lemma {:induction false} AddedEntrySurvives(b: Option<Value>, o: Option<Value>, c: Option<Value>)
    requires c.Some?
    ensures Preserves(None, c, AfterAdd(b, o, c))
    decreases c.Some?, if c.Some? then c.value else Null
  {
    if IsObject(c) {
      AfterAddChild(b, o, c, "");
      forall k | k in Fields(c) ensures Preserves(Child(None, k), Child(c, k), Child(AfterAdd(b, o, c), k)) {
        AfterAddChild(b, o, c, k);
        AddedEntrySurvives(Child(b, k), Child(o, k), Child(c, k));
      }
    }
  }

  /** It is rendered exactly when nothing is waiting below it. */
  lemma {:induction false} AddedEntryExact(b: Option<Value>, o: Option<Value>, c: Option<Value>)
    requires c.Some?
    ensures AfterAdd(b, o, c) == c <==> NothingBelow(b, o, c)
    decreases c.Some?, if c.Some? then c.value else Null
  {
    if IsObject(c) {
      var r := AfterAdd(b, o, c);
      AfterAddChild(b, o, c, "");
      forall k
        ensures k in Fields(c) ==> (Child(r, k) == Child(c, k) <==> NothingBelow(Child(b, k), Child(o, k), Child(c, k)))
        ensures k !in Fields(c) ==> Child(r, k) == MergeAt(Child(b, k), Child(o, k))
      {
        AfterAddChild(b, o, c, k);
        if k in Fields(c) { AddedEntryExact(Child(b, k), Child(o, k), Child(c, k)); }
      }
      if NothingBelow(b, o, c) {
        forall k ensures Child(r, k) == Child(c, k) {
          if k !in Fields(c) && k !in Fields(b).Keys + Fields(o).Keys {
            assert MergeAt(Child(b, k), Child(o, k)).None?;
          }
        }
        SameObject(r, c);
      }
    }
  }

  lemma {:induction false} AddedEntryTombstones(b: Option<Value>, o: Option<Value>, c: Option<Value>)
    ensures TombstonesHold(AccumulateAt(o, c), AfterAdd(b, o, c))
    decreases c.Some?, if c.Some? then c.value else Null
  {
    if IsObject(c) {
      AfterAddChild(b, o, c, "");
      forall k ensures TombstonesHold(Child(AccumulateAt(o, c), k), Child(AfterAdd(b, o, c), k)) {
        AfterAddChild(b, o, c, k);
        AddedEntryTombstones(Child(b, k), Child(o, k), Child(c, k));
      }
    } else if c.None? {
      MergeHoldsTombstones(b, o);
    } else {
      NoObjectHoldsTombstones(AccumulateAt(o, c), AfterAdd(b, o, c));
    }
  }

  /** Where both sides of an edit are objects, the pieces of the next render are the pieces' renders. */
  lemma {:induction false} AfterEditChild(b: Option<Value>, o: Option<Value>, s: Option<Value>, c: Option<Value>, k: string)
    requires var l := UnownedRender(b, o, s); IsObject(l) && IsObject(c) && TombstonesHold(o, l)
    ensures var l := UnownedRender(b, o, s);
            && Child(l, k) == UnownedRender(Child(b, k), Child(o, k), Child(s, k))
            && Mergeable(AfterEdit(b, o, l, c))
            && (DiffAt(l, c).Some? || IsObject(b) || IsObject(o) ==> IsObject(AfterEdit(b, o, l, c)))
            && Child(AfterEdit(b, o, l, c), k) == AfterEdit(Child(b, k), Child(o, k), Child(l, k), Child(c, k))
            && Child(AccumulateAt(o, DiffAt(l, c)), k) == AccumulateAt(Child(o, k), DiffAt(Child(l, k), Child(c, k)))
            && (AccumulateAt(o, DiffAt(l, c)).None? || IsObject(AccumulateAt(o, DiffAt(l, c))))
            && (s.None? || IsObject(s)) && (o.None? || IsObject(o)) && (o.None? ==> Mergeable(b))
  {
    var l := UnownedRender(b, o, s);
    var d := DiffAt(l, c);
    UnownedChild(b, o, s, k);
    DiffChild(l, c, k);
    if IsObject(o) && IsObject(d) { AccumulateChild(o, d, k); }
    SkeletonEachKey(c, k);
    UnownedChild(b, AccumulateAt(o, d), SkeletonAt(c), k);
  }

  lemma {:induction false} AfterEditAdds(b: Option<Value>, o: Option<Value>, l: Option<Value>, c: Option<Value>)
    requires IsObject(c) && !IsObject(l)
    ensures AfterEdit(b, o, l, c) == AfterAdd(b, o, c)
  {}

  /** A file value that is no object is rendered as it stands, and a removed key stays away. */
  lemma {:induction false} AfterLeafEdit(b: Option<Value>, o: Option<Value>, s: Option<Value>, c: Option<Value>)
    requires !IsObject(c)
    ensures AfterEdit(b, o, UnownedRender(b, o, s), c) == c
  {
    ReinstateKeepsPresence(MergeAt(b, o), s, []);
  }

  /** One edit, one boot: the next render keeps the edit. */
  lemma {:induction false} EditSurvives(b: Option<Value>, o: Option<Value>, s: Option<Value>, c: Option<Value>)
    requires TombstonesHold(o, UnownedRender(b, o, s))
    ensures Preserves(UnownedRender(b, o, s), c, AfterEdit(b, o, UnownedRender(b, o, s), c))
    decreases c.Some?, if c.Some? then c.value else Null
  {
    var l := UnownedRender(b, o, s);
    var r := AfterEdit(b, o, l, c);
    if !IsObject(c) {
      AfterLeafEdit(b, o, s, c);
    } else if !IsObject(l) {
      AfterEditAdds(b, o, l, c);
      AddedEntrySurvives(b, o, c);
      forall k ensures Child(l, k) == Child(None, k) {}
    } else {
      AfterEditChild(b, o, s, c, "");
      forall k
        ensures k in Fields(c) ==> Preserves(Child(l, k), Child(c, k), Child(r, k))
        ensures k !in Fields(c) ==> Child(r, k).None?
      {
        AfterEditChild(b, o, s, c, k);
        if k in Fields(c) {
          EditSurvives(Child(b, k), Child(o, k), Child(s, k), Child(c, k));
        } else {
          AfterLeafEdit(Child(b, k), Child(o, k), Child(s, k), None);
        }
      }
      RenderStaysObject(b, o, s, c);
    }
  }

  /** A render that was an object and is edited into an object stays one. */
  lemma {:induction false} RenderStaysObject(b: Option<Value>, o: Option<Value>, s: Option<Value>, c: Option<Value>)
    requires var l := UnownedRender(b, o, s); IsObject(l) && IsObject(c) && TombstonesHold(o, l)
    requires forall k :: k in Fields(c) ==>
               Preserves(Child(UnownedRender(b, o, s), k), Child(c, k), Child(AfterEdit(b, o, UnownedRender(b, o, s), c), k))
    ensures IsObject(AfterEdit(b, o, UnownedRender(b, o, s), c))
  {
    var l := UnownedRender(b, o, s);
    AfterEditChild(b, o, s, c, "");
    DiffEmptyIffEqual(l, c);
    ReinstateEachKey(MergeAt(b, o), s, [], "");
    if DiffAt(l, c).None? && !IsObject(b) && !IsObject(o) {
      var k :| k in Fields(c);
      assert Preserves(Child(l, k), Child(c, k), Child(AfterEdit(b, o, l, c), k));
    }
  }

  /** And it is exactly the edited value if and only if the edit uncovers nothing that was waiting
      below the captured overlay. */
  lemma {:induction false} EditExact(b: Option<Value>, o: Option<Value>, s: Option<Value>, c: Option<Value>)
    requires TombstonesHold(o, UnownedRender(b, o, s))
    ensures var l := UnownedRender(b, o, s); AfterEdit(b, o, l, c) == c <==> NoBleed(b, o, l, c)
    decreases c.Some?, if c.Some? then c.value else Null
  {
    var l := UnownedRender(b, o, s);
    var r := AfterEdit(b, o, l, c);
    if !IsObject(c) {
      AfterLeafEdit(b, o, s, c);
    } else if !IsObject(l) {
      AfterEditAdds(b, o, l, c);
      AddedEntryExact(b, o, c);
    } else {
      AfterEditChild(b, o, s, c, "");
      forall k
        ensures k in Fields(c) ==> (Child(r, k) == Child(c, k) <==> NoBleed(Child(b, k), Child(o, k), Child(l, k), Child(c, k)))
        ensures k !in Fields(c) ==> Child(r, k) == Child(c, k)
      {
        AfterEditChild(b, o, s, c, k);
        if k in Fields(c) {
          EditExact(Child(b, k), Child(o, k), Child(s, k), Child(c, k));
        } else {
          AfterLeafEdit(Child(b, k), Child(o, k), Child(s, k), None);
        }
      }
      EditSurvives(b, o, s, c);
      if NoBleed(b, o, l, c) {
        forall k ensures Child(r, k) == Child(c, k) {}
        SameObject(r, c);
      }
    }
  }

  /** The new overlay's tombstones hold over the new render, so the next edit starts as this one did. */
  lemma {:induction false} EditHoldsTombstones(b: Option<Value>, o: Option<Value>, s: Option<Value>, c: Option<Value>)
    requires TombstonesHold(o, UnownedRender(b, o, s))
    ensures var l := UnownedRender(b, o, s);
            TombstonesHold(AccumulateAt(o, DiffAt(l, c)), AfterEdit(b, o, l, c))
    decreases c.Some?, if c.Some? then c.value else Null
  {
    var l := UnownedRender(b, o, s);
    var r, o' := AfterEdit(b, o, l, c), AccumulateAt(o, DiffAt(l, c));
    if !IsObject(c) {
      AfterLeafEdit(b, o, s, c);
      NoObjectHoldsTombstones(o', r);
    } else if !IsObject(l) {
      AfterEditAdds(b, o, l, c);
      AddedEntryTombstones(b, o, c);
    } else {
      AfterEditChild(b, o, s, c, "");
      forall k ensures TombstonesHold(Child(o', k), Child(r, k)) {
        AfterEditChild(b, o, s, c, k);
        if k in Fields(c) {
          EditHoldsTombstones(Child(b, k), Child(o, k), Child(s, k), Child(c, k));
        } else {
          AfterLeafEdit(Child(b, k), Child(o, k), Child(s, k), None);
          NoObjectHoldsTombstones(Child(o', k), Child(r, k));
        }
      }
    }
  }

  /** Putting a file's own nulls back over its null-free part gives the file. */
  lemma {:induction false} StrippedReturns(c: Option<Value>)
    ensures ReinstateAt(StripNulls(c), SkeletonAt(c), []) == c
    decreases c.Some?, if c.Some? then c.value else Null
  {
    if IsObject(c) {
      var r := ReinstateAt(StripNulls(c), SkeletonAt(c), []);
      StripChild(c, "");
      SkeletonEachKey(c, "");
      ReinstateEachKey(StripNulls(c), SkeletonAt(c), [], "");
      forall k ensures Child(r, k) == Child(c, k) {
        StripChild(c, k);
        SkeletonEachKey(c, k);
        ReinstateEachKey(StripNulls(c), SkeletonAt(c), [], k);
        if k in Fields(c) { StrippedReturns(Child(c, k)); }
      }
      SameObject(r, c);
    }
  }

  /** Where objects of the delta meet only objects of the stored overlay, patches compose and the
      edited value comes back whole. */
  lemma {:induction false} ComposingEditExact(b: Option<Value>, o: Option<Value>, c: Option<Value>)
    requires NullFree(b)
    requires ObjectsMeet(o, DiffAt(MergeAt(b, o), c))
    ensures AfterEdit(b, o, MergeAt(b, o), c) == c
  {
    AccumulateLaw(b, o, DiffAt(MergeAt(b, o), c));
    MergeNullFree(b, o);
    RoundTripStripsNulls(MergeAt(b, o), c);
    StrippedReturns(c);
  }

  // ---------------------------------------------------------------- up to the kinds of numbers

  /** Preserves asks about shape and leaves, and rereading keeps the one and maps the other. */
  lemma {:induction false} PreservesReread(c: Codec, l: Option<Value>, f: Option<Value>, r: Option<Value>)
    requires Preserves(l, f, r)
    ensures Preserves(RereadAt(c, l), RereadAt(c, f), RereadAt(c, r))
    decreases f.Some?, if f.Some? then f.value else Null
  {
    RereadChild(c, l, "");
    RereadChild(c, f, "");
    RereadChild(c, r, "");
    if IsObject(f) {
      forall k
        ensures k in Fields(f) ==> Preserves(Child(RereadAt(c, l), k), Child(RereadAt(c, f), k), Child(RereadAt(c, r), k))
        ensures k in Fields(l) && k !in Fields(f) ==> Child(RereadAt(c, r), k).None?
      {
        RereadChild(c, l, k);
        RereadChild(c, f, k);
        RereadChild(c, r, k);
        if k in Fields(f) { PreservesReread(c, Child(l, k), Child(f, k), Child(r, k)); }
      }
    }
  }

  /** A render that preserves the file and has only its keys is the file, so sameness there is equality. */
  lemma {:induction false} PreservedSameIsEqual(l: Option<Value>, f: Option<Value>, r: Option<Value>)
    requires Preserves(l, f, r) && Same(r, f)
    ensures r == f
    decreases f.Some?, if f.Some? then f.value else Null
  {
    if IsObject(f) {
      forall k ensures Child(r, k) == Child(f, k) {
        RereadChild(Json, f, k);
        RereadChild(Json, r, k);
        if k in Fields(f) {
          PreservedSameIsEqual(Child(l, k), Child(f, k), Child(r, k));
        } else {
          assert RereadAt(Json, Child(r, k)) == None;
        }
      }
      SameObject(r, f);
    }
  }

  lemma {:induction false} TombstonesReread(o: Option<Value>, l: Option<Value>, o': Option<Value>, l': Option<Value>)
    requires Same(o, o') && Same(l, l') && TombstonesHold(o, l)
    ensures TombstonesHold(o', l')
    decreases o'.Some?, if o'.Some? then o'.value else Null
  {
    RereadChild(Json, l, "");
    RereadChild(Json, l', "");
    forall k | k in Fields(o') ensures TombstonesHold(Child(o', k), Child(l', k)) {
      RereadChild(Json, o, k);
      RereadChild(Json, o', k);
      RereadChild(Json, l, k);
      RereadChild(Json, l', k);
      assert k in Fields(o);
      TombstonesReread(Child(o, k), Child(l, k), Child(o', k), Child(l', k));
    }
  }

  lemma {:induction false} NothingBelowReread(c: Codec, b: Option<Value>, o: Option<Value>, f: Option<Value>)
    ensures NothingBelow(RereadAt(c, b), RereadAt(c, o), f) <==> NothingBelow(b, o, f)
    decreases f.Some?, if f.Some? then f.value else Null
  {
    if IsObject(f) {
      forall k
        ensures k in Fields(f) ==> (NothingBelow(Child(RereadAt(c, b), k), Child(RereadAt(c, o), k), Child(f, k)) <==> NothingBelow(Child(b, k), Child(o, k), Child(f, k)))
        ensures MergeAt(Child(RereadAt(c, b), k), Child(RereadAt(c, o), k)).None? <==> MergeAt(Child(b, k), Child(o, k)).None?
        ensures k in Fields(RereadAt(c, b)).Keys + Fields(RereadAt(c, o)).Keys + Fields(f).Keys <==> k in Fields(b).Keys + Fields(o).Keys + Fields(f).Keys
      {
        RereadChild(c, b, k);
        RereadChild(c, o, k);
        RereadMerge(c, Child(b, k), Child(o, k));
        if k in Fields(f) { NothingBelowReread(c, Child(b, k), Child(o, k), Child(f, k)); }
      }
    }
  }

  lemma {:induction false} NoBleedReread(c: Codec, b: Option<Value>, o: Option<Value>, l: Option<Value>, f: Option<Value>)
    ensures NoBleed(RereadAt(c, b), RereadAt(c, o), l, f) <==> NoBleed(b, o, l, f)
    decreases f.Some?, if f.Some? then f.value else Null
  {
    if IsObject(f) {
      if IsObject(l) {
        forall k | k in Fields(f)
          ensures NoBleed(Child(RereadAt(c, b), k), Child(RereadAt(c, o), k), Child(l, k), Child(f, k)) <==> NoBleed(Child(b, k), Child(o, k), Child(l, k), Child(f, k))
        {
          RereadChild(c, b, k);
          RereadChild(c, o, k);
          NoBleedReread(c, Child(b, k), Child(o, k), Child(l, k), Child(f, k));
        }
      } else {
        NothingBelowReread(c, b, o, f);
      }
    }
  }

  /** The next boot reads the stored entry through JSON and the baseline through the surface's codec. What it
      renders is, to JSON, what it would have rendered had the layers and the entry been read as the baseline was. */
  lemma {:induction false} AfterEditReread(c: Codec, b: Option<Value>, o: Option<Value>, l: Option<Value>, f: Option<Value>)
    ensures Same(AfterEdit(b, RereadAt(Json, o), l, f), AfterEdit(RereadAt(c, b), RereadAt(c, o), l, f))
    ensures Same(AccumulateAt(RereadAt(Json, o), DiffAt(l, f)), AccumulateAt(RereadAt(c, o), DiffAt(l, f)))
  {
    var d := DiffAt(l, f);
    var one, two := AccumulateAt(RereadAt(Json, o), d), AccumulateAt(RereadAt(c, o), d);
    RereadAccumulate(Json, RereadAt(Json, o), d);
    RereadAccumulate(Json, RereadAt(c, o), d);
    JsonAfterAt(Json, o);
    JsonAfterAt(c, o);
    RereadMerge(Json, b, one);
    RereadMerge(Json, RereadAt(c, b), two);
    JsonAfterAt(c, b);
    RereadReinstate(Json, MergeAt(b, one), SkeletonAt(f), []);
    RereadReinstate(Json, MergeAt(RereadAt(c, b), two), SkeletonAt(f), []);
  }

  lemma {:induction false} UnownedReread(c: Codec, b: Option<Value>, o: Option<Value>, mark: Option<Value>)
    ensures RereadAt(c, UnownedRender(b, o, mark)) == UnownedRender(RereadAt(c, b), RereadAt(c, o), mark)
  {
    RereadMerge(c, b, o);
    RereadReinstate(c, MergeAt(b, o), mark, []);
  }

  /** What was rendered and written at one key, edited to f, and rendered again by the next boot: the edit
      survives with the same numbers, strings and tables, exactly so if and only if nothing bleeds through, and
      the new entry's tombstones hold. */
  lemma {:induction false} RereadEditSurvives(c: Codec, b: Option<Value>, o: Option<Value>, mark: Option<Value>, f: Option<Value>)
    requires TombstonesHold(o, UnownedRender(b, o, mark))
    ensures var l := RereadAt(c, UnownedRender(b, o, mark));
            var r := AfterEdit(b, RereadAt(Json, o), l, f);
            && Preserves(RereadAt(Json, l), RereadAt(Json, f), RereadAt(Json, r))
            && (Same(r, f) <==> NoBleed(b, o, l, f))
            && TombstonesHold(AccumulateAt(RereadAt(Json, o), DiffAt(l, f)), r)
  {
    var b', o' := RereadAt(c, b), RereadAt(c, o);
    var l := UnownedRender(b', o', mark);
    UnownedReread(c, b, o, mark);
    JsonAfterAt(c, o);
    JsonAfterAt(c, UnownedRender(b, o, mark));
    TombstonesReread(o, UnownedRender(b, o, mark), o', l);
    EditSurvives(b', o', mark, f);
    EditExact(b', o', mark, f);
    EditHoldsTombstones(b', o', mark, f);
    var r, r' := AfterEdit(b, RereadAt(Json, o), l, f), AfterEdit(b', o', l, f);
    AfterEditReread(c, b, o, l, f);
    PreservesReread(Json, l, f, r');
    if Same(r, f) { PreservedSameIsEqual(l, f, r'); }
    NoBleedReread(c, b, o, l, f);
    TombstonesReread(AccumulateAt(o', DiffAt(l, f)), r', AccumulateAt(RereadAt(Json, o), DiffAt(l, f)), r);
  }

  // ---------------------------------------------------------------- one boot over an edited file

  /** Neither computed nor managed mentions the key. */
  predicate NoOwner(l: Layers, k: string) {
    Child(Present(l.computed), k).None? && Child(Present(l.surface.managed), k).None?
  }

  lemma {:induction false} NoOwnerKey(l: Layers, k: string, entry: Option<Value>, mark: Option<Value>)
    requires NoOwner(l, k)
    ensures KeyConfig(l, k, entry, mark) == UnownedRender(At(Lower(l), k), entry, mark)
  {
    TablesAppend([l.computed], [l.surface.managed]);
    assert [l.computed] + [l.surface.managed] == [l.computed, l.surface.managed];
    HeldAppend(Tables([l.computed]), Tables([l.surface.managed]), k);
    SilentLayer(l.computed, k);
    SilentLayer(l.surface.managed, k);
  }

  lemma {:induction false} SilentLayer(layer: Value, k: string)
    requires Child(Present(layer), k).None?
    ensures Held(Tables([layer]), k) == []
  {}

  /** The repair took this key's entry: it held the value the surface's own default has replaced. */
  predicate Repaired(l: Layers, disk: Disk, k: string)
    requires Foldable(l.computed)
  {
    k in Decided(l, disk) && Rejects(l.surface, k, Decided(l, disk)[k])
  }

  /** What a boot keeps of, and renders for, a key nothing outranks. */
  lemma {:induction false} NoOwnerBoot(l: Layers, disk: Disk, k: string)
    requires Tabular(l) && NoOwner(l, k)
    ensures var entry := if Repaired(l, disk, k) then None else At(Decided(l, disk), k);
            && At(Narrowed(l, Decided(l, disk)), k) == entry
            && (At(Kept(l, disk), k) == entry || At(Kept(l, disk), k) == None)
            && Child(Some(ConfigOf(l, Object(Kept(l, disk)), FileMarks(l, disk))), k)
               == UnownedRender(At(Lower(l), k), entry, At(FileMarks(l, disk), k))
  {
    NarrowedAt(l, Decided(l, disk), k);
    RetireInvisible(l, FileMarks(l, disk), Narrowed(l, Decided(l, disk)));
    ConfigByKey(l, Object(Narrowed(l, Decided(l, disk))), FileMarks(l, disk), k);
    NoOwnerKey(l, k, At(Narrowed(l, Decided(l, disk)), k), At(FileMarks(l, disk), k));
  }

  /** Every stored tombstone still hides what it deleted from the last render. */
  ghost predicate Holding(l: Layers, overlay: Table, marks: Table) {
    forall k :: NoOwner(l, k) ==>
      TombstonesHold(At(overlay, k), UnownedRender(At(Lower(l), k), At(overlay, k), At(marks, k)))
  }

  /** A key the repair took: the file held the rejected value itself, the overlay lets go of it, and where
      nothing outranks the overlay the lower layers render. */
  ghost predicate FellBack(l: Layers, k: string, kept: Table, file: Option<Value>, render: Option<Value>) {
    && file.Some? && Rejects(l.surface, k, file.value) && k !in kept
    && (NoOwner(l, k) ==> render == At(Lower(l), k))
  }

  lemma {:induction false} RepairedFallsBack(l: Layers, disk: Disk, overlay: Table, marks: Table, edit: FileContent, k: string)
    requires Rendered(l, disk, overlay, marks) && Captures(l, disk, edit) && Repaired(l, Edited(disk, edit), k)
    ensures var next := Edited(disk, edit);
            FellBack(l, k, Kept(l, next), At(Read(l, edit).value, k), Child(Some(ConfigOf(l, Object(Kept(l, next)), FileMarks(l, next))), k))
  {
    var next := Edited(disk, edit);
    TrustedBaseline(l, disk, overlay, marks, k);
    RepairedWasEdited(l, disk, overlay, marks, edit, k);
    NarrowedAt(l, Decided(l, next), k);
    if NoOwner(l, k) {
      NoOwnerBoot(l, next, k);
      SkeletonTableAt(Read(l, edit).value, k);
    }
  }

  /** A settled overlay holds no rejected value, so what a boot repairs is what the user just wrote. */
  lemma {:induction false} RepairedWasEdited(l: Layers, disk: Disk, overlay: Table, marks: Table, edit: FileContent, k: string)
    requires Rendered(l, disk, overlay, marks) && Captures(l, disk, edit) && Repaired(l, Edited(disk, edit), k)
    ensures var file := At(Read(l, edit).value, k); file.Some? && file.value.Leaf? && Rejects(l.surface, k, file.value)
  {
    var next := Edited(disk, edit);
    TrustedBaseline(l, disk, overlay, marks, k);
    RestoredAt(overlay, k);
    CapturedAt(Restored(overlay), Read(l, disk.lastRender).value, Read(l, edit).value, k);
    RestoredSettled(l, overlay, k);
    var v := Decided(l, next)[k];
    assert v.Leaf? && Decided(l, next) == Captured(Restored(overlay), Read(l, disk.lastRender).value, Read(l, edit).value);
    LeafCaptured(At(Restored(overlay), k), At(Read(l, disk.lastRender).value, k), At(Read(l, edit).value, k), v);
  }

  /** A captured leaf was in the overlay, or is what the file holds. */
  lemma {:induction false} LeafCaptured(o: Option<Value>, last: Option<Value>, file: Option<Value>, v: Value)
    requires v.Leaf? && AccumulateAt(o, DiffAt(last, file)) == Some(v)
    ensures o == Some(v) || file == Some(v)
  {}

  /** A captured edit survives its boot: on every key neither computed nor managed mentions, the render keeps the
      edit, its numbers included though a stored one may change kind, and reproduces it if and only if the edit
      uncovers nothing below. Only the value a repair rejects is given up, to the lower layers. */
  lemma {:induction false} FileEditSurvives(l: Layers, disk: Disk, overlay: Table, marks: Table, edit: FileContent, k: string)
    requires Rendered(l, disk, overlay, marks) && Holding(l, overlay, marks) && Captures(l, disk, edit)
    requires NoOwner(l, k)
    ensures var next := Edited(disk, edit);
            var last, file := At(Read(l, disk.lastRender).value, k), At(Read(l, edit).value, k);
            var render := Child(Some(ConfigOf(l, Object(Kept(l, next)), FileMarks(l, next))), k);
            if Repaired(l, next, k) then FellBack(l, k, Kept(l, next), file, render)
            else && Preserves(RereadAt(Json, last), RereadAt(Json, file), RereadAt(Json, render))
                 && (Same(render, file) <==> NoBleed(At(Lower(l), k), At(overlay, k), last, file))
  {
    if Repaired(l, Edited(disk, edit), k) {
      RepairedFallsBack(l, disk, overlay, marks, edit, k);
    } else {
      EditedRender(l, disk, overlay, marks, edit, k);
      RereadEditSurvives(l.surface.codec, At(Lower(l), k), At(overlay, k), At(marks, k), At(Read(l, edit).value, k));
    }
  }

  /** The last render of a key nothing outranks, and the next one, as functions of its layers and entry. */
  lemma {:induction false} EditedRender(l: Layers, disk: Disk, overlay: Table, marks: Table, edit: FileContent, k: string)
    requires Rendered(l, disk, overlay, marks) && Captures(l, disk, edit)
    requires NoOwner(l, k) && !Repaired(l, Edited(disk, edit), k)
    ensures var next := Edited(disk, edit);
            var last := At(Read(l, disk.lastRender).value, k);
            && last == RereadAt(l.surface.codec, UnownedRender(At(Lower(l), k), At(overlay, k), At(marks, k)))
            && Child(Some(ConfigOf(l, Object(Kept(l, next)), FileMarks(l, next))), k)
               == AfterEdit(At(Lower(l), k), RereadAt(Json, At(overlay, k)), last, At(Read(l, edit).value, k))
  {
    TrustedBaseline(l, disk, overlay, marks, k);
    NoOwnerKey(l, k, At(overlay, k), At(marks, k));
    RestoredAt(overlay, k);
    CapturedAt(Restored(overlay), Read(l, disk.lastRender).value, Read(l, edit).value, k);
    SkeletonTableAt(Read(l, edit).value, k);
    NoOwnerBoot(l, Edited(disk, edit), k);
  }

  // ---------------------------------------------------------------- siblings inside an owner's table

  function Owners(c: Option<Value>, m: Option<Value>): seq<Value> {
    (if c.Some? then [c.value] else []) + (if m.Some? then [m.value] else [])
  }

  /** A key's render under the owners' own entries for it. */
  function OwnedRender(toml: bool, b: Option<Value>, o: Option<Value>, c: Option<Value>, m: Option<Value>, mark: Option<Value>)
    : Option<Value>
  {
    ReinstateAt(RenderAt(toml, b, o, c, m), mark, Owners(c, m))
  }

  function AfterOwnedEdit(toml: bool, b: Option<Value>, o: Option<Value>, c: Option<Value>, m: Option<Value>,
                          last: Option<Value>, file: Option<Value>): Option<Value>
  {
    OwnedRender(toml, b, NarrowAt(AccumulateAt(o, DiffAt(last, file)), c, m), c, m, SkeletonAt(file))
  }

  /** The path leads through tables both the owners and the file hold, with no tombstone stored above
      it, to a key no owner names. */
  ghost predicate SiblingPath(o: Option<Value>, c: Option<Value>, m: Option<Value>, last: Option<Value>, file: Option<Value>, path: Path)
    decreases |path|
  {
    if path == [] then c.None? && m.None? && TombstonesHold(o, last)
    else
      && Mergeable(o) && Mergeable(c) && Mergeable(m) && (c.Some? || m.Some?) && IsObject(last) && IsObject(file)
      && SiblingPath(Child(o, path[0]), Child(c, path[0]), Child(m, path[0]), Child(last, path[0]), Child(file, path[0]), path[1..])
  }

  lemma {:induction false} OwnersBelow(c: Option<Value>, m: Option<Value>, k: string)
    requires Mergeable(c) && Mergeable(m)
    ensures AllObjects(Owners(c, m)) && Below(Owners(c, m), k) == Owners(Child(c, k), Child(m, k))
  {
    var one, two := if c.Some? then [c.value] else [], if m.Some? then [m.value] else [];
    TablesAppend(one, two);
    HeldAppend(Tables(one), Tables(two), k);
    assert Held(Tables(one), k) == if Child(c, k).Some? then [Child(c, k).value] else [];
    assert Held(Tables(two), k) == if Child(m, k).Some? then [Child(m, k).value] else [];
  }

  lemma {:induction false} OwnedRenderChild(toml: bool, b: Option<Value>, o: Option<Value>, c: Option<Value>, m: Option<Value>, mark: Option<Value>, k: string)
    requires Mergeable(o) && Mergeable(c) && Mergeable(m) && (c.Some? || m.Some?) && Mergeable(mark)
    ensures Child(OwnedRender(toml, b, o, c, m, mark), k)
         == OwnedRender(toml, Child(b, k), Child(o, k), Child(c, k), Child(m, k), Child(mark, k))
  {
    RenderChild(toml, b, o, c, m, k);
    OwnersBelow(c, m, k);
    ReinstateEachKey(RenderAt(toml, b, o, c, m), mark, Owners(c, m), k);
  }

  lemma {:induction false} AfterOwnedEditChild(toml: bool, b: Option<Value>, o: Option<Value>, c: Option<Value>, m: Option<Value>,
                            last: Option<Value>, file: Option<Value>, k: string)
    requires Mergeable(o) && Mergeable(c) && Mergeable(m) && (c.Some? || m.Some?) && IsObject(last) && IsObject(file)
    ensures Child(AfterOwnedEdit(toml, b, o, c, m, last, file), k)
         == AfterOwnedEdit(toml, Child(b, k), Child(o, k), Child(c, k), Child(m, k), Child(last, k), Child(file, k))
  {
    var d := DiffAt(last, file);
    DiffChild(last, file, k);
    if IsObject(o) && IsObject(d) { AccumulateChild(o, d, k); }
    var captured := AccumulateAt(o, d);
    if captured.Some? { NarrowChild(captured, c, m, k); }
    SkeletonEachKey(file, k);
    OwnedRenderChild(toml, b, NarrowAt(captured, c, m), c, m, SkeletonAt(file), k);
  }

  /** A captured sibling inside an owner's table is a real edit, and survives like any other. */
  lemma {:induction false} SiblingSurvives(toml: bool, b: Option<Value>, o: Option<Value>, c: Option<Value>, m: Option<Value>,
                                           mark: Option<Value>, file: Option<Value>, path: Path)
    requires SiblingPath(o, c, m, OwnedRender(toml, b, o, c, m, mark), file, path)
    ensures var last := OwnedRender(toml, b, o, c, m, mark);
            Preserves(Lookup(last, path), Lookup(file, path), Lookup(AfterOwnedEdit(toml, b, o, c, m, last, file), path))
    decreases |path|
  {
    var last := OwnedRender(toml, b, o, c, m, mark);
    if path == [] {
      EditSurvives(b, o, mark, file);
    } else {
      var k := path[0];
      var entered := if Mergeable(mark) then mark else None;
      assert OwnedRender(toml, b, o, c, m, entered) == last;
      OwnedRenderChild(toml, b, o, c, m, entered, k);
      AfterOwnedEditChild(toml, b, o, c, m, last, file, k);
      SiblingSurvives(toml, Child(b, k), Child(o, k), Child(c, k), Child(m, k), Child(entered, k), Child(file, k), path[1..]);
    }
  }

  lemma {:induction false} KeyConfigIsOwned(l: Layers, k: string, entry: Option<Value>, mark: Option<Value>)
    requires Tabular(l)
    ensures KeyConfig(l, k, entry, mark)
         == OwnedRender(IsToml(l), At(Lower(l), k), entry, Child(Present(l.computed), k), Child(Present(l.surface.managed), k), mark)
  {
    OwnersBelow(Present(l.computed), Present(l.surface.managed), k);
    OutrankingIs(l);
    TablesAppend(if l.computed.Object? then [l.computed] else [], if l.surface.managed.Object? then [l.surface.managed] else []);
  }

  lemma {:induction false} LookupReread(c: Codec, v: Option<Value>, path: Path)
    ensures Lookup(RereadAt(c, v), path) == RereadAt(c, Lookup(v, path))
    decreases |path|
  {
    if path != [] {
      RereadChild(c, v, path[0]);
      LookupReread(c, Child(v, path[0]), path[1..]);
    }
  }

  /** Put-back nulls ask of the outranking layers only their tables. */
  lemma {:induction false} ReinstateUnderReread(d: Codec, cur: Option<Value>, mark: Option<Value>, c: Option<Value>, m: Option<Value>)
    ensures ReinstateAt(cur, mark, Owners(RereadAt(d, c), RereadAt(d, m))) == ReinstateAt(cur, mark, Owners(c, m))
    decreases mark.Some?, if mark.Some? then mark.value else Null
  {
    var held, held' := Owners(c, m), Owners(RereadAt(d, c), RereadAt(d, m));
    RereadChild(d, c, "");
    RereadChild(d, m, "");
    if IsObject(mark) && Enters(cur, held) {
      if Mergeable(c) && Mergeable(m) {
        var here, there := ReinstateAt(cur, mark, held'), ReinstateAt(cur, mark, held);
        forall k ensures Child(here, k) == Child(there, k) {
          ReinstateChild(cur, mark, held, k);
          ReinstateChild(cur, mark, held', k);
          OwnersBelow(c, m, k);
          OwnersBelow(RereadAt(d, c), RereadAt(d, m), k);
          RereadChild(d, c, k);
          RereadChild(d, m, k);
          if k in Fields(mark) { ReinstateUnderReread(d, Child(cur, k), Child(mark, k), Child(c, k), Child(m, k)); }
        }
        ReinstateChild(cur, mark, held, "");
        ReinstateChild(cur, mark, held', "");
        if IsObject(cur) {
          SameObject(here, there);
        } else {
          ReinstateHolding(cur, mark, held);
          ReinstateHolding(cur, mark, held');
          HoldingAlike(here, there);
        }
      }
    }
  }

  lemma {:induction false} OwnedReread(d: Codec, toml: bool, b: Option<Value>, o: Option<Value>, c: Option<Value>, m: Option<Value>, mark: Option<Value>)
    ensures RereadAt(d, OwnedRender(toml, b, o, c, m, mark))
         == OwnedRender(toml, RereadAt(d, b), RereadAt(d, o), RereadAt(d, c), RereadAt(d, m), mark)
  {
    RereadRender(d, toml, b, o, c, m);
    RereadReinstate(d, RenderAt(toml, b, o, c, m), mark, Owners(c, m));
    ReinstateUnderReread(d, RereadAt(d, RenderAt(toml, b, o, c, m)), mark, c, m);
  }

  lemma {:induction false} SiblingPathReread(d: Codec, o: Option<Value>, c: Option<Value>, m: Option<Value>, last: Option<Value>, file: Option<Value>, path: Path)
    requires SiblingPath(o, c, m, last, file, path)
    ensures SiblingPath(RereadAt(d, o), RereadAt(d, c), RereadAt(d, m), last, file, path)
    decreases |path|
  {
    if path == [] {
      JsonAfterAt(d, o);
      TombstonesReread(o, last, RereadAt(d, o), last);
    } else {
      RereadChild(d, o, path[0]);
      RereadChild(d, c, path[0]);
      RereadChild(d, m, path[0]);
      SiblingPathReread(d, Child(o, path[0]), Child(c, path[0]), Child(m, path[0]), Child(last, path[0]), Child(file, path[0]), path[1..]);
    }
  }

  /** As AfterEditReread, under owners. */
  lemma {:induction false} AfterOwnedEditReread(d: Codec, toml: bool, b: Option<Value>, o: Option<Value>, c: Option<Value>, m: Option<Value>,
                             last: Option<Value>, file: Option<Value>)
    ensures Same(AfterOwnedEdit(toml, b, RereadAt(Json, o), c, m, last, file),
                 AfterOwnedEdit(toml, RereadAt(d, b), RereadAt(d, o), RereadAt(d, c), RereadAt(d, m), last, file))
  {
    var c', m' := RereadAt(d, c), RereadAt(d, m);
    var one, two := AccumulateAt(RereadAt(Json, o), DiffAt(last, file)), AccumulateAt(RereadAt(d, o), DiffAt(last, file));
    AfterEditReread(d, b, o, last, file);
    NarrowReread(d, one, two, c, m);
    OwnedReread(Json, toml, b, NarrowAt(one, c, m), c, m, SkeletonAt(file));
    OwnedReread(Json, toml, RereadAt(d, b), NarrowAt(two, c', m'), c', m', SkeletonAt(file));
    JsonAfterAt(d, b);
    JsonAfterAt(d, c);
    JsonAfterAt(d, m);
  }

  lemma {:induction false} NarrowReread(d: Codec, a: Option<Value>, b: Option<Value>, c: Option<Value>, m: Option<Value>)
    requires Same(a, b)
    ensures Same(NarrowAt(a, c, m), NarrowAt(b, RereadAt(d, c), RereadAt(d, m)))
  {
    RereadDropOwned(Json, d, a, c);
    RereadDropOwned(Json, d, b, c);
    RereadDropOwned(Json, d, DropOwnedAt(a, c), m);
    RereadDropOwned(Json, d, DropOwnedAt(b, RereadAt(d, c)), m);
    RereadDropOwned(Json, d, b, RereadAt(d, c));
    RereadDropOwned(Json, d, DropOwnedAt(b, RereadAt(d, c)), RereadAt(d, m));
  }

  /** One boot over an edited file, inside a table computed or managed also writes. */
  lemma {:induction false} FileSiblingSurvives(l: Layers, disk: Disk, overlay: Table, marks: Table, edit: FileContent, k: string, path: Path)
    requires Rendered(l, disk, overlay, marks) && Captures(l, disk, edit)
    requires SiblingPath(At(overlay, k), Child(Present(l.computed), k), Child(Present(l.surface.managed), k),
                         At(Read(l, disk.lastRender).value, k), At(Read(l, edit).value, k), path)
    ensures var next := Edited(disk, edit);
            var last, file := At(Read(l, disk.lastRender).value, k), At(Read(l, edit).value, k);
            var render := Child(Some(ConfigOf(l, Object(Kept(l, next)), FileMarks(l, next))), k);
            if Repaired(l, next, k) then path == [] && FellBack(l, k, Kept(l, next), file, render) && render == At(Lower(l), k)
            else Preserves(Lookup(RereadAt(Json, last), path), Lookup(RereadAt(Json, file), path), Lookup(RereadAt(Json, render), path))
  {
    TrustedBaseline(l, disk, overlay, marks, k);
    if Repaired(l, Edited(disk, edit), k) {
      RepairedFallsBack(l, disk, overlay, marks, edit, k);
      RepairedWasEdited(l, disk, overlay, marks, edit, k);
    } else {
      OwnedKeyAfterEdit(l, disk, overlay, marks, edit, k);
      KeyConfigIsOwned(l, k, At(overlay, k), At(marks, k));
      RereadSiblingSurvives(l.surface.codec, IsToml(l), At(Lower(l), k), At(overlay, k), Child(Present(l.computed), k),
                            Child(Present(l.surface.managed), k), At(marks, k), At(Read(l, edit).value, k), path);
    }
  }

  lemma {:induction false} RereadSiblingSurvives(d: Codec, toml: bool, b: Option<Value>, o: Option<Value>, c: Option<Value>, m: Option<Value>,
                              mark: Option<Value>, file: Option<Value>, path: Path)
    requires SiblingPath(o, c, m, RereadAt(d, OwnedRender(toml, b, o, c, m, mark)), file, path)
    ensures var last := RereadAt(d, OwnedRender(toml, b, o, c, m, mark));
            var render := AfterOwnedEdit(toml, b, RereadAt(Json, o), c, m, last, file);
            Preserves(Lookup(RereadAt(Json, last), path), Lookup(RereadAt(Json, file), path), Lookup(RereadAt(Json, render), path))
  {
    var last := RereadAt(d, OwnedRender(toml, b, o, c, m, mark));
    var render' := AfterOwnedEdit(toml, RereadAt(d, b), RereadAt(d, o), RereadAt(d, c), RereadAt(d, m), last, file);
    OwnedReread(d, toml, b, o, c, m, mark);
    SiblingPathReread(d, o, c, m, last, file, path);
    SiblingSurvives(toml, RereadAt(d, b), RereadAt(d, o), RereadAt(d, c), RereadAt(d, m), mark, file, path);
    AfterOwnedEditReread(d, toml, b, o, c, m, last, file);
    PreservesReread(Json, Lookup(last, path), Lookup(file, path), Lookup(render', path));
    LookupReread(Json, last, path);
    LookupReread(Json, file, path);
    LookupReread(Json, render', path);
  }

  /** What a boot renders at a key it does not repair, whoever owns it. */
  lemma {:induction false} OwnedKeyAfterEdit(l: Layers, disk: Disk, overlay: Table, marks: Table, edit: FileContent, k: string)
    requires Rendered(l, disk, overlay, marks) && Captures(l, disk, edit) && Tabular(l)
    requires !Repaired(l, Edited(disk, edit), k)
    ensures var next := Edited(disk, edit);
            Child(Some(ConfigOf(l, Object(Kept(l, next)), FileMarks(l, next))), k) ==
              AfterOwnedEdit(IsToml(l), At(Lower(l), k), RereadAt(Json, At(overlay, k)), Child(Present(l.computed), k),
                             Child(Present(l.surface.managed), k), At(Read(l, disk.lastRender).value, k), At(Read(l, edit).value, k))
  {
    var next := Edited(disk, edit);
    RestoredAt(overlay, k);
    CapturedAt(Restored(overlay), Read(l, disk.lastRender).value, Read(l, edit).value, k);
    SkeletonTableAt(Read(l, edit).value, k);
    NarrowedAt(l, Decided(l, next), k);
    assert At(RepairSpec(l.surface, Decided(l, next)), k) == At(Decided(l, next), k);
    KeyFromNarrowed(l, next, k);
    KeyConfigIsOwned(l, k, At(Narrowed(l, Decided(l, next)), k), At(FileMarks(l, next), k));
  }

  lemma {:induction false} KeyFromNarrowed(l: Layers, disk: Disk, k: string)
    requires Tabular(l)
    ensures Child(Some(ConfigOf(l, Object(Kept(l, disk)), FileMarks(l, disk))), k)
         == KeyConfig(l, k, At(Narrowed(l, Decided(l, disk)), k), At(FileMarks(l, disk), k))
  {
    RetireInvisible(l, FileMarks(l, disk), Narrowed(l, Decided(l, disk)));
    ConfigByKey(l, Object(Narrowed(l, Decided(l, disk))), FileMarks(l, disk), k);
  }

  // ---------------------------------------------------------------- adoption

  lemma {:induction false} AdoptedAt(l: Layers, current: Table, k: string)
    requires Tabular(l) && Child(Present(l.computed), k).None?
    ensures At(PureTable(l), k) == RereadAt(l.surface.codec, KeyConfig(l, k, None, None))
    ensures At(Adopted(l, current), k) == DropNullsAt(DiffAt(At(PureTable(l), k), At(current, k)))
  {
    ConfigByKey(l, Null, map[], k);
    RereadChild(l.surface.codec, Some(ConfigOf(l, Null, map[])), k);
    ResidueAt(PureTable(l), current, l.computed, k);
  }

  lemma {:induction false} ResidueAt(pure: Table, current: Table, computed: Value, k: string)
    requires Child(Present(computed), k).None?
    ensures At(DroppedTables(DroppedNulls(Diff(pure, current)), computed), k) == DropNullsAt(DiffAt(At(pure, k), At(current, k)))
  {
    DiffChild(Some(Object(pure)), Some(Object(current)), k);
    DropNullsChild(Some(Object(Diff(pure, current))), k);
  }

  /** First migration loses nothing: a top-level key of the file that neither yolo's own render nor its
      computed layer has comes back exactly, with every literal null and empty table it held. Only the
      value a repair rejects is not taken over. */
  lemma {:induction false} AdoptionIsLossless(l: Layers, disk: Disk, k: string)
    requires Tabular(l)
    requires Read(l, disk.lastRender).None? && Read(l, disk.file).Some?
    requires Child(Some(ConfigOf(l, Null, map[])), k).None? && NoOwner(l, k)
    ensures var file := At(Read(l, disk.file).value, k);
            var render := Child(Some(ConfigOf(l, Object(Kept(l, disk)), FileMarks(l, disk))), k);
            if Repaired(l, disk, k) then file.Some? && Rejects(l.surface, k, file.value) && render.None? else render == file
  {
    var file := At(Read(l, disk.file).value, k);
    ConfigByKey(l, Null, map[], k);
    NoOwnerKey(l, k, None, None);
    AdoptedEntry(l, disk, k);
    NoOwnerBoot(l, disk, k);
    AdoptedValueReturns(file);
  }

  lemma {:induction false} AdoptedEntry(l: Layers, disk: Disk, k: string)
    requires Tabular(l) && Read(l, disk.lastRender).None? && Read(l, disk.file).Some? && Child(Present(l.computed), k).None?
    ensures var file := At(Read(l, disk.file).value, k);
            && At(Decided(l, disk), k) == DropNullsAt(DiffAt(RereadAt(l.surface.codec, KeyConfig(l, k, None, None)), file))
            && At(FileMarks(l, disk), k) == SkeletonAt(file)
  {
    AdoptedAt(l, Read(l, disk.file).value, k);
    SkeletonTableAt(Read(l, disk.file).value, k);
  }

  /** What an owner does not speak for is not dropped on its account. */
  lemma {:induction false} UnspokenKept(v: Option<Value>, m: Option<Value>, path: Path)
    requires !Speaks(m, path)
    ensures Lookup(DropOwnedAt(v, m), path) == Lookup(v, path)
    decreases |path|
  {
    if m.Some? {
      if v.Some? && v != Some(Null) {
        if IsObject(v) {
          DropOwnedChild(v, m, path[0]);
          UnspokenKept(Child(v, path[0]), Child(m, path[0]), path[1..]);
        } else {
          AbsentBelow(v, path);
          AbsentBelow(None, path);
        }
      }
    }
  }

  lemma {:induction false} NullFreeUnmarked(v: Option<Value>)
    requires NullFree(v)
    ensures SkeletonAt(v).None?
    decreases v.Some?, if v.Some? then v.value else Null
  {
    forall k | k in Fields(v) ensures SkeletonAt(Child(v, k)).None? { NullFreeUnmarked(Child(v, k)); }
  }

  lemma {:induction false} DropOwnedNullFree(v: Option<Value>, m: Option<Value>)
    requires NullFree(v)
    ensures NullFree(DropOwnedAt(v, m))
    decreases v.Some?, if v.Some? then v.value else Null
  {
    if IsObject(v) && IsObject(m) {
      forall k | k in Fields(DropOwnedAt(v, m)) ensures NullFree(Child(DropOwnedAt(v, m), k)) {
        DropOwnedChild(v, m, k);
        DropOwnedNullFree(Child(v, k), Child(m, k));
      }
    }
  }

  /** A file entry v under a TOML floor m that, over lower layers b, renders nothing of its own. */
  lemma {:induction false} VacuousFloorKeeps(b: Option<Value>, v: Option<Value>, m: Option<Value>, path: Path)
    requires NullFree(v) && EnforceTomlAt(b, m).None?
    ensures var render := RenderAt(true, b, DropOwnedAt(v, m), None, m);
            && (!Speaks(m, path) ==> Lookup(render, path) == Lookup(v, path))
            && (Lookup(m, path) == Some(Null) ==> Lookup(render, path).None?)
  {
    var entry := DropOwnedAt(v, m);
    TomlFloorHolds(MergeAt(b, entry), m, path);
    if !Speaks(m, path) {
      UnspokenKept(v, m, path);
      DropOwnedNullFree(v, m);
      if IsObject(entry) {
        MergeNullFreeIntoNothing(entry);
        assert !IsObject(b);
        forall k ensures Child(MergeAt(b, entry), k) == Child(MergeAt(None, entry), k) {
          MergeChild(b, entry, k);
          MergeChild(None, entry, k);
        }
        SameObject(MergeAt(b, entry), MergeAt(None, entry));
      } else if m.Some? {
        AbsentBelow(MergeAt(b, entry), path);
        AbsentBelow(entry, path);
      } else {
        MergeNullFreeIntoNothing(entry);
      }
    }
  }

  /** The rest of the first migration: on TOML a key managed mentions may be absent from the pure render,
      its tables all being empty. The file's entry, which as TOML holds no null, still comes back at every
      path managed does not speak for, and not at all where managed deletes. */
  lemma {:induction false} AdoptionUnderTomlFloor(l: Layers, disk: Disk, k: string, path: Path)
    requires Tabular(l) && IsToml(l) && Child(Present(l.computed), k).None?
    requires Read(l, disk.lastRender).None? && Read(l, disk.file).Some?
    requires Child(Some(ConfigOf(l, Null, map[])), k).None?
    ensures var file, managed := At(Read(l, disk.file).value, k), Child(Present(l.surface.managed), k);
            var render := Child(Some(ConfigOf(l, Object(Kept(l, disk)), FileMarks(l, disk))), k);
            if Repaired(l, disk, k) then file.Some? && Rejects(l.surface, k, file.value) && render.None?
            else && (!Speaks(managed, path) ==> Lookup(render, path) == Lookup(file, path))
                 && (Lookup(managed, path) == Some(Null) ==> Lookup(render, path).None?)
  {
    var current, m := Read(l, disk.file).value, Child(Present(l.surface.managed), k);
    var v := At(current, k);
    ConfigByKey(l, Null, map[], k);
    TomlNullFree(disk.file.value);
    assert v == Child(Some(disk.file.value), k) && (v.None? ==> NullFree(v));
    AdoptedOnToml(l, disk, k);
    VacuousFloorKeeps(At(Lower(l), k), v, m, path);
  }

  /** What a TOML adoption renders at a key computed and the pure render leave alone. */
  lemma {:induction false} AdoptedOnToml(l: Layers, disk: Disk, k: string)
    requires Tabular(l) && IsToml(l) && Child(Present(l.computed), k).None?
    requires Read(l, disk.lastRender).None? && Read(l, disk.file).Some?
    requires KeyConfig(l, k, None, None).None? && NullFree(At(Read(l, disk.file).value, k))
    ensures var v, m := At(Read(l, disk.file).value, k), Child(Present(l.surface.managed), k);
            && At(Decided(l, disk), k) == v
            && Child(Some(ConfigOf(l, Object(Kept(l, disk)), FileMarks(l, disk))), k)
               == RenderAt(true, At(Lower(l), k), if Repaired(l, disk, k) then None else DropOwnedAt(v, m), None, m)
  {
    AdoptedAt(l, Read(l, disk.file).value, k);
    DropNullsOfNullFree(At(Read(l, disk.file).value, k));
    TomlMarksNothing(l, disk);
    NarrowedAt(l, Decided(l, disk), k);
    KeyFromNarrowed(l, disk, k);
  }

  /** A TOML file holds no null. */
  lemma {:induction false} TomlNullFree(v: Value)
    requires Legible(Toml, v)
    ensures NullFree(Some(v))
  {
    if v.Object? {
      forall k | k in v.fields ensures NullFree(Child(Some(v), k)) { TomlNullFree(v.fields[k]); }
    }
  }

  /** What an adoption takes of a file value f over lower layers b: its tables, but for one that holds nothing
      but nulls where the layers hold a scalar or a list. */
  ghost predicate Adoptable(b: Option<Value>, f: Option<Value>)
    decreases f.Some?, if f.Some? then f.value else Null
  {
    IsObject(f) ==>
      && (DropNullsAt(f).None? ==> b.None? || IsObject(b))
      && forall k :: k in Fields(f) ==> Adoptable(Child(b, k), Child(f, k))
  }

  /** A key's render on adopting f over lower layers b, the pure render being read back first. */
  function AfterAdoption(c: Codec, b: Option<Value>, f: Option<Value>): Option<Value> {
    UnownedRender(b, DropNullsAt(DiffAt(RereadAt(c, b), f)), SkeletonAt(f))
  }

  lemma {:induction false} AdoptionMergeChild(b: Option<Value>, f: Option<Value>, k: string)
    requires IsObject(f) && (DropNullsAt(f).None? ==> b.None? || IsObject(b))
    ensures var r := UnownedRender(b, DropNullsAt(f), SkeletonAt(f));
            IsObject(r) && Child(r, k) == UnownedRender(Child(b, k), DropNullsAt(Child(f, k)), SkeletonAt(Child(f, k)))
  {
    DropNullsChild(f, k);
    var merged := MergeAt(b, DropNullsAt(f));
    if DropNullsAt(f).Some? { MergeChild(b, DropNullsAt(f), k); }
    SkeletonEachKey(f, k);
    ReinstateEachKey(merged, SkeletonAt(f), [], k);
    if DropNullsAt(f).None? && b.None? { AdoptedValueReturns(f); }
  }

  /** Adoption keeps the whole of a file value exactly when the value is adoptable. */
  lemma {:induction false} AdoptedWholeIff(b: Option<Value>, f: Option<Value>)
    requires NullFree(b) && f.Some?
    ensures Preserves(None, f, UnownedRender(b, DropNullsAt(f), SkeletonAt(f))) <==> Adoptable(b, f)
    decreases f.Some?, if f.Some? then f.value else Null
  {
    if IsObject(f) && (DropNullsAt(f).None? ==> b.None? || IsObject(b)) {
      var r := UnownedRender(b, DropNullsAt(f), SkeletonAt(f));
      AdoptionMergeChild(b, f, "");
      forall k | k in Fields(f) ensures Preserves(None, Child(f, k), Child(r, k)) <==> Adoptable(Child(b, k), Child(f, k)) {
        AdoptionMergeChild(b, f, k);
        AdoptedWholeIff(Child(b, k), Child(f, k));
      }
      assert forall k :: Child(None, k) == None;
    }
  }

  lemma {:induction false} NullFreeReread(c: Codec, v: Option<Value>)
    requires NullFree(v)
    ensures NullFree(RereadAt(c, v))
    decreases v.Some?, if v.Some? then v.value else Null
  {
    forall k | k in Fields(RereadAt(c, v)) ensures NullFree(Child(RereadAt(c, v), k)) {
      RereadChild(c, v, k);
      NullFreeReread(c, Child(v, k));
    }
  }

  lemma {:induction false} AdoptableReread(c: Codec, b: Option<Value>, f: Option<Value>)
    ensures Adoptable(RereadAt(c, b), RereadAt(c, f)) <==> Adoptable(b, f)
    decreases f.Some?, if f.Some? then f.value else Null
  {
    RereadChild(c, b, "");
    RereadChild(c, f, "");
    RereadDropNulls(c, f);
    if IsObject(f) {
      forall k | k in Fields(f) ensures Adoptable(Child(RereadAt(c, b), k), Child(RereadAt(c, f), k)) <==> Adoptable(Child(b, k), Child(f, k)) {
        RereadChild(c, b, k);
        RereadChild(c, f, k);
        AdoptableReread(c, Child(b, k), Child(f, k));
      }
    }
  }

  /** To JSON, the adopting render is the file value's own tables over the layers, its nulls put back. */
  lemma {:induction false} AfterAdoptionReads(c: Codec, b: Option<Value>, f: Option<Value>)
    ensures RereadAt(Json, AfterAdoption(c, b, f))
         == UnownedRender(RereadAt(Json, b), DropNullsAt(RereadAt(Json, f)), SkeletonAt(RereadAt(Json, f)))
  {
    var pure := RereadAt(c, b);
    var residue := DropNullsAt(DiffAt(pure, f));
    AdoptionLaw(pure, f);
    JsonAfterAt(c, b);
    UnownedReread(Json, b, residue, SkeletonAt(f));
    UnownedReread(Json, pure, residue, SkeletonAt(f));
    UnownedReread(Json, pure, DropNullsAt(f), SkeletonAt(f));
    RereadDropNulls(Json, f);
    RereadSkeleton(Json, f);
  }

  /** Adoption, on every key no owner mentions: the render keeps the file's value, every leaf, null and table of
      it, if and only if no table of nulls alone meets a scalar or a list of the layers. */
  lemma {:induction false} AdoptionPreservesIff(l: Layers, disk: Disk, k: string)
    requires Tabular(l) && Adopts(l, disk) && NoOwner(l, k) && k in Read(l, disk.file).value
    ensures var file := At(Read(l, disk.file).value, k);
            var render := Child(Some(ConfigOf(l, Object(Kept(l, disk)), FileMarks(l, disk))), k);
            if Repaired(l, disk, k) then Rejects(l.surface, k, file.value) && render == At(Lower(l), k)
            else Preserves(None, RereadAt(Json, file), RereadAt(Json, render)) <==> Adoptable(At(Lower(l), k), file)
  {
    var current := Read(l, disk.file).value;
    var b, f := At(Lower(l), k), At(current, k);
    AdoptedAt(l, current, k);
    NoOwnerKey(l, k, None, None);
    NoOwnerBoot(l, disk, k);
    SkeletonTableAt(current, k);
    assert At(PureTable(l), k) == RereadAt(l.surface.codec, b);
    if !Repaired(l, disk, k) {
      AfterAdoptionReads(l.surface.codec, b, f);
      FoldNullFree(Tables(LowerLayers(l)));
      assert Child(Some(Object(Lower(l))), k) == b;
      NullFreeReread(Json, b);
      AdoptedWholeIff(RereadAt(Json, b), RereadAt(Json, f));
      AdoptableReread(Json, b, f);
    } else {
      AdoptedLeaf(At(PureTable(l), k), f, Decided(l, disk)[k]);
    }
  }

  lemma {:induction false} AdoptedLeaf(pure: Option<Value>, f: Option<Value>, v: Value)
    requires v.Leaf? && DropNullsAt(DiffAt(pure, f)) == Some(v)
    ensures f == Some(v)
  {}

  /** On a JSON surface a key absent from the pure render is one managed does not mention. */
  lemma {:induction false} JsonPureKeysUnmanaged(l: Layers, k: string)
    requires Tabular(l) && !IsToml(l) && Child(Present(l.computed), k).None?
    requires Child(Some(ConfigOf(l, Null, map[])), k).None?
    ensures NoOwner(l, k)
  {
    ConfigByKey(l, Null, map[], k);
  }

  // ---------------------------------------------------------------- runs of boots

  lemma {:induction false} NullFreeHoldsTombstones(o: Option<Value>, l: Option<Value>)
    requires NullFree(o)
    ensures TombstonesHold(o, l)
    decreases o.Some?, if o.Some? then o.value else Null
  {
    forall k | k in Fields(o) ensures TombstonesHold(Child(o, k), Child(l, k)) {
      NullFreeHoldsTombstones(Child(o, k), Child(l, k));
    }
  }

  lemma {:induction false} KeptHolds(l: Layers, disk: Disk, k: string)
    requires Tabular(l) && NoOwner(l, k)
    requires TombstonesHold(At(Decided(l, disk), k), UnownedRender(At(Lower(l), k), At(Decided(l, disk), k), At(FileMarks(l, disk), k)))
    ensures TombstonesHold(At(Kept(l, disk), k), UnownedRender(At(Lower(l), k), At(Kept(l, disk), k), At(FileMarks(l, disk), k)))
  {
    NoOwnerBoot(l, disk, k);
  }

  /** A boot that cannot capture starts from the stored overlay or from an adopted, null-free one. */
  lemma {:induction false} AdoptionHolds(l: Layers, disk: Disk)
    requires BootSpec(l, disk).Ok? && Read(l, disk.lastRender).None?
    ensures Holding(l, Kept(l, disk), FileMarks(l, disk))
  {
    BootOk(l, disk);
    forall k | NoOwner(l, k)
      ensures TombstonesHold(At(Kept(l, disk), k), UnownedRender(At(Lower(l), k), At(Kept(l, disk), k), At(FileMarks(l, disk), k)))
    {
      AdoptedKeyHolds(l, disk, k);
    }
  }

  lemma {:induction false} AdoptedKeyHolds(l: Layers, disk: Disk, k: string)
    requires Foldable(l.computed) && Read(l, disk.lastRender).None? && NoOwner(l, k)
    ensures TombstonesHold(At(Kept(l, disk), k), UnownedRender(At(Lower(l), k), At(Kept(l, disk), k), At(FileMarks(l, disk), k)))
  {
    if Tabular(l) {
      if Read(l, disk.file).Some? {
        var current := Read(l, disk.file).value;
        AdoptedAt(l, current, k);
        DropNullsIsNullFree(DiffAt(At(PureTable(l), k), At(current, k)));
      }
      NullFreeHoldsTombstones(At(Decided(l, disk), k), UnownedRender(At(Lower(l), k), At(Decided(l, disk), k), At(FileMarks(l, disk), k)));
      KeptHolds(l, disk, k);
    } else {
      NotTabularKeepsNothing(l, Decided(l, disk));
    }
  }

  /** Any boot over any file content keeps the tombstones holding. */
  lemma {:induction false} BootKeepsHolding(l: Layers, disk: Disk, overlay: Table, marks: Table, edit: FileContent)
    requires BootSpec(l, Edited(disk, edit)).Ok?
    requires Rendered(l, disk, overlay, marks) && Holding(l, overlay, marks)
    ensures Holding(l, Kept(l, Edited(disk, edit)), FileMarks(l, Edited(disk, edit)))
  {
    var next := Edited(disk, edit);
    if Read(l, disk.lastRender).None? {
      AdoptionHolds(l, next);
    } else {
      TrustedBaseline(l, disk, overlay, marks, "");
      forall k | NoOwner(l, k)
        ensures TombstonesHold(At(Kept(l, next), k), UnownedRender(At(Lower(l), k), At(Kept(l, next), k), At(FileMarks(l, next), k)))
      {
        DecidedHolds(l, disk, overlay, marks, edit, k);
        KeptHolds(l, next, k);
      }
    }
  }

  lemma {:induction false} DecidedHolds(l: Layers, disk: Disk, overlay: Table, marks: Table, edit: FileContent, k: string)
    requires Rendered(l, disk, overlay, marks) && Holding(l, overlay, marks) && Read(l, disk.lastRender).Some? && NoOwner(l, k)
    ensures var next := Edited(disk, edit);
            TombstonesHold(At(Decided(l, next), k), UnownedRender(At(Lower(l), k), At(Decided(l, next), k), At(FileMarks(l, next), k)))
  {
    var b, o, s := At(Lower(l), k), At(overlay, k), At(marks, k);
    RestoredAt(overlay, k);
    if Read(l, edit).Some? {
      var file := Read(l, edit).value;
      TrustedBaseline(l, disk, overlay, marks, k);
      NoOwnerKey(l, k, o, s);
      CapturedAt(Restored(overlay), Read(l, disk.lastRender).value, file, k);
      SkeletonTableAt(file, k);
      RereadEditSurvives(l.surface.codec, b, o, s, At(file, k));
    } else {
      MergeHoldsTombstones(b, RereadAt(Json, o));
    }
  }

  /** One boot of a home: the file, its baseline and its overlay are rewritten, or nothing is. */
  function NextBoot(l: Layers, disk: Disk): Disk {
    var r := BootSpec(l, disk);
    if r.Ok? then Persist(l, r.value) else disk
  }

  /** A run: before each boot the file is left as some edit, corruption or removal made it. */
  function RunBoots(l: Layers, disk: Disk, edits: seq<FileContent>): Disk
    decreases |edits|
  {
    if edits == [] then disk else RunBoots(l, NextBoot(l, Edited(disk, edits[0])), edits[1..])
  }

  /** What a run keeps: no baseline yet, or one some overlay was rendered into, whose tombstones hold. */
  ghost predicate OnCourse(l: Layers, disk: Disk) {
    Read(l, disk.lastRender).None? ||
    exists overlay, marks :: Rendered(l, disk, overlay, marks) && Holding(l, overlay, marks)
  }

  /** Every run keeps the invariant the next capture needs, through boots that fail as through boots that go. */
  lemma {:induction false} RunInvariant(l: Layers, disk: Disk, edits: seq<FileContent>)
    requires OnCourse(l, disk)
    ensures OnCourse(l, RunBoots(l, disk, edits))
    decreases |edits|
  {
    if edits != [] {
      StepOnCourse(l, disk, edits[0]);
      RunInvariant(l, NextBoot(l, Edited(disk, edits[0])), edits[1..]);
    }
  }

  lemma {:induction false} StepOnCourse(l: Layers, disk: Disk, edit: FileContent)
    requires OnCourse(l, disk)
    ensures OnCourse(l, NextBoot(l, Edited(disk, edit)))
  {
    var next := Edited(disk, edit);
    if BootSpec(l, next).Ok? {
      BootOk(l, next);
      BootLeavesRendered(l, next);
      if Read(l, disk.lastRender).None? {
        AdoptionHolds(l, next);
      } else {
        var overlay, marks :| Rendered(l, disk, overlay, marks) && Holding(l, overlay, marks);
        BootKeepsHolding(l, disk, overlay, marks, edit);
      }
      assert Rendered(l, NextBoot(l, next), Kept(l, next), FileMarks(l, next)) && Holding(l, Kept(l, next), FileMarks(l, next));
    } else if Read(l, disk.lastRender).Some? {
      var overlay, marks :| Rendered(l, disk, overlay, marks) && Holding(l, overlay, marks);
      assert Rendered(l, next, overlay, marks);
    }
  }

  /** Safety over whole runs: from a home without a baseline, through any sequence of edits, corruptions and boots
      that go or fail, an edit the next boot captures survives that boot on every key nothing outranks, unless it
      is the one value a repair rejects, which falls back to the lower layers. */
  lemma {:induction false} EditsSurviveRuns(l: Layers, start: Disk, edits: seq<FileContent>, edit: FileContent, k: string)
    requires Read(l, start.lastRender).None? && NoOwner(l, k)
    requires var disk := RunBoots(l, start, edits); Captures(l, disk, edit) && BootSpec(l, Edited(disk, edit)).Ok?
    ensures Foldable(l.computed)
    ensures var disk := RunBoots(l, start, edits);
            var after := BootSpec(l, Edited(disk, edit)).value;
            var last, file, render := At(Read(l, disk.lastRender).value, k), At(Read(l, edit).value, k), Child(Some(after.config), k);
            if Repaired(l, Edited(disk, edit), k) then FellBack(l, k, after.overlay, file, render)
            else Preserves(RereadAt(Json, last), RereadAt(Json, file), RereadAt(Json, render))
  {
    var disk := RunBoots(l, start, edits);
    RunInvariant(l, start, edits);
    var overlay, marks :| Rendered(l, disk, overlay, marks) && Holding(l, overlay, marks);
    BootOk(l, Edited(disk, edit));
    FileEditSurvives(l, disk, overlay, marks, edit, k);
  }

  /** Every edit of the run is readable and leaves the key as the last render had it. */
  ghost predicate LeavesAlone(l: Layers, disk: Disk, edits: seq<FileContent>, k: string)
    decreases |edits|
  {
    edits != [] ==>
      && Captures(l, disk, edits[0])
      && At(Read(l, edits[0]).value, k) == At(Read(l, disk.lastRender).value, k)
      && LeavesAlone(l, NextBoot(l, Edited(disk, edits[0])), edits[1..], k)
  }

  /** What a key was rendered as once, it is rendered as for good, up to the kinds of its numbers, however often
      the home boots and whatever else the user edits, until the user edits that key; and exactly so where JSON
      reads the stored entry as it was. */
  lemma {:induction false} UntouchedForGood(l: Layers, disk: Disk, overlay: Table, marks: Table, edits: seq<FileContent>, k: string)
    requires Rendered(l, disk, overlay, marks) && LeavesAlone(l, disk, edits, k)
    requires Read(l, disk.lastRender).Some? && Read(l, RunBoots(l, disk, edits).lastRender).Some?
    ensures var first, last := At(Read(l, disk.lastRender).value, k), At(Read(l, RunBoots(l, disk, edits).lastRender).value, k);
            Same(last, first) && (RereadAt(Json, At(overlay, k)) == At(overlay, k) ==> last == first)
    decreases |edits|
  {
    if edits != [] {
      var next := Edited(disk, edits[0]);
      var then' := NextBoot(l, next);
      if BootSpec(l, next).Ok? {
        BootOk(l, next);
        BootLeavesRendered(l, next);
        if Read(l, then'.lastRender).Some? {
          UntouchedStep(l, disk, overlay, marks, edits[0], k);
          UntouchedForGood(l, then', Kept(l, next), FileMarks(l, next), edits[1..], k);
        }
      } else {
        assert Rendered(l, then', overlay, marks);
        UntouchedForGood(l, then', overlay, marks, edits[1..], k);
      }
    }
  }

  lemma {:induction false} UntouchedStep(l: Layers, disk: Disk, overlay: Table, marks: Table, edit: FileContent, k: string)
    requires Rendered(l, disk, overlay, marks) && Captures(l, disk, edit)
    requires At(Read(l, edit).value, k) == At(Read(l, disk.lastRender).value, k)
    requires BootSpec(l, Edited(disk, edit)).Ok? && Read(l, NextBoot(l, Edited(disk, edit)).lastRender).Some?
    ensures var next := Edited(disk, edit);
            var first, last := At(Read(l, disk.lastRender).value, k), At(Read(l, NextBoot(l, next).lastRender).value, k);
            && Same(last, first)
            && (RereadAt(Json, At(overlay, k)) == At(overlay, k) ==> last == first)
            && RereadAt(Json, At(Kept(l, next), k)) == At(Kept(l, next), k)
  {
    var next := Edited(disk, edit);
    BootOk(l, next);
    BootLeavesRendered(l, next);
    UntouchedKeyStands(l, disk, overlay, marks, edit, k);
    TrustedBaseline(l, disk, overlay, marks, k);
    TrustedBaseline(l, NextBoot(l, next), Kept(l, next), FileMarks(l, next), k);
    ConfigByKey(l, Object(Kept(l, next)), FileMarks(l, next), k);
    JsonAfterAt(l.surface.codec, KeyConfig(l, k, At(Kept(l, next), k), At(FileMarks(l, next), k)));
    JsonAfterAt(Json, At(overlay, k));
  }
}
