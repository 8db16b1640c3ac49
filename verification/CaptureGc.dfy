/** internal/capture/gc.go: reaping every complete entry selection would not return. */
module CaptureGc {
  import opened CaptureStore
  import opened CaptureSelect

  /** Selection answers the program with this entry. */
  ghost predicate SelectsKey(entries: Entries, unreadable: set<Key>, p: Program, k: Key) {
    exists r :: Candidate(entries, unreadable, (k, r)) && BestOf(entries, unreadable, p, k, r)
  }

  ghost predicate BestOf(entries: Entries, unreadable: set<Key>, p: Program, k: Key, r: Record) {
    ProgramOf(r) == p && forall c :: Candidate(entries, unreadable, c) && ProgramOf(c.1) == p ==> !Beats(c, (k, r))
  }

  /** A complete entry selection returns for no program: superseded, or attributed to none. */
  ghost predicate Loser(entries: Entries, unreadable: set<Key>, k: Key) {
    forall p :: !SelectsKey(entries, unreadable, p, k)
  }

  /** What selectFrom picks out of any scan is what the store selects. */
  lemma {:induction false} ScanSelects(entries: Entries, unreadable: set<Key>, scan: seq<EntryRecords>, p: Program, k: Key)
    requires IsScan(entries, unreadable, scan)
    ensures SelectsKey(entries, unreadable, p, k) <==> p in Choose(Pairs(scan)) && Choose(Pairs(scan))[p].key == k
  {
    var pairs := Pairs(scan);
    ChoiceIsMaximum(pairs, p);
    forall c ensures c in pairs <==> Candidate(entries, unreadable, c) { ScanIsCandidates(entries, unreadable, scan, c); }
    if p in Choose(pairs) {
      var s := Choose(pairs)[p];
      assert Candidate(entries, unreadable, (s.key, s.record)) && BestOf(entries, unreadable, p, s.key, s.record);
      if SelectsKey(entries, unreadable, p, k) {
        var r :| Candidate(entries, unreadable, (k, r)) && BestOf(entries, unreadable, p, k, r);
        BestIsUnique(pairs, pairs, p, s, Selected(k, r));
      }
    } else {
      forall r ensures !(Candidate(entries, unreadable, (k, r)) && BestOf(entries, unreadable, p, k, r)) {
        assert (k, r) in pairs <==> Candidate(entries, unreadable, (k, r));
      }
    }
  }

  lemma {:induction false} SomeScan(entries: Entries, unreadable: set<Key>) returns (scan: seq<EntryRecords>)
    ensures IsScan(entries, unreadable, scan)
  {
    scan := [];
    var keys := Complete(entries);
    var todo := keys;
    while todo != {}
      invariant todo <= keys && Scans(entries, unreadable, scan, keys - todo)
      decreases todo
    {
      var k :| k in todo;
      ScanOneMore(entries, unreadable, scan, keys - todo, k);
      assert keys - (todo - {k}) == (keys - todo) + {k};
      scan := scan + [EntryRecords(k, RecordsOf(entries, unreadable, k))];
      todo := todo - {k};
    }
    assert keys - {} == keys;
  }

  /** A recorded program always has a selected entry. */
  lemma {:induction false} SelectionExists(entries: Entries, unreadable: set<Key>, c: (Key, Record)) returns (k: Key)
    requires Candidate(entries, unreadable, c)
    ensures SelectsKey(entries, unreadable, ProgramOf(c.1), k)
  {
    var scan := SomeScan(entries, unreadable);
    ScanIsCandidates(entries, unreadable, scan, c);
    ChoiceIsMaximum(Pairs(scan), ProgramOf(c.1));
    k := Choose(Pairs(scan))[ProgramOf(c.1)].key;
    ScanSelects(entries, unreadable, scan, ProgramOf(c.1), k);
  }

  /** After some of a reap's steps, the candidates are those of the other entries, and either all or none
      of the reaped one's. */
  lemma {:induction false} ReapedCandidates(keyOf: Tree -> Key, entries: Entries, unreadable: set<Key>, k: Key, debris: Debris, cut: nat, c: (Key, Record))
    ensures var after := Perform(keyOf, entries, Act.Reap(k, debris), cut);
            && (Candidate(after, unreadable, c) ==> Candidate(entries, unreadable, c))
            && (Candidate(entries, unreadable, c) && c.0 != k ==> Candidate(after, unreadable, c))
  {}

  /** Reaping a loser, however far the reap gets, leaves the selection of every program as it was. */
  lemma {:induction false} ReapKeepsSelection(keyOf: Tree -> Key, entries: Entries, unreadable: set<Key>, k: Key, debris: Debris, cut: nat, p: Program, chosen: Key)
    requires Loser(entries, unreadable, k)
    ensures var after := Perform(keyOf, entries, Act.Reap(k, debris), cut);
            SelectsKey(after, unreadable, p, chosen) <==> SelectsKey(entries, unreadable, p, chosen)
  {
    var after := Perform(keyOf, entries, Act.Reap(k, debris), cut);
    forall c
      ensures Candidate(after, unreadable, c) ==> Candidate(entries, unreadable, c)
      ensures Candidate(entries, unreadable, c) && c.0 != k ==> Candidate(after, unreadable, c)
    {
      ReapedCandidates(keyOf, entries, unreadable, k, debris, cut, c);
    }
    if SelectsKey(entries, unreadable, p, chosen) {
      var r :| Candidate(entries, unreadable, (chosen, r)) && BestOf(entries, unreadable, p, chosen, r);
      assert chosen != k;
      assert Candidate(after, unreadable, (chosen, r)) && BestOf(after, unreadable, p, chosen, r);
    } else if SelectsKey(after, unreadable, p, chosen) {
      var r :| Candidate(after, unreadable, (chosen, r)) && BestOf(after, unreadable, p, chosen, r);
      var best := SelectionExists(entries, unreadable, (chosen, r));
      var r' :| Candidate(entries, unreadable, (best, r')) && BestOf(entries, unreadable, p, best, r');
      KeyOrder(best, chosen);
    }
  }

  /** Interrupting a collection after any of its removals, each itself cut anywhere, changes no answer
      selection gives. */
  lemma {:induction false} InterruptedCollectionIsInvisible(keyOf: Tree -> Key, entries: Entries, unreadable: set<Key>, acts: seq<(Act, nat)>, p: Program, chosen: Key)
    requires forall i :: 0 <= i < |acts| ==> acts[i].0.Reap? && Loser(entries, unreadable, acts[i].0.key)
    ensures SelectsKey(PerformAll(keyOf, entries, acts), unreadable, p, chosen) <==> SelectsKey(entries, unreadable, p, chosen)
    decreases |acts|
  {
    if acts != [] {
      var act := acts[0].0;
      var after := Perform(keyOf, entries, act, acts[0].1);
      forall q, k ensures SelectsKey(after, unreadable, q, k) <==> SelectsKey(entries, unreadable, q, k) {
        ReapKeepsSelection(keyOf, entries, unreadable, act.key, act.debris', acts[0].1, q, k);
      }
      forall i | 0 <= i < |acts[1..]| ensures acts[1..][i].0.Reap? && Loser(after, unreadable, acts[1..][i].0.key) {
        assert acts[1..][i] == acts[i + 1];
      }
      InterruptedCollectionIsInvisible(keyOf, after, unreadable, acts[1..], p, chosen);
    }
  }

  function Winners(selected: map<Program, Selected>): set<Key> {
    set p | p in selected :: selected[p].key
  }

  datatype ReapResult = ReapResult(reaped: set<Key>, kept: nat)

  lemma {:induction false} WinnersAreSelected(entries: Entries, unreadable: set<Key>, scan: seq<EntryRecords>, k: Key)
    requires IsScan(entries, unreadable, scan)
    ensures k in Winners(Choose(Pairs(scan))) <==> !Loser(entries, unreadable, k)
    ensures !Loser(entries, unreadable, k) ==> Resolves(entries, k)
  {
    forall p ensures SelectsKey(entries, unreadable, p, k) <==> p in Choose(Pairs(scan)) && Choose(Pairs(scan))[p].key == k {
      ScanSelects(entries, unreadable, scan, p, k);
    }
    if !Loser(entries, unreadable, k) {
      var p :| SelectsKey(entries, unreadable, p, k);
      assert p in Choose(Pairs(scan));
      var r :| Candidate(entries, unreadable, (k, r)) && BestOf(entries, unreadable, p, k, r);
    }
  }

  /** How far a pass has got: the reaped entries read absent, everything else and every receipt stands. */
  ghost predicate Collected(was: Entries, now: Entries, reaped: set<Key>) {
    && now.Keys == was.Keys
    && forall k :: k in was ==>
         && now[k].receipts == was[k].receipts
         && (if k in reaped then !now[k].marker else now[k] == was[k])
  }

  lemma {:induction false} CollectOne(keyOf: Tree -> Key, was: Entries, now: Entries, reaped: set<Key>, k: Key, debris: Debris)
    requires Collected(was, now, reaped) && k in was
    ensures Collected(was, Perform(keyOf, now, Act.Reap(k, debris), 3), reaped + {k})
  {}

  /** A pass's removals, in order: whole reaps of entries selection did not return. */
  ghost predicate ReapsLosers(was: Entries, unreadable: set<Key>, acts: seq<(Act, nat)>) {
    forall i :: 0 <= i < |acts| ==> acts[i].0.Reap? && Loser(was, unreadable, acts[i].0.key)
  }

  lemma {:induction false} PerformOneMore(keyOf: Tree -> Key, entries: Entries, acts: seq<(Act, nat)>, last: (Act, nat))
    ensures PerformAll(keyOf, entries, acts + [last]) == Perform(keyOf, PerformAll(keyOf, entries, acts), last.0, last.1)
    decreases |acts|
  {
    if acts == [] {
      assert acts + [last] == [last];
    } else {
      assert (acts + [last])[0] == acts[0] && (acts + [last])[1..] == acts[1..] + [last];
      PerformOneMore(keyOf, Perform(keyOf, entries, acts[0].0, acts[0].1), acts[1..], last);
    }
  }

  /** Stopping a pass after any of its removals, the next one cut at any step, changes no answer. */
  lemma {:induction false} InterruptedPassIsInvisible(keyOf: Tree -> Key, was: Entries, unreadable: set<Key>, acts: seq<(Act, nat)>, n: nat, cut: nat, p: Program, chosen: Key)
    requires ReapsLosers(was, unreadable, acts) && n < |acts|
    ensures SelectsKey(PerformAll(keyOf, was, acts[..n] + [(acts[n].0, cut)]), unreadable, p, chosen) <==> SelectsKey(was, unreadable, p, chosen)
  {
    InterruptedCollectionIsInvisible(keyOf, was, unreadable, acts[..n] + [(acts[n].0, cut)], p, chosen);
  }

  /** The keys of a scan's first entries that are no winners. */
  ghost function LosersUpTo(scan: seq<EntryRecords>, n: nat, winners: set<Key>): set<Key>
    requires n <= |scan|
  {
    set i | 0 <= i < n && scan[i].key !in winners :: scan[i].key
  }

  lemma {:induction false} NextLoser(was: Entries, unreadable: set<Key>, scan: seq<EntryRecords>, i: nat, winners: set<Key>)
    requires IsScan(was, unreadable, scan) && i < |scan| && winners == Winners(Choose(Pairs(scan)))
    ensures var k := scan[i].key;
            && LosersUpTo(scan, i + 1, winners) == LosersUpTo(scan, i, winners) + (if k in winners then {} else {k})
            && k in was && k !in LosersUpTo(scan, i, winners) && (k !in winners ==> Loser(was, unreadable, k))
  {
    WinnersAreSelected(was, unreadable, scan, scan[i].key);
  }

  /** Midway through a pass: the removals so far, one per loser passed, led from the first disk to this one. */
  ghost predicate Collecting(keyOf: Tree -> Key, was: Entries, now: Entries, unreadable: set<Key>, acts: seq<(Act, nat)>, reaped: set<Key>) {
    && ReapsLosers(was, unreadable, acts) && now == PerformAll(keyOf, was, acts)
    && Collected(was, now, reaped) && |acts| == |reaped|
  }

  method ReapLoser(keyOf: Tree -> Key, store: Store, ghost was: Entries, unreadable: set<Key>, ghost acts: seq<(Act, nat)>,
                   ghost reaped: set<Key>, k: Key, debris: Debris)
    returns (ghost more: seq<(Act, nat)>)
    requires Collecting(keyOf, was, store.entries, unreadable, acts, reaped)
    requires k in was && k !in reaped && Loser(was, unreadable, k)
    modifies store
    ensures Collecting(keyOf, was, store.entries, unreadable, more, reaped + {k})
  {
    CollectOne(keyOf, was, store.entries, reaped, k, debris);
    PerformOneMore(keyOf, was, acts, (Act.Reap(k, debris), 3));
    store.ReapEntry(keyOf, k, debris, 3);
    more := acts + [(Act.Reap(k, debris), 3)];
  }

  /** PruneSupersededCaptures, left to finish, with the removals it made one after the other; with apply
      unset, the same report and no change. */
  method PruneSupersededCaptures(keyOf: Tree -> Key, store: Store, unreadable: set<Key>, apply: bool, debris: Debris)
    returns (out: ReapResult, ghost acts: seq<(Act, nat)>)
    modifies store
    ensures Collecting(keyOf, old(store.entries), store.entries, unreadable, acts, if apply then out.reaped else {})
    ensures forall k :: k in out.reaped <==> Resolves(old(store.entries), k) && Loser(old(store.entries), unreadable, k)
    ensures out.kept == |Kept(old(store.entries), unreadable)|
  {
    ghost var was := store.entries;
    var scan := ScanRecords(store, unreadable);
    var selected := SelectFrom(scan);
    var winners := Winners(selected);
    var reaped: set<Key> := {};
    acts := [];
    for i := 0 to |scan|
      invariant reaped == LosersUpTo(scan, i, winners)
      invariant Collecting(keyOf, was, store.entries, unreadable, acts, if apply then reaped else {})
    {
      var k := scan[i].key;
      NextLoser(was, unreadable, scan, i, winners);
      if k !in winners {
        if apply { acts := ReapLoser(keyOf, store, was, unreadable, acts, reaped, k, debris); }
        reaped := reaped + {k};
      }
    }
    PassReport(was, unreadable, scan);
    out := ReapResult(reaped, |winners|);
  }

  /** The entries selection returns for some program. */
  ghost function Kept(entries: Entries, unreadable: set<Key>): set<Key> {
    set k | k in entries && Resolves(entries, k) && !Loser(entries, unreadable, k)
  }

  lemma {:induction false} PassReport(was: Entries, unreadable: set<Key>, scan: seq<EntryRecords>)
    requires IsScan(was, unreadable, scan)
    ensures Winners(Choose(Pairs(scan))) == Kept(was, unreadable)
    ensures forall k :: k in LosersUpTo(scan, |scan|, Winners(Choose(Pairs(scan)))) <==> Resolves(was, k) && Loser(was, unreadable, k)
  {
    forall k ensures k in Winners(Choose(Pairs(scan))) <==> Resolves(was, k) && !Loser(was, unreadable, k) {
      WinnersAreSelected(was, unreadable, scan, k);
    }
    forall k ensures Resolves(was, k) <==> exists i :: 0 <= i < |scan| && scan[i].key == k {
      assert Resolves(was, k) <==> k in Complete(was);
    }
  }

  /** Two full passes, one after the other: the second finds nothing left, and no answer has changed. */
  method PruneTwice(keyOf: Tree -> Key, store: Store, unreadable: set<Key>, debris: Debris)
    returns (first: ReapResult, second: ReapResult)
    modifies store
    ensures second.reaped == {} && second.kept == first.kept
    ensures forall p, k :: SelectsKey(store.entries, unreadable, p, k) <==> SelectsKey(old(store.entries), unreadable, p, k)
  {
    ghost var was := store.entries;
    ghost var acts;
    first, acts := PruneSupersededCaptures(keyOf, store, unreadable, true, debris);
    ghost var now := store.entries;
    forall k ensures Resolves(now, k) <==> Resolves(was, k) && !Loser(was, unreadable, k) {
      PassKeepsWinners(was, now, unreadable, first.reaped, k);
    }
    forall k ensures !(Resolves(now, k) && Loser(now, unreadable, k)) {
      SecondPassReapsNothing(was, now, unreadable, k);
    }
    second, acts := PruneSupersededCaptures(keyOf, store, unreadable, true, debris);
    assert Kept(now, unreadable) == Kept(was, unreadable);
    forall p, k ensures SelectsKey(store.entries, unreadable, p, k) <==> SelectsKey(was, unreadable, p, k) {
      SecondPassReapsNothing(was, now, unreadable, k);
      InterruptedCollectionIsInvisible(keyOf, now, unreadable, acts, p, k);
    }
  }

  /** A finished pass leaves exactly the winners complete. */
  lemma {:induction false} PassKeepsWinners(was: Entries, now: Entries, unreadable: set<Key>, reaped: set<Key>, k: Key)
    requires Collected(was, now, reaped)
    requires forall j :: j in reaped <==> Resolves(was, j) && Loser(was, unreadable, j)
    ensures Resolves(now, k) <==> Resolves(was, k) && !Loser(was, unreadable, k)
  {}

  /** Collection is the complement of selection, and so is at its own fixpoint: once every loser is gone
      the survivors are all winners, and a second pass finds nothing. */
  lemma {:induction false} SecondPassReapsNothing(before: Entries, after: Entries, unreadable: set<Key>, k: Key)
    requires forall j :: Resolves(after, j) <==> Resolves(before, j) && !Loser(before, unreadable, j)
    requires forall j :: j in after && after[j].marker ==> j in before && after[j] == before[j]
    ensures !(Resolves(after, k) && Loser(after, unreadable, k))
    ensures forall p, j :: SelectsKey(after, unreadable, p, j) <==> SelectsKey(before, unreadable, p, j)
  {
    forall p, j ensures SelectsKey(after, unreadable, p, j) <==> SelectsKey(before, unreadable, p, j) {
      SurvivorsSelectAlike(before, after, unreadable, p, j);
    }
  }

  lemma {:induction false} SurvivorsSelectAlike(before: Entries, after: Entries, unreadable: set<Key>, p: Program, k: Key)
    requires forall j :: Resolves(after, j) <==> Resolves(before, j) && !Loser(before, unreadable, j)
    requires forall j :: j in after && after[j].marker ==> j in before && after[j] == before[j]
    ensures SelectsKey(after, unreadable, p, k) <==> SelectsKey(before, unreadable, p, k)
  {
    forall c ensures Candidate(after, unreadable, c) <==> Candidate(before, unreadable, c) && !Loser(before, unreadable, c.0) {}
    if SelectsKey(before, unreadable, p, k) {
      var r :| Candidate(before, unreadable, (k, r)) && BestOf(before, unreadable, p, k, r);
      assert Candidate(after, unreadable, (k, r)) && BestOf(after, unreadable, p, k, r);
    } else if SelectsKey(after, unreadable, p, k) {
      var r :| Candidate(after, unreadable, (k, r)) && BestOf(after, unreadable, p, k, r);
      var best := SelectionExists(before, unreadable, (k, r));
      var r' :| Candidate(before, unreadable, (best, r')) && BestOf(before, unreadable, p, best, r');
      assert Candidate(after, unreadable, (best, r'));
      KeyOrder(best, k);
    }
  }
}
