/** internal/capture/select.go: which complete entry of the store answers for a program. */
module CaptureSelect {
  import opened CaptureStore

  datatype Program = Program(bin: string, platform: string)

  datatype EntryRecords = EntryRecords(key: Key, records: seq<Record>)

  datatype Selected = Selected(key: Key, record: Record)

  function ProgramOf(r: Record): Program {
    Program(r.bin, r.platform)
  }

  // ---------------------------------------------------------------- newest wins, then the greater key

  /** String order on entry keys. */
  predicate KeyLess(a: Key, b: Key) {
    b != "" && (a == "" || a[0] < b[0] || (a[0] == b[0] && KeyLess(a[1..], b[1..])))
  }

  lemma {:induction false} KeyOrder(a: Key, b: Key)
    ensures KeyLess(a, b) ==> a != b && !KeyLess(b, a)
    ensures a == b || KeyLess(a, b) || KeyLess(b, a)
  {
    if a != "" && b != "" {
      KeyOrder(a[1..], b[1..]);
      assert a == [a[0]] + a[1..] && b == [b[0]] + b[1..];
    }
  }

  lemma {:induction false} KeyLessTrans(a: Key, b: Key, c: Key)
    requires KeyLess(a, b) && KeyLess(b, c)
    ensures KeyLess(a, c)
  {
    if a != "" && a[0] == b[0] == c[0] { KeyLessTrans(a[1..], b[1..], c[1..]); }
  }

  /** One candidate outranks another. */
  predicate Beats(a: (Key, Record), b: (Key, Record)) {
    a.1.time > b.1.time || (a.1.time == b.1.time && KeyLess(b.0, a.0))
  }

  /** The fold of selectFrom over the candidates in scan order. */
  function Choose(pairs: seq<(Key, Record)>): map<Program, Selected> {
    if pairs == [] then map[]
    else
      var before, last := Choose(pairs[..|pairs| - 1]), pairs[|pairs| - 1];
      var p := ProgramOf(last.1);
      if p !in before || Beats(last, (before[p].key, before[p].record)) then before[p := Selected(last.0, last.1)]
      else before
  }

  function PairsOf(key: Key, records: seq<Record>): (pairs: seq<(Key, Record)>) {
    seq(|records|, i requires 0 <= i < |records| => (key, records[i]))
  }

  function Pairs(scan: seq<EntryRecords>): seq<(Key, Record)> {
    if scan == [] then [] else Pairs(scan[..|scan| - 1]) + PairsOf(scan[|scan| - 1].key, scan[|scan| - 1].records)
  }

  /** selectFrom: the nested loops over entries and their records. */
  method SelectFrom(scan: seq<EntryRecords>) returns (out: map<Program, Selected>)
    ensures out == Choose(Pairs(scan))
  {
    out := map[];
    assert scan[..0] == [];
    for i := 0 to |scan|
      invariant out == Choose(Pairs(scan[..i]))
    {
      out := SelectEntry(Pairs(scan[..i]), out, scan[i]);
      assert scan[..i + 1][..i] == scan[..i];
    }
    assert scan[..|scan|] == scan;
  }

  /** The inner loop: one entry's records, after those of the entries before it. */
  method SelectEntry(ghost before: seq<(Key, Record)>, chosen: map<Program, Selected>, er: EntryRecords)
    returns (out: map<Program, Selected>)
    requires chosen == Choose(before)
    ensures out == Choose(before + PairsOf(er.key, er.records))
  {
    out := chosen;
    assert before + PairsOf(er.key, er.records[..0]) == before;
    for j := 0 to |er.records|
      invariant out == Choose(before + PairsOf(er.key, er.records[..j]))
    {
      var r := er.records[j];
      var p := ProgramOf(r);
      ChooseOneMore(before, er, j);
      if p !in out || r.time > out[p].record.time || (r.time == out[p].record.time && KeyLess(out[p].key, er.key)) {
        out := out[p := Selected(er.key, r)];
      }
    }
    assert er.records[..|er.records|] == er.records;
  }

  lemma {:induction false} ChooseOneMore(before: seq<(Key, Record)>, er: EntryRecords, j: nat)
    requires j < |er.records|
    ensures var chosen, r := Choose(before + PairsOf(er.key, er.records[..j])), er.records[j];
            Choose(before + PairsOf(er.key, er.records[..j + 1])) ==
              if ProgramOf(r) !in chosen || Beats((er.key, r), (chosen[ProgramOf(r)].key, chosen[ProgramOf(r)].record))
              then chosen[ProgramOf(r) := Selected(er.key, r)] else chosen
  {
    var upto := before + PairsOf(er.key, er.records[..j + 1]);
    assert upto[..|upto| - 1] == before + PairsOf(er.key, er.records[..j]);
    assert upto[|upto| - 1] == (er.key, er.records[j]);
  }

  /** The selection is one of the program's candidates, and no candidate outranks it. */
  ghost predicate IsBest(pairs: seq<(Key, Record)>, p: Program, s: Selected) {
    && (s.key, s.record) in pairs && ProgramOf(s.record) == p
    && forall c :: c in pairs && ProgramOf(c.1) == p ==> !Beats(c, (s.key, s.record))
  }

  /** For each program any entry records, the choice is the lexicographic maximum of (time, key). */
  lemma {:induction false} ChoiceIsMaximum(pairs: seq<(Key, Record)>, p: Program)
    ensures p in Choose(pairs) <==> exists c :: c in pairs && ProgramOf(c.1) == p
    ensures p in Choose(pairs) ==> IsBest(pairs, p, Choose(pairs)[p])
  {
    if pairs != [] {
      var n := |pairs| - 1;
      var last := pairs[n];
      assert pairs == pairs[..n] + [last];
      ChoiceIsMaximum(pairs[..n], p);
      if p in Choose(pairs[..n]) {
        var c :| c in pairs[..n] && ProgramOf(c.1) == p;
        assert c in pairs;
        var old' := Choose(pairs[..n])[p];
        forall c | c in pairs && ProgramOf(c.1) == p
          ensures !Beats(c, (Choose(pairs)[p].key, Choose(pairs)[p].record))
        {
          KeyOrder(last.0, last.0);
          KeyOrder(c.0, old'.key);
          KeyOrder(last.0, old'.key);
          KeyOrder(c.0, last.0);
          if KeyLess(old'.key, last.0) && KeyLess(last.0, c.0) { KeyLessTrans(old'.key, last.0, c.0); }
        }
      } else if p == ProgramOf(last.1) {
        assert last in pairs;
        KeyOrder(last.0, last.0);
      }
    }
  }

  /** Two best candidates of one program agree on time and key. */
  lemma {:induction false} BestIsUnique(pairs: seq<(Key, Record)>, pairs': seq<(Key, Record)>, p: Program, s: Selected, s': Selected)
    requires IsBest(pairs, p, s) && IsBest(pairs', p, s')
    requires (s.key, s.record) in pairs' && (s'.key, s'.record) in pairs
    ensures s.key == s'.key && s.record.time == s'.record.time
  {
    KeyOrder(s.key, s'.key);
  }

  /** The chosen keys depend on what the store holds, not on the order it was scanned in. */
  lemma {:induction false} ScanOrderIsIrrelevant(pairs: seq<(Key, Record)>, pairs': seq<(Key, Record)>, p: Program)
    requires forall c :: c in pairs <==> c in pairs'
    ensures p in Choose(pairs) <==> p in Choose(pairs')
    ensures p in Choose(pairs) ==> Choose(pairs)[p].key == Choose(pairs')[p].key
  {
    ChoiceIsMaximum(pairs, p);
    ChoiceIsMaximum(pairs', p);
    if p in Choose(pairs) {
      BestIsUnique(pairs, pairs', p, Choose(pairs)[p], Choose(pairs')[p]);
    }
  }

  // ---------------------------------------------------------------- the scan of a store

  predicate NamesProgram(r: Record) {
    r.bin != "" && r.platform != ""
  }

  function Named(records: seq<Record>): seq<Record> {
    if records == [] then []
    else Named(records[..|records| - 1]) + (if NamesProgram(records[|records| - 1]) then [records[|records| - 1]] else [])
  }

  /** The records selection reads beside an entry; an unreadable log attributes it to nothing. */
  function RecordsOf(entries: Entries, unreadable: set<Key>, k: Key): seq<Record>
    requires k in entries
  {
    if k in unreadable then [] else Named(entries[k].receipts)
  }

  function Complete(entries: Entries): set<Key> {
    set k | k in entries && Resolves(entries, k)
  }

  /** A scan lists each of some entries once, with its records, and nothing else. */
  ghost predicate Scans(entries: Entries, unreadable: set<Key>, scan: seq<EntryRecords>, keys: set<Key>) {
    && (forall i :: 0 <= i < |scan| ==> scan[i].key in keys)
    && (forall i :: 0 <= i < |scan| ==> Resolves(entries, scan[i].key) && scan[i].records == RecordsOf(entries, unreadable, scan[i].key))
    && (forall i, j :: 0 <= i < j < |scan| ==> scan[i].key != scan[j].key)
    && (forall k :: k in keys ==> exists i :: 0 <= i < |scan| && scan[i].key == k)
  }

  /** A full scan is of every complete entry. */
  ghost predicate IsScan(entries: Entries, unreadable: set<Key>, scan: seq<EntryRecords>) {
    Scans(entries, unreadable, scan, Complete(entries))
  }

  lemma {:induction false} ScanOneMore(entries: Entries, unreadable: set<Key>, scan: seq<EntryRecords>, keys: set<Key>, k: Key)
    requires Scans(entries, unreadable, scan, keys) && k !in keys && Resolves(entries, k)
    ensures Scans(entries, unreadable, scan + [EntryRecords(k, RecordsOf(entries, unreadable, k))], keys + {k})
  {
    var longer := scan + [EntryRecords(k, RecordsOf(entries, unreadable, k))];
    assert longer[|scan|].key == k;
    forall j | j in keys ensures exists i :: 0 <= i < |longer| && longer[i].key == j {
      var i :| 0 <= i < |scan| && scan[i].key == j;
      assert longer[i].key == j;
    }
  }

  method ReadNamed(records: seq<Record>) returns (out: seq<Record>)
    ensures out == Named(records)
  {
    out := [];
    assert records[..0] == [];
    for i := 0 to |records|
      invariant out == Named(records[..i])
    {
      assert records[..i + 1][..i] == records[..i];
      if NamesProgram(records[i]) { out := out + [records[i]]; }
    }
    assert records[..|records|] == records;
  }

  /** scanRecords. */
  method ScanRecords(store: Store, unreadable: set<Key>) returns (scan: seq<EntryRecords>)
    ensures IsScan(store.entries, unreadable, scan)
  {
    var keys := store.EntryKeys();
    scan := [];
    var todo := keys;
    while todo != {}
      invariant todo <= keys && Scans(store.entries, unreadable, scan, keys - todo)
      decreases todo
    {
      var k :| k in todo;
      var records: seq<Record> := [];
      if k !in unreadable { records := ReadNamed(store.entries[k].receipts); }
      ScanOneMore(store.entries, unreadable, scan, keys - todo, k);
      assert keys - (todo - {k}) == (keys - todo) + {k};
      scan := scan + [EntryRecords(k, records)];
      todo := todo - {k};
    }
    assert keys == Complete(store.entries) && keys - {} == keys;
  }

  /** A candidate of a store: a record of a complete entry that names a program. */
  ghost predicate Candidate(entries: Entries, unreadable: set<Key>, c: (Key, Record)) {
    Resolves(entries, c.0) && c.1 in RecordsOf(entries, unreadable, c.0)
  }

  predicate ScannedAt(scan: seq<EntryRecords>, i: nat, c: (Key, Record)) {
    i < |scan| && scan[i].key == c.0 && c.1 in scan[i].records
  }

  lemma {:induction false} InPairs(scan: seq<EntryRecords>, c: (Key, Record))
    ensures c in Pairs(scan) <==> exists i: nat :: ScannedAt(scan, i, c)
  {
    if scan != [] {
      var n := |scan| - 1;
      InPairs(scan[..n], c);
      InPairsOf(scan[n].key, scan[n].records, c);
      ScannedSplit(scan, n, c);
    }
  }

  lemma {:induction false} ScannedSplit(scan: seq<EntryRecords>, n: nat, c: (Key, Record))
    requires |scan| == n + 1
    ensures (exists i: nat :: ScannedAt(scan, i, c)) <==> (exists i: nat :: ScannedAt(scan[..n], i, c)) || ScannedAt(scan, n, c)
  {
    if i: nat :| ScannedAt(scan[..n], i, c) { assert ScannedAt(scan, i, c); }
    if i: nat :| ScannedAt(scan, i, c) {
      if i < n { assert ScannedAt(scan[..n], i, c); }
    }
  }

  lemma {:induction false} InPairsOf(key: Key, records: seq<Record>, c: (Key, Record))
    ensures c in PairsOf(key, records) <==> key == c.0 && c.1 in records
  {
    if key == c.0 && c.1 in records {
      var j :| 0 <= j < |records| && records[j] == c.1;
      assert PairsOf(key, records)[j] == c;
    }
  }

  lemma {:induction false} ScanIsCandidates(entries: Entries, unreadable: set<Key>, scan: seq<EntryRecords>, c: (Key, Record))
    requires IsScan(entries, unreadable, scan)
    ensures c in Pairs(scan) <==> Candidate(entries, unreadable, c)
  {
    InPairs(scan, c);
    if Candidate(entries, unreadable, c) {
      assert c.0 in Complete(entries);
      var i :| 0 <= i < |scan| && scan[i].key == c.0;
      assert scan[i].records == RecordsOf(entries, unreadable, c.0) && ScannedAt(scan, i, c);
    }
  }

  // ---------------------------------------------------------------- what selection answers, in the store's own terms

  /** One key is a proper beginning of the other, or the smaller where they first differ. */
  ghost predicate SmallerKey(a: Key, b: Key) {
    exists n :: 0 <= n <= |a| && DivergesAt(a, b, n)
  }

  predicate DivergesAt(a: Key, b: Key, n: nat) {
    n <= |a| && n < |b| && (forall i :: 0 <= i < n ==> a[i] == b[i]) && (n == |a| || a[n] < b[n])
  }

  lemma {:induction false} KeyLessMeans(a: Key, b: Key)
    ensures KeyLess(a, b) <==> SmallerKey(a, b)
  {
    if b == "" || a == "" || a[0] != b[0] {
      if b != "" && KeyLess(a, b) { assert DivergesAt(a, b, 0); }
    } else {
      KeyLessMeans(a[1..], b[1..]);
      if n :| 0 <= n <= |a[1..]| && DivergesAt(a[1..], b[1..], n) {
        assert DivergesAt(a, b, n + 1) by {
          forall i | 0 <= i < n + 1 ensures a[i] == b[i] {
            if i > 0 { assert a[1..][i - 1] == a[i] && b[1..][i - 1] == b[i]; }
          }
        }
      }
      if n :| 0 <= n <= |a| && DivergesAt(a, b, n) {
        assert n > 0 && DivergesAt(a[1..], b[1..], n - 1);
      }
    }
  }

  lemma {:induction false} NamedMeans(records: seq<Record>, r: Record)
    ensures r in Named(records) <==> r in records && r.bin != "" && r.platform != ""
  {
    if records != [] {
      NamedMeans(records[..|records| - 1], r);
      assert r in records <==> r in records[..|records| - 1] || r == records[|records| - 1];
    }
  }

  /** A receipt that may answer for a program: beside a marked entry whose log can be read, and naming the program whole. */
  ghost predicate MayAnswer(entries: Entries, unreadable: set<Key>, p: Program, k: Key, r: Record) {
    && k in entries && entries[k].marker && k !in unreadable && r in entries[k].receipts
    && r.bin == p.bin != "" && r.platform == p.platform != ""
  }

  /** For every store and program: selection answers exactly when some receipt may, and with an entry that has the
      newest of them, the greatest key of those as new. */
  lemma {:induction false} SelectionMeans(entries: Entries, unreadable: set<Key>, scan: seq<EntryRecords>, p: Program)
    requires IsScan(entries, unreadable, scan)
    ensures p in Choose(Pairs(scan)) <==> exists k, r :: MayAnswer(entries, unreadable, p, k, r)
    ensures p in Choose(Pairs(scan)) ==>
              var s := Choose(Pairs(scan))[p];
              && MayAnswer(entries, unreadable, p, s.key, s.record)
              && forall k, r :: MayAnswer(entries, unreadable, p, k, r) ==>
                   r.time < s.record.time || (r.time == s.record.time && (k == s.key || SmallerKey(k, s.key)))
  {
    var pairs := Pairs(scan);
    ChoiceIsMaximum(pairs, p);
    forall k, r ensures (k, r) in pairs && ProgramOf(r) == p <==> MayAnswer(entries, unreadable, p, k, r) {
      ScanIsCandidates(entries, unreadable, scan, (k, r));
      if k in entries { NamedMeans(entries[k].receipts, r); }
    }
    if k, r :| MayAnswer(entries, unreadable, p, k, r) { assert (k, r) in pairs && ProgramOf((k, r).1) == p; }
    if p in Choose(pairs) {
      var s := Choose(pairs)[p];
      forall k, r | MayAnswer(entries, unreadable, p, k, r)
        ensures r.time < s.record.time || (r.time == s.record.time && (k == s.key || SmallerKey(k, s.key)))
      {
        assert (k, r) in pairs && !Beats((k, r), (s.key, s.record));
        KeyOrder(k, s.key);
        KeyLessMeans(k, s.key);
      }
      var c :| c in pairs && ProgramOf(c.1) == p;
      assert MayAnswer(entries, unreadable, p, c.0, c.1);
    }
  }
}
