/** internal/agentcfg/literalnull.go: the literal nulls of a decoded file, carried beside the layers
    as a skeleton of marked key paths and put back after the fold and the floor. */
module LiteralNull {
  import opened Values
  import opened Engine
  import opened Enforce

  /** The marks of a value: a null marks itself, an object marks what its keys mark, and an object
      with nothing marked below it marks nothing. */
  function SkeletonAt(v: Option<Value>): Option<Value>
    decreases v.Some?, if v.Some? then v.value else Null
  {
    if v == Some(Null) then v
    else if IsObject(v) then
      var marks := map k | k in Fields(v) && SkeletonAt(Child(v, k)).Some? :: SkeletonAt(Child(v, k)).value;
      if marks == map[] then None else Some(Object(marks))
    else None
  }

  function Skeleton(file: Table): Table {
    Fields(SkeletonAt(Some(Object(file))))
  }

  /** The values the layers hold at a key, for those that hold one. */
  function Held(layers: seq<Table>, k: string): seq<Value> {
    if layers == [] then []
    else (if k in layers[0] then [layers[0][k]] else []) + Held(layers[1..], k)
  }

  /** The tables among the values layers hold: what a recursion one level down asks again. */
  function Tables(held: seq<Value>): seq<Table> {
    if held == [] then []
    else (if held[0].Object? then [held[0].fields] else []) + Tables(held[1..])
  }

  function Below(held: seq<Value>, k: string): seq<Value> {
    Held(Tables(held), k)
  }

  predicate AllObjects(held: seq<Value>) {
    forall v :: v in held ==> v.Object?
  }

  /** May a marked subtree be entered here: no outranking layer replaced it, nor did the fold. */
  predicate Enters(cur: Option<Value>, held: seq<Value>) {
    AllObjects(held) && (cur.None? || cur.value.Object?)
  }

  /** What a key holds once its mark has been reinstated; held is what the outranking layers hold
      there. A table that did not exist is attached only when a mark below it was honoured. */
  function ReinstateAt(cur: Option<Value>, mark: Option<Value>, held: seq<Value>): Option<Value>
    decreases mark.Some?, if mark.Some? then mark.value else Null
  {
    if mark.None? then cur
    else match mark.value
      case Object(marks) =>
        if !Enters(cur, held) then cur
        else
          var table := map k | k in Fields(cur).Keys + marks.Keys
                                && ReinstateAt(Child(cur, k), At(marks, k), Below(held, k)).Some?
                         :: ReinstateAt(Child(cur, k), At(marks, k), Below(held, k)).value;
          if IsObject(cur) || table != map[] then Some(Object(table)) else None
      case _ => if held == [] then Some(Null) else cur
  }

  function Objects(layers: seq<Table>): seq<Value> {
    seq(|layers|, i requires 0 <= i < |layers| => Object(layers[i]))
  }

  /** The whole pass over a composed config. */
  function Reinstate(cfg: Table, skeleton: Table, layers: seq<Table>): Table {
    Fields(ReinstateAt(Some(Object(cfg)), Some(Object(skeleton)), Objects(layers)))
  }

  // ---------------------------------------------------------------- reading results key by key

  lemma {:induction false} SkeletonChild(v: Option<Value>, k: string)
    ensures IsObject(v) ==> Child(SkeletonAt(v), k) == SkeletonAt(Child(v, k))
    ensures !IsObject(v) ==> Child(SkeletonAt(v), k) == None
    ensures IsObject(SkeletonAt(v)) ==> IsObject(v) && Fields(SkeletonAt(v)) != map[]
  {
    if IsObject(v) && SkeletonAt(Child(v, k)).Some? {
      var marks := map j | j in Fields(v) && SkeletonAt(Child(v, j)).Some? :: SkeletonAt(Child(v, j)).value;
      assert k in marks;
    }
  }

  /** The marks of a file are its nulls, path by path, and nothing else. */
  lemma {:induction false} MarksAreNulls(v: Option<Value>, path: Path)
    ensures Lookup(SkeletonAt(v), path) == Some(Null) <==> Lookup(v, path) == Some(Null)
    ensures IsLeaf(Lookup(SkeletonAt(v), path)) ==> Lookup(SkeletonAt(v), path) == Some(Null)
    decreases |path|
  {
    if path != [] {
      SkeletonChild(v, path[0]);
      if IsObject(v) {
        MarksAreNulls(Child(v, path[0]), path[1..]);
      } else {
        AbsentBelow(v, path);
        AbsentBelow(SkeletonAt(v), path);
      }
    }
  }

  lemma {:induction false} ReinstateChild(cur: Option<Value>, mark: Option<Value>, held: seq<Value>, k: string)
    requires IsObject(mark) && Enters(cur, held)
    ensures IsObject(cur) ==> IsObject(ReinstateAt(cur, mark, held))
    ensures ReinstateAt(cur, mark, held).None? || IsObject(ReinstateAt(cur, mark, held))
    ensures Child(ReinstateAt(cur, mark, held), k) == ReinstateAt(Child(cur, k), Child(mark, k), Below(held, k))
    ensures cur.None? && IsObject(ReinstateAt(cur, mark, held)) ==> Fields(ReinstateAt(cur, mark, held)) != map[]
  {
    var marks := mark.value.fields;
    var table := map j | j in Fields(cur).Keys + marks.Keys
                          && ReinstateAt(Child(cur, j), At(marks, j), Below(held, j)).Some?
                   :: ReinstateAt(Child(cur, j), At(marks, j), Below(held, j)).value;
    if ReinstateAt(Child(cur, k), At(marks, k), Below(held, k)).Some? {
      assert k in table;
    }
  }

  lemma {:induction false} TablesOfObjects(layers: seq<Table>)
    ensures Tables(Objects(layers)) == layers
    ensures AllObjects(Objects(layers))
  {
    if layers != [] {
      assert Objects(layers)[1..] == Objects(layers[1..]);
      TablesOfObjects(layers[1..]);
    }
  }

  lemma {:induction false} InHeld(layers: seq<Table>, k: string, v: Value)
    ensures v in Held(layers, k) <==> exists i :: 0 <= i < |layers| && At(layers[i], k) == Some(v)
  {
    if layers != [] {
      InHeld(layers[1..], k, v);
      if v in Held(layers[1..], k) {
        var i :| 0 <= i < |layers[1..]| && At(layers[1..][i], k) == Some(v);
        assert At(layers[i + 1], k) == Some(v);
      }
      if i :| 0 <= i < |layers| && At(layers[i], k) == Some(v) {
        if i > 0 { assert At(layers[1..][i - 1], k) == Some(v); }
      }
    }
  }

  lemma {:induction false} InTables(held: seq<Value>, t: Table)
    ensures t in Tables(held) <==> Object(t) in held
  {
    if held != [] { InTables(held[1..], t); }
  }

  lemma {:induction false} InBelow(held: seq<Value>, k: string, v: Value)
    ensures v in Below(held, k) <==> exists o :: o in held && Child(Some(o), k) == Some(v)
  {
    InHeld(Tables(held), k, v);
    if v in Below(held, k) {
      var i :| 0 <= i < |Tables(held)| && At(Tables(held)[i], k) == Some(v);
      InTables(held, Tables(held)[i]);
      assert Child(Some(Object(Tables(held)[i])), k) == Some(v);
    }
    if o :| o in held && Child(Some(o), k) == Some(v) {
      InTables(held, o.fields);
      var i :| 0 <= i < |Tables(held)| && Tables(held)[i] == o.fields;
    }
  }

  // ---------------------------------------------------------------- which marks are honoured

  /** Does some layer speak for a path: hold a value there, or replace something above it? */
  ghost predicate Overruled(held: seq<Value>, path: Path) {
    exists v :: v in held && Speaks(Some(v), path)
  }

  /** Every proper prefix of the path is an object of the config, or absent from it. */
  ghost predicate Reachable(cur: Option<Value>, path: Path)
    decreases |path|
  {
    path == [] || ((cur.None? || cur.value.Object?) && Reachable(Child(cur, path[0]), path[1..]))
  }

  /** A mark the pass must put back. */
  ghost predicate Honoured(cur: Option<Value>, mark: Option<Value>, held: seq<Value>, path: Path) {
    IsLeaf(Lookup(mark, path)) && !Overruled(held, path) && Reachable(cur, path)
  }

  lemma {:induction false} OverruledBelow(held: seq<Value>, path: Path)
    requires path != []
    ensures Overruled(held, path) <==> !AllObjects(held) || Overruled(Below(held, path[0]), path[1..])
  {
    var k, rest := path[0], path[1..];
    if Overruled(held, path) && AllObjects(held) {
      var v :| v in held && Speaks(Some(v), path);
      assert v.Object? && Speaks(Child(Some(v), k), rest);
      InBelow(held, k, Child(Some(v), k).value);
    }
    if !AllObjects(held) {
      var v :| v in held && !v.Object?;
      assert Speaks(Some(v), path);
    } else if Overruled(Below(held, k), rest) {
      var w :| w in Below(held, k) && Speaks(Some(w), rest);
      InBelow(held, k, w);
      var o :| o in held && Child(Some(o), k) == Some(w);
      assert Speaks(Some(o), path);
    }
  }

  lemma {:induction false} HonouredBelow(cur: Option<Value>, mark: Option<Value>, held: seq<Value>, path: Path)
    requires path != []
    ensures Honoured(cur, mark, held, path) <==>
              Enters(cur, held) && Honoured(Child(cur, path[0]), Child(mark, path[0]), Below(held, path[0]), path[1..])
  {
    OverruledBelow(held, path);
  }

  /** An honoured mark is a literal null of the result. */
  lemma {:induction false} HonouredIsNull(cur: Option<Value>, mark: Option<Value>, held: seq<Value>, path: Path)
    requires Honoured(cur, mark, held, path)
    ensures Lookup(ReinstateAt(cur, mark, held), path) == Some(Null)
    decreases |path|
  {
    if path == [] {
      if held != [] { assert held[0] in held && Speaks(Some(held[0]), path); }
    } else {
      if !IsObject(mark) { AbsentBelow(mark, path); }
      HonouredBelow(cur, mark, held, path);
      ReinstateChild(cur, mark, held, path[0]);
      HonouredIsNull(Child(cur, path[0]), Child(mark, path[0]), Below(held, path[0]), path[1..]);
    }
  }

  predicate Comparable(p: Path, q: Path) {
    p <= q || q <= p
  }

  lemma {:induction false} ComparableBelow(k: string, p: Path, q: Path)
    requires q != [] && q[0] == k
    ensures Comparable([k] + p, q) <==> Comparable(p, q[1..])
  {
    assert q == [k] + q[1..];
    if p <= q[1..] { assert [k] + p <= [k] + q[1..]; }
    if q[1..] <= p { assert [k] + q[1..] <= [k] + p; }
    if [k] + p <= q { assert p == ([k] + p)[1..] <= q[1..]; }
    if q <= [k] + p { assert q[1..] <= ([k] + p)[1..] == p; }
  }

  /** Nothing else moves: a path on no honoured mark, above none and below none, reads as before. */
  lemma {:induction false} OnlyHonouredMarksMove(cur: Option<Value>, mark: Option<Value>, held: seq<Value>, path: Path)
    requires forall h :: Honoured(cur, mark, held, h) ==> !Comparable(h, path)
    ensures Lookup(ReinstateAt(cur, mark, held), path) == Lookup(cur, path)
    decreases mark.Some?, if mark.Some? then mark.value else Null
  {
    if IsObject(mark) && Enters(cur, held) {
      forall k, h ensures Honoured(Child(cur, k), Child(mark, k), Below(held, k), h) ==> Honoured(cur, mark, held, [k] + h) {
        assert ([k] + h)[1..] == h;
        HonouredBelow(cur, mark, held, [k] + h);
      }
      if path == [] {
        var r := ReinstateAt(cur, mark, held);
        forall k ensures At(Fields(r), k) == At(Fields(cur), k) {
          ReinstateChild(cur, mark, held, k);
          forall h ensures !Honoured(Child(cur, k), Child(mark, k), Below(held, k), h) {
            assert Comparable([k] + h, path);
          }
          if Child(mark, k).Some? { OnlyHonouredMarksMove(Child(cur, k), Child(mark, k), Below(held, k), []); }
          assert Child(r, k) == Child(cur, k);
        }
        ReinstateChild(cur, mark, held, "");
        SameTable(Fields(r), Fields(cur));
      } else {
        var k, rest := path[0], path[1..];
        ReinstateChild(cur, mark, held, k);
        forall h | Honoured(Child(cur, k), Child(mark, k), Below(held, k), h) ensures !Comparable(h, rest) {
          ComparableBelow(k, h, path);
        }
        if Child(mark, k).Some? { OnlyHonouredMarksMove(Child(cur, k), Child(mark, k), Below(held, k), rest); }
      }
    } else if mark.Some? && !IsObject(mark) && held == [] {
      assert Honoured(cur, mark, held, []);
      assert Comparable([], path);
    }
  }

  // ---------------------------------------------------------------- the floor and the nulls together

  lemma {:induction false} SpeaksAround(v: Option<Value>, leaf: Path, h: Path)
    requires IsLeaf(Lookup(v, leaf)) && Comparable(h, leaf)
    ensures Speaks(v, h)
    decreases |h|
  {
    if h != [] && leaf != [] {
      ComparableBelow(leaf[0], leaf[1..], [leaf[0]] + h[1..]);
      assert h == [leaf[0]] + h[1..] && leaf == [leaf[0]] + leaf[1..];
      SpeaksAround(Child(v, leaf[0]), leaf[1..], h[1..]);
    } else if leaf != [] && !IsObject(v) {
      AbsentBelow(v, leaf);
    }
  }

  /** A path at or below a leaf of an outranking layer is left exactly as the floor left it. */
  lemma {:induction false} SettledPathsStand(cur: Option<Value>, mark: Option<Value>, held: seq<Value>, v: Value, leaf: Path, path: Path)
    requires v in held && IsLeaf(Lookup(Some(v), leaf)) && leaf <= path
    ensures Lookup(ReinstateAt(cur, mark, held), path) == Lookup(cur, path)
  {
    forall h | Comparable(h, path) ensures !Honoured(cur, mark, held, h) {
      SpeaksAround(Some(v), leaf, h);
    }
    OnlyHonouredMarksMove(cur, mark, held, path);
  }

  /** On a JSON surface the floor still holds after the nulls are put back: every leaf managed names
      keeps managed's value, nothing a computed layer settled moves, and every mark no outranking
      layer speaks for, reachable in the enforced config, is a literal null. */
  lemma {:induction false} FloorAndNulls(merged: Option<Value>, managed: Value, computed: Value, mark: Option<Value>, path: Path)
    ensures var enforced := EnforceAt(merged, Some(managed));
            var held := [computed, managed];
            var r := ReinstateAt(enforced, mark, held);
            && (IsLeaf(Lookup(Some(managed), path)) ==> Lookup(r, path) == Lookup(Some(managed), path))
            && (IsLeaf(Lookup(Some(computed), path)) ==> Lookup(r, path) == Lookup(enforced, path))
            && (Honoured(enforced, mark, held, path) ==> Lookup(r, path) == Some(Null))
  {
    var enforced := EnforceAt(merged, Some(managed));
    var held := [computed, managed];
    FloorHolds(merged, Some(managed), path);
    if IsLeaf(Lookup(Some(managed), path)) { SettledPathsStand(enforced, mark, held, managed, path, path); }
    if IsLeaf(Lookup(Some(computed), path)) { SettledPathsStand(enforced, mark, held, computed, path, path); }
    if Honoured(enforced, mark, held, path) { HonouredIsNull(enforced, mark, held, path); }
  }

  // ---------------------------------------------------------------- a rendered file marks itself

  /** Every null of a composed value is one an outranking layer wrote there itself. */
  ghost predicate NullsSpoken(e: Option<Value>, held: seq<Value>)
    decreases e.Some?, if e.Some? then e.value else Null
  {
    (e == Some(Null) ==> held != []) &&
    (AllObjects(held) ==> forall k :: k in Fields(e) ==> NullsSpoken(Child(e, k), Below(held, k)))
  }

  lemma {:induction false} NullFreeIsSpoken(e: Option<Value>, held: seq<Value>)
    requires NullFree(e)
    ensures NullsSpoken(e, held)
    decreases e.Some?, if e.Some? then e.value else Null
  {
    forall k | k in Fields(e) ensures NullsSpoken(Child(e, k), Below(held, k)) {
      NullFreeIsSpoken(Child(e, k), Below(held, k));
    }
  }

  /** Where a subtree is entered, each key of the result is its own reinstatement, with or without a mark. */
  lemma {:induction false} ReinstateEachKey(e: Option<Value>, mark: Option<Value>, held: seq<Value>, k: string)
    requires Enters(e, held) && (mark.None? || IsObject(mark))
    ensures var r := ReinstateAt(e, mark, held);
            && (r.None? || IsObject(r))
            && (IsObject(e) ==> IsObject(r))
            && (e.None? && r.Some? ==> Fields(r) != map[])
            && Child(r, k) == ReinstateAt(Child(e, k), Child(mark, k), Below(held, k))
  {
    if IsObject(mark) { ReinstateChild(e, mark, held, k); }
  }

  lemma {:induction false} SkeletonEachKey(r: Option<Value>, k: string)
    requires r.None? || IsObject(r)
    ensures SkeletonAt(r).None? || IsObject(SkeletonAt(r))
    ensures Child(SkeletonAt(r), k) == SkeletonAt(Child(r, k))
  {
    SkeletonChild(r, k);
  }

  /** Reading the marks back off a rendered value and reinstating them changes nothing. */
  lemma {:induction false} RenderedMarksSettle(e: Option<Value>, mark: Option<Value>, held: seq<Value>)
    requires NullsSpoken(e, held)
    ensures var r := ReinstateAt(e, mark, held);
            ReinstateAt(e, SkeletonAt(r), held) == r
    decreases e.Some?, if e.Some? then e.value else Null, mark.Some?, if mark.Some? then mark.value else Null
  {
    var r := ReinstateAt(e, mark, held);
    var again := ReinstateAt(e, SkeletonAt(r), held);
    if Enters(e, held) && (e.Some? || IsObject(mark)) && (mark.None? || IsObject(mark)) {
      ReinstateEachKey(e, mark, held, "");
      SkeletonEachKey(r, "");
      forall k ensures At(Fields(again), k) == At(Fields(r), k) {
        ReinstateEachKey(e, mark, held, k);
        ReinstateEachKey(e, SkeletonAt(r), held, k);
        SkeletonEachKey(r, k);
        if Child(e, k).Some? || Child(mark, k).Some? {
          RenderedMarksSettle(Child(e, k), Child(mark, k), Below(held, k));
        }
        assert Child(again, k) == Child(r, k);
      }
      ReinstateEachKey(e, SkeletonAt(r), held, "");
      SameTable(Fields(again), Fields(r));
    } else if mark.Some? && !IsObject(mark) && held != [] {
      RenderedMarksSettle(e, None, held);
    } else {
      SkeletonChild(r, "");
    }
  }

  /** Marks read off the render of e take e0 to that same render. */
  ghost predicate RendersAlike(e: Option<Value>, e0: Option<Value>, mark: Option<Value>, held: seq<Value>) {
    ReinstateAt(e0, SkeletonAt(ReinstateAt(e, mark, held)), held) == ReinstateAt(e, mark, held)
  }

  lemma {:induction false} RendersAlikeBelow(e: Option<Value>, e0: Option<Value>, mark: Option<Value>, held: seq<Value>, k: string)
    requires Enters(e, held) && Enters(e0, held) && (mark.None? || IsObject(mark))
    requires RendersAlike(e, e0, mark, held)
    ensures RendersAlike(Child(e, k), Child(e0, k), Child(mark, k), Below(held, k))
  {
    var r := ReinstateAt(e, mark, held);
    ReinstateEachKey(e, mark, held, k);
    SkeletonEachKey(r, k);
    ReinstateEachKey(e0, SkeletonAt(r), held, k);
  }

  lemma {:induction false} AgreeByKeys(e: Option<Value>, e0: Option<Value>, mark: Option<Value>, held: seq<Value>)
    requires Enters(e, held) && Enters(e0, held) && (mark.None? || IsObject(mark))
    requires RendersAlike(e, e0, mark, held)
    requires forall k :: ReinstateAt(Child(e0, k), Child(mark, k), Below(held, k))
                      == ReinstateAt(Child(e, k), Child(mark, k), Below(held, k))
    ensures ReinstateAt(e0, mark, held) == ReinstateAt(e, mark, held)
  {
    var r, r0 := ReinstateAt(e, mark, held), ReinstateAt(e0, mark, held);
    forall k ensures At(Fields(r0), k) == At(Fields(r), k) {
      ReinstateEachKey(e, mark, held, k);
      ReinstateEachKey(e0, mark, held, k);
      assert Child(r0, k) == Child(r, k);
    }
    SameTable(Fields(r0), Fields(r));
    ReinstateEachKey(e, mark, held, "");
    ReinstateEachKey(e0, mark, held, "");
    SkeletonEachKey(r, "");
    ReinstateEachKey(e0, SkeletonAt(r), held, "");
  }

  /** A config the marks cannot enter never renders like one they do. */
  lemma {:induction false} BlockedNeverAlike(e: Option<Value>, e0: Option<Value>, mark: Option<Value>, held: seq<Value>)
    requires Enters(e, held) && !Enters(e0, held) && (mark.None? || IsObject(mark))
    ensures !RendersAlike(e, e0, mark, held)
  {
    ReinstateEachKey(e, mark, held, "");
    SkeletonEachKey(ReinstateAt(e, mark, held), "");
  }

  /** The pass cannot make two configs agree that its own marks told apart: if the marks read off
      the render of e take e0 to that render too, so did the marks the render was made from. */
  lemma {:induction false} RenderedMarksAgree(e: Option<Value>, e0: Option<Value>, mark: Option<Value>, held: seq<Value>)
    requires NullsSpoken(e, held) && NullsSpoken(e0, held)
    requires RendersAlike(e, e0, mark, held)
    ensures ReinstateAt(e0, mark, held) == ReinstateAt(e, mark, held)
    decreases e.Some?, if e.Some? then e.value else Null, mark.Some?, if mark.Some? then mark.value else Null
  {
    if mark.Some? && !IsObject(mark) && held != [] {
      RenderedMarksAgree(e, e0, None, held);
    } else if Enters(e, held) && (mark.None? || IsObject(mark)) && Enters(e0, held) {
      forall k ensures ReinstateAt(Child(e0, k), Child(mark, k), Below(held, k))
                    == ReinstateAt(Child(e, k), Child(mark, k), Below(held, k)) {
        RendersAlikeBelow(e, e0, mark, held, k);
        if Child(e, k).Some? || Child(mark, k).Some? {
          RenderedMarksAgree(Child(e, k), Child(e0, k), Child(mark, k), Below(held, k));
        }
      }
      AgreeByKeys(e, e0, mark, held);
    } else if Enters(e, held) && (mark.None? || IsObject(mark)) {
      BlockedNeverAlike(e, e0, mark, held);
    } else {
      SkeletonChild(e, "");
    }
  }

  // ---------------------------------------------------------------- the loops over decoded maps

  /** literalNullSkeleton: the marks of a decoded file, unmarked keys and empty branches pruned. */
  method LiteralNullSkeleton(m: Table) returns (out: Table)
    ensures out == Skeleton(m)
    decreases Object(m)
  {
    out := map[];
    var todo := m.Keys;
    while todo != {}
      invariant todo <= m.Keys
      invariant forall k :: At(out, k) == if k in m && k !in todo then SkeletonAt(At(m, k)) else None
      decreases todo
    {
      var k :| k in todo;
      match m[k] {
        case Null =>
          out := out[k := Null];
        case Object(sub) =>
          var inner := LiteralNullSkeleton(sub);
          SkeletonIsTable(sub);
          if inner != map[] { out := out[k := Object(inner)]; }
        case _ =>
      }
      todo := todo - {k};
    }
    forall k ensures At(out, k) == At(Skeleton(m), k) {
      SkeletonChild(Some(Object(m)), k);
    }
    SameTable(out, Skeleton(m));
  }

  lemma {:induction false} SkeletonIsTable(m: Table)
    ensures SkeletonAt(Some(Object(m))) == if Skeleton(m) == map[] then None else Some(Object(Skeleton(m)))
  {
    SkeletonChild(Some(Object(m)), "");
  }

  /** layersSpeakFor: whether any layer mentions k, and whether every one that does holds an object. */
  method LayersSpeakFor(layers: seq<Table>, k: string) returns (spoken: bool, allObjects: bool)
    ensures spoken <==> Held(layers, k) != []
    ensures allObjects <==> spoken && AllObjects(Held(layers, k))
  {
    spoken, allObjects := false, true;
    for i := 0 to |layers|
      invariant Held(layers, k) == Held(layers[..i], k) + Held(layers[i..], k)
      invariant spoken <==> Held(layers[..i], k) != []
      invariant allObjects <==> AllObjects(Held(layers[..i], k))
    {
      HeldAppend(layers[..i], [layers[i]], k);
      assert layers[..i + 1] == layers[..i] + [layers[i]] && layers[i..] == [layers[i]] + layers[i + 1..];
      HeldAppend([layers[i]], layers[i + 1..], k);
      ghost var one := Held([layers[i]], k);
      assert one == if k in layers[i] then [layers[i][k]] else [];
      if k in layers[i] {
        spoken := true;
        assert layers[i][k] in Held(layers[..i + 1], k);
        if !layers[i][k].Object? { allObjects := false; }
      }
    }
    assert layers[..|layers|] == layers;
    allObjects := spoken && allObjects;
  }

  lemma {:induction false} HeldAppend(a: seq<Table>, b: seq<Table>, k: string)
    ensures Held(a + b, k) == Held(a, k) + Held(b, k)
  {
    if a == [] {
      assert a + b == b;
    } else {
      assert (a + b)[0] == a[0] && (a + b)[1..] == a[1..] + b;
      HeldAppend(a[1..], b, k);
      var first := if k in a[0] then [a[0][k]] else [];
      assert Held(a, k) == first + Held(a[1..], k);
      assert first + (Held(a[1..], k) + Held(b, k)) == (first + Held(a[1..], k)) + Held(b, k);
    }
  }

  lemma {:induction false} TablesAppend(a: seq<Value>, b: seq<Value>)
    ensures Tables(a + b) == Tables(a) + Tables(b)
  {
    if a == [] {
      assert a + b == b;
    } else {
      assert (a + b)[0] == a[0] && (a + b)[1..] == a[1..] + b;
      TablesAppend(a[1..], b);
      var first := if a[0].Object? then [a[0].fields] else [];
      assert Tables(a) == first + Tables(a[1..]);
      assert first + (Tables(a[1..]) + Tables(b)) == (first + Tables(a[1..])) + Tables(b);
    }
  }

  /** childLayers: the sub-maps the layers hold at k. */
  method ChildLayers(layers: seq<Table>, k: string) returns (out: seq<Table>)
    ensures out == Tables(Held(layers, k))
  {
    out := [];
    assert layers[..0] == [];
    for i := 0 to |layers|
      invariant out == Tables(Held(layers[..i], k))
    {
      assert layers[..i + 1] == layers[..i] + [layers[i]];
      HeldAppend(layers[..i], [layers[i]], k);
      TablesAppend(Held(layers[..i], k), Held([layers[i]], k));
      if k in layers[i] && layers[i][k].Object? {
        out := out + [layers[i][k].fields];
      }
    }
    assert layers[..|layers|] == layers;
  }

  /** reinstateAt: one key of one level. created reports a key put there by its mark: a marked leaf
      that was honoured, or a subtree that did not exist before. */
  method ReinstateKey(cfg: Table, k: string, marked: Value, layers: seq<Table>) returns (out: Table, created: bool)
    ensures forall j :: At(out, j) == if j == k then ReinstateAt(At(cfg, k), Some(marked), Held(layers, k)) else At(cfg, j)
    ensures created <==> if marked.Object? then k !in cfg && k in out else Held(layers, k) == []
    decreases marked
  {
    var spoken, allObjects := LayersSpeakFor(layers, k);
    if !marked.Object? {
      if spoken { return cfg, false; }
      return cfg[k := Null], true;
    }
    var present := k in cfg;
    if (spoken && !allObjects) || (present && !cfg[k].Object?) {
      return cfg, false;
    }
    var curMap := if present then cfg[k].fields else map[];
    ghost var held := Held(layers, k);
    var child := ChildLayers(layers, k);
    var sub := curMap;
    var changed := false;
    var todo := marked.fields.Keys;
    while todo != {}
      invariant todo <= marked.fields.Keys
      invariant forall j :: At(sub, j) == if j in todo then At(curMap, j)
                                          else ReinstateAt(At(curMap, j), At(marked.fields, j), Below(held, j))
      invariant !present ==> (changed <==> sub != map[])
      decreases todo
    {
      var j :| j in todo;
      ghost var before := sub;
      var made;
      sub, made := ReinstateKey(sub, j, marked.fields[j], child);
      if !present {
        assert At(before, j) == None;
        if made { assert At(sub, j).Some?; } else { SameTable(sub, before); }
      }
      changed := changed || made;
      todo := todo - {j};
    }
    ReinstateTable(At(cfg, k), marked, held, sub);
    if present {
      return cfg[k := Object(sub)], false;
    }
    if !changed {
      return cfg, false;
    }
    return cfg[k := Object(sub)], true;
  }

  lemma {:induction false} ReinstateTable(cur: Option<Value>, marked: Value, held: seq<Value>, table: Table)
    requires marked.Object? && Enters(cur, held)
    requires forall j :: At(table, j) == ReinstateAt(Child(cur, j), At(marked.fields, j), Below(held, j))
    ensures ReinstateAt(cur, Some(marked), held) == if IsObject(cur) || table != map[] then Some(Object(table)) else None
  {
    var r := ReinstateAt(cur, Some(marked), held);
    forall j ensures At(Fields(r), j) == At(table, j) {
      ReinstateChild(cur, Some(marked), held, j);
      assert Child(r, j) == At(table, j);
    }
    SameTable(Fields(r), table);
    ReinstateChild(cur, Some(marked), held, "");
  }

  /** A top-level key the pass claims as put there by the file. */
  predicate Claims(cfg: Table, skeleton: Table, layers: seq<Table>, k: string) {
    k in skeleton &&
    if skeleton[k].Object? then k !in cfg && ReinstateAt(None, At(skeleton, k), Held(layers, k)).Some?
    else Held(layers, k) == []
  }

  /** reinstateLiteralNulls: put every honoured mark back into the config, which is rewritten in place. */
  method ReinstateLiteralNulls(cfg: ConfigMap, skeleton: Table, layers: seq<Table>) returns (created: set<string>)
    modifies cfg
    ensures cfg.fields == Reinstate(old(cfg.fields), skeleton, layers)
    ensures forall k :: k in created <==> Claims(old(cfg.fields), skeleton, layers, k)
  {
    ghost var was := cfg.fields;
    created := {};
    var todo := skeleton.Keys;
    while todo != {}
      invariant todo <= skeleton.Keys
      invariant forall k :: At(cfg.fields, k) == if k in todo then At(was, k)
                                                 else ReinstateAt(At(was, k), At(skeleton, k), Held(layers, k))
      invariant forall k :: k in created <==> k !in todo && Claims(was, skeleton, layers, k)
      decreases todo
    {
      var k :| k in todo;
      assert At(cfg.fields, k) == At(was, k);
      var out, made := ReinstateKey(cfg.fields, k, skeleton[k], layers);
      assert made <==> Claims(was, skeleton, layers, k) by {
        assert At(out, k) == ReinstateAt(At(was, k), Some(skeleton[k]), Held(layers, k));
      }
      cfg.fields := out;
      if made { created := created + {k}; }
      todo := todo - {k};
    }
    TablesOfObjects(layers);
    ReinstateTable(Some(Object(was)), Object(skeleton), Objects(layers), cfg.fields);
  }
}
