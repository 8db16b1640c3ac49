/** internal/capture/inner.go: the baseline walk of the capture surfaces, and the top-down move of
    everything an installer added or changed into the captured tree. */
module CaptureDelta {

  /** A home-relative path, one segment per directory level. */
  type Path = seq<string>

  /** What a path is on disk. Sockets, fifos and devices are Special: recorded as files, but no copy
      recreates them. */
  datatype Kind = Dir | Regular | Symlink | Special

  datatype Info = Info(kind: Kind, perm: nat, size: nat, mtime: int, data: string)

  type Files = map<Path, Info>

  const DEFAULT_PERM: nat := 493

  /** What the baseline remembers of a path; every non-directory that is no link counts as a file. */
  datatype Node = Node(isDir: bool, isLink: bool, perm: nat, size: nat, mtime: int)

  type Snapshot = map<Path, Node>

  function NodeOf(i: Info): Node {
    Node(i.kind.Dir?, i.kind.Symlink?, i.perm, i.size, i.mtime)
  }

  predicate IsDir(files: Files, p: Path) {
    p in files && files[p].kind.Dir?
  }

  predicate IsLeaf(files: Files, p: Path) {
    p in files && !files[p].kind.Dir?
  }

  /** A directory tree: everything but the home itself sits in a directory. */
  ghost predicate Rooted(files: Files) {
    forall p {:trigger InDirectory(files, p)} :: p in files ==> InDirectory(files, p)
  }

  predicate InDirectory(files: Files, p: Path) {
    p != [] ==> IsDir(files, p[..|p| - 1])
  }

  predicate Excluded(excludes: set<Path>, p: Path) {
    exists ex :: ex in excludes && ex <= p
  }

  predicate ContainsExcluded(excludes: set<Path>, p: Path) {
    exists ex :: ex in excludes && p < ex
  }

  predicate InSurface(surfaces: seq<Path>, p: Path) {
    exists s :: s in surfaces && s <= p
  }

  /** No capture surface lies inside another, or is listed twice. */
  ghost predicate Disjoint(surfaces: seq<Path>) {
    && (forall i, j :: 0 <= i < j < |surfaces| ==> surfaces[i] != surfaces[j])
    && (forall s, t :: s in surfaces && t in surfaces && s <= t ==> s == t)
  }

  lemma {:induction false} ExcludedBelow(excludes: set<Path>, q: Path, p: Path)
    requires q <= p
    ensures Excluded(excludes, q) ==> Excluded(excludes, p)
  {
    if Excluded(excludes, q) {
      var ex :| ex in excludes && ex <= q;
      assert ex <= p;
    }
  }

  /** Beneath a surface, a remembered path's parent is a remembered directory. */
  ghost predicate Grounded(surfaces: seq<Path>, b: Snapshot) {
    forall p {:trigger Remembered(b, p)} :: p in b && p !in surfaces ==> Remembered(b, p)
  }

  predicate Remembered(b: Snapshot, p: Path) {
    p != [] && p[..|p| - 1] in b && b[p[..|p| - 1]].isDir
  }

  /** The installer added or changed this path. */
  predicate Changed(b: Snapshot, files: Files, p: Path)
    requires p in files
  {
    p !in b || b[p] != NodeOf(files[p])
  }

  // ---------------------------------------------------------------- the baseline walk

  function Baseline(surfaces: seq<Path>, excludes: set<Path>, home: Files): Snapshot {
    map p | p in home && InSurface(surfaces, p) && !Excluded(excludes, p) :: NodeOf(home[p])
  }

  /** walk: every path of every surface, excluded subtrees skipped. */
  method Walk(surfaces: seq<Path>, excludes: set<Path>, home: Files) returns (snap: Snapshot)
    ensures snap == Baseline(surfaces, excludes, home)
  {
    snap := map[];
    for n := 0 to |surfaces|
      invariant snap == Baseline(surfaces[..n], excludes, home)
    {
      snap := WalkSurface(surfaces[n], excludes, home, snap);
      BaselineGrows(surfaces, n, excludes, home);
    }
    assert surfaces[..|surfaces|] == surfaces;
  }

  /** The paths beneath one surface added to what has been seen. */
  method WalkSurface(root: Path, excludes: set<Path>, home: Files, seen: Snapshot) returns (snap: Snapshot)
    requires forall p :: p in seen ==> p in home && seen[p] == NodeOf(home[p])
    ensures snap == seen + Baseline([root], excludes, home)
  {
    snap := seen;
    var todo := set p | p in home.Keys && root <= p;
    while todo != {}
      invariant todo <= home.Keys && forall p :: p in todo ==> root <= p
      invariant snap.Keys == seen.Keys + (set p | p in home && root <= p && p !in todo && !Excluded(excludes, p))
      invariant forall p :: p in snap ==> p in home && snap[p] == NodeOf(home[p])
      decreases todo
    {
      var p :| p in todo;
      if !Excluded(excludes, p) { snap := snap[p := NodeOf(home[p])]; }
      todo := todo - {p};
    }
    assert forall p :: InSurface([root], p) <==> root <= p by {
      assert root in [root];
    }
    assert snap.Keys == (seen + Baseline([root], excludes, home)).Keys;
  }

  lemma {:induction false} BaselineGrows(surfaces: seq<Path>, n: nat, excludes: set<Path>, home: Files)
    requires n < |surfaces|
    ensures Baseline(surfaces[..n + 1], excludes, home)
         == Baseline(surfaces[..n], excludes, home) + Baseline([surfaces[n]], excludes, home)
  {
    assert surfaces[..n + 1] == surfaces[..n] + [surfaces[n]];
    forall p ensures InSurface(surfaces[..n + 1], p) <==> InSurface(surfaces[..n], p) || InSurface([surfaces[n]], p) {
      if InSurface(surfaces[..n], p) {
        var s :| s in surfaces[..n] && s <= p;
        assert s in surfaces[..n + 1];
      }
      if InSurface([surfaces[n]], p) { assert surfaces[n] in surfaces[..n + 1]; }
    }
  }

  /** The baseline of a real tree is grounded, so nothing beneath a new directory can be in it. */
  lemma {:induction false} BaselineGrounded(surfaces: seq<Path>, excludes: set<Path>, home: Files)
    requires Rooted(home) && [] !in surfaces
    ensures Grounded(surfaces, Baseline(surfaces, excludes, home))
  {
    var b := Baseline(surfaces, excludes, home);
    forall p | p in b && p !in surfaces ensures Remembered(b, p) {
      var s :| s in surfaces && s <= p;
      assert s != p;
      var parent := p[..|p| - 1];
      assert s <= parent && InDirectory(home, p);
      assert InSurface(surfaces, parent) && IsDir(home, parent);
      ExcludedBelow(excludes, parent, p);
    }
  }

  /** Climbing from a remembered path to an ancestor strictly inside its surface meets only remembered
      directories. */
  lemma {:induction false} AncestorRemembered(surfaces: seq<Path>, b: Snapshot, s: Path, q: Path, p: Path)
    requires Grounded(surfaces, b) && Disjoint(surfaces) && s in surfaces
    requires s < q < p && p in b
    ensures q in b && b[q].isDir
    decreases |p|
  {
    var parent := p[..|p| - 1];
    assert p !in surfaces && Remembered(b, p);
    if |q| < |parent| {
      assert q < parent;
      AncestorRemembered(surfaces, b, s, q, parent);
    } else {
      assert q == parent;
    }
  }

  // ---------------------------------------------------------------- moving the delta

  /** A captured path is the home's: same kind, mode and content. A copy may restamp it. */
  predicate Alike(a: Info, b: Info) {
    a.kind == b.kind && a.perm == b.perm && a.data == b.data && a.size == b.size
  }

  /** What a run is told: the surfaces, what to leave alone, the paths whose rename would cross a mount,
      and what was there before. */
  datatype Rules = Rules(surfaces: seq<Path>, excludes: set<Path>, foreign: set<Path>, baseline: Snapshot)

  /** No surface is the home itself or lies in another, and the baseline is grounded beneath them. */
  ghost predicate Usable(c: Rules) {
    match c
    case Rules(surfaces, _, _, baseline) => [] !in surfaces && Grounded(surfaces, baseline) && Disjoint(surfaces)
  }

  /** The walk moves this path as one, if it gets to it: a changed leaf, or a directory the baseline never
      saw that is no surface and holds nothing excluded. */
  predicate Unit(c: Rules, h: Files, r: Path) {
    && r in h && !Excluded(c.excludes, r)
    && if h[r].kind.Dir? then !(r in c.baseline && c.baseline[r].isDir) && r !in c.surfaces && !ContainsExcluded(c.excludes, r)
       else Changed(c.baseline, h, r)
  }

  /** From this place down, the path that is moved: a unit with none above it. */
  ghost predicate Carrier(c: Rules, h: Files, top: Path, r: Path) {
    top <= r && Unit(c, h, r) && forall q :: top <= q && q < r ==> !Unit(c, h, q)
  }

  /** The path is moved by a copy: its carrier's move crosses a mount. */
  ghost predicate ByCopy(c: Rules, h: Files, top: Path, p: Path) {
    exists r :: r in c.foreign && r <= p && Carrier(c, h, top, r)
  }

  /** The path is at or beneath one that is moved. */
  ghost predicate Taken(c: Rules, h: Files, top: Path, p: Path) {
    exists r :: top <= r && r <= p && Unit(c, h, r)
  }

  /** A special file a copy cannot take along. */
  ghost predicate Dropped(c: Rules, h: Files, top: Path, p: Path) {
    p in h && h[p].kind.Special? && ByCopy(c, h, top, p)
  }

  /** The fate of one path beneath a visited one, from the home h before to the home h' and captured tree
      t' after: a leaf leaves the home exactly when it is not excluded and the baseline does not remember
      it as it is, and then it is in the tree, unless it is a special file of a copy, and as it was, but for the
      timestamps of a copy; a directory leaves it exactly with what is moved, keeping its kind and mode wherever it
      stands; nothing excluded and nothing new appears in the tree. */
  ghost predicate Settled(c: Rules, top: Path, h: Files, h': Files, t': Files, p: Path) {
    && (IsLeaf(h, p) && !Excluded(c.excludes, p) && Changed(c.baseline, h, p) ==>
          p !in h' && (p in t' <==> !Dropped(c, h, top, p)) &&
          (p in t' ==> if ByCopy(c, h, top, p) then Alike(t'[p], h[p]) else t'[p] == h[p]))
    && (IsLeaf(h, p) && (Excluded(c.excludes, p) || !Changed(c.baseline, h, p)) ==> p in h' && h'[p] == h[p] && p !in t')
    && (IsDir(h, p) ==> (p !in h' <==> Taken(c, h, top, p)) && (p in h' || p in t') && (p in h' ==> h'[p] == h[p]) && (p in t' ==> t'[p].kind.Dir? && t'[p].perm == h[p].perm))
    && (p !in h ==> p !in h' && p !in t')
    && (Excluded(c.excludes, p) ==> p !in t')
  }

  /** What is copied beneath a place depends on the home beneath that place alone. */
  lemma {:induction false} ByCopyLocal(c: Rules, h: Files, h1: Files, top: Path, p: Path)
    requires top <= p
    requires forall q :: top <= q ==> (q in h1 <==> q in h) && (q in h ==> h1[q] == h[q])
    ensures ByCopy(c, h1, top, p) <==> ByCopy(c, h, top, p)
    ensures Taken(c, h1, top, p) <==> Taken(c, h, top, p)
  {
    forall q | top <= q ensures Unit(c, h1, q) <==> Unit(c, h, q) {}
    forall r ensures Carrier(c, h1, top, r) <==> Carrier(c, h, top, r) {}
  }

  /** A directory that is not moved leaves each entry to be moved on its own. */
  lemma {:induction false} ByCopyBelow(c: Rules, h: Files, rel: Path, n: string, p: Path)
    requires rel + [n] <= p && !Unit(c, h, rel)
    ensures ByCopy(c, h, rel, p) <==> ByCopy(c, h, rel + [n], p)
    ensures Taken(c, h, rel, p) <==> Taken(c, h, rel + [n], p)
  {
    forall r | rel <= r && r <= p && Unit(c, h, r) ensures rel + [n] <= r {
      assert r != rel && |rel| < |r| && r == p[..|r|];
      assert p[|rel|] == (rel + [n])[|rel|] == n;
    }
    forall r | r <= p ensures Carrier(c, h, rel, r) <==> Carrier(c, h, rel + [n], r) {
      forall q | Unit(c, h, q) && rel <= q && q <= r ensures rel + [n] <= q {
        assert q == rel || |rel| < |q|;
        assert q == p[..|q|] && (|rel| < |q| ==> p[..|q|][|rel|] == n);
      }
    }
  }

  /** All beneath a unit goes with it. */
  lemma {:induction false} ByCopyHere(c: Rules, h: Files, rel: Path, p: Path)
    requires rel <= p && p in h && Unit(c, h, rel)
    ensures ByCopy(c, h, rel, p) <==> rel in c.foreign
    ensures Taken(c, h, rel, p)
  {
    assert Carrier(c, h, rel, rel);
    forall r | Carrier(c, h, rel, r) ensures r == rel {
      assert !(rel < r);
    }
  }

  /** The capture driver: the home it empties, the tree it fills, and its two counters. */
  class Driver {
    var home: Files
    var tree: Files
    var renamed: nat
    var copied: nat
    const excludes: set<Path>
    const foreign: set<Path>

    constructor (home: Files, excludes: set<Path>, foreign: set<Path>)
      ensures this.home == home && tree == map[] && renamed == copied == 0
      ensures this.excludes == excludes && this.foreign == foreign
    {
      this.home, this.tree, this.renamed, this.copied := home, map[], 0, 0;
      this.excludes, this.foreign := excludes, foreign;
    }

    /** ensureParents: mirror the home's directories above a moved path. */
    method EnsureParents(rel: Path)
      requires Rooted(home) && rel in home && rel != []
      modifies this`tree
      ensures forall p :: p in tree <==> p in old(tree) || (p != [] && p < rel)
      ensures forall p :: p in tree ==> if p in old(tree) then tree[p] == old(tree)[p]
                                        else tree[p].kind.Dir? && p in home && tree[p].perm == home[p].perm
    {
      for n := 1 to |rel|
        invariant forall p :: p in tree <==> p in old(tree) || (p != [] && p < rel && |p| < n)
        invariant forall p :: p in tree ==> if p in old(tree) then tree[p] == old(tree)[p]
                                            else tree[p].kind.Dir? && p in home && tree[p].perm == home[p].perm
      {
        var cur := rel[..n];
        PrefixPresent(home, cur, rel);
        if cur !in tree {
          tree := tree[cur := Info(Dir, if cur in home then home[cur].perm else DEFAULT_PERM, 0, 0, "")];
        }
        assert forall p: Path :: p < rel && |p| == n ==> p == cur;
      }
    }

    /** move: one rename of the path and all beneath it, or a copy when the rename crosses a mount. */
    method Move(rel: Path)
      requires Rooted(home) && rel in home && rel != []
      modifies this`home, this`tree, this`renamed, this`copied
      ensures home == Without(old(home), rel)
      ensures forall p :: p in tree <==> p in old(tree) || (p != [] && p < rel) || p in Moved(old(home), rel, rel in foreign)
      ensures forall p :: p in tree ==>
                if p in Moved(old(home), rel, rel in foreign) then tree[p] == Moved(old(home), rel, rel in foreign)[p]
                else if p in old(tree) then tree[p] == old(tree)[p]
                else tree[p].kind.Dir? && p in old(home) && tree[p].perm == old(home)[p].perm
      ensures if rel in foreign then copied == old(copied) + 1 && renamed == old(renamed)
              else renamed == old(renamed) + 1 && copied == old(copied)
    {
      EnsureParents(rel);
      tree := tree + Moved(home, rel, rel in foreign);
      if rel in foreign { copied := copied + 1; } else { renamed := renamed + 1; }
      home := Without(home, rel);
    }

    ghost function Plan(surfaces: seq<Path>, b: Snapshot): Rules {
      Rules(surfaces, excludes, foreign, b)
    }

    /** The directory entries directly beneath a path. */
    function Names(rel: Path): set<string>
      reads this`home
    {
      Names0(home, rel)
    }

    /** Visit every entry of a directory that stays. */
    method Descend(surfaces: seq<Path>, b: Snapshot, rel: Path, ghost depth: nat)
      requires Rooted(home) && rel != [] && IsDir(home, rel) && !Excluded(excludes, rel) && !Unit(Plan(surfaces, b), home, rel)
      requires forall p :: p in home ==> |p| <= depth
      requires Grounded(surfaces, b) && Disjoint(surfaces) && exists s :: s in surfaces && s <= rel
      requires forall p :: p in tree ==> !(rel <= p)
      modifies this`home, this`tree, this`renamed, this`copied
      ensures Rooted(home) && forall p :: p in home ==> p in old(home)
      ensures Visited(Plan(surfaces, b), rel, old(home), home, old(tree), tree)
      decreases depth - |rel|, 0
    {
      ghost var c, h, t := Plan(surfaces, b), home, tree;
      var todo := Names(rel);
      DescendStart(c, h, t, rel, todo);
      ghost var s :| s in surfaces && s <= rel;
      while todo != {}
        invariant todo <= Names0(h, rel)
        invariant Descending(c, h, home, t, tree, rel, todo)
        decreases todo
      {
        var n :| n in todo;
        ghost var h1, t1 := home, tree;
        ChildOpen(c, h, h1, t, t1, rel, todo, n, s);
        Visit(surfaces, b, rel + [n], false, depth);
        DescendStep(c, h, h1, home, t, t1, tree, rel, todo, n);
        todo := todo - {n};
      }
      DescendEnd(c, h, home, t, tree, rel);
    }

    /** visit: move the path, descend into it, or leave it as the baseline's. */
    method Visit(surfaces: seq<Path>, b: Snapshot, rel: Path, isSurfaceRoot: bool, ghost depth: nat)
      requires Rooted(home) && rel != [] && |rel| <= depth
      requires forall p :: p in home ==> |p| <= depth
      requires Grounded(surfaces, b) && Disjoint(surfaces)
      requires exists s :: s in surfaces && s <= rel && (isSurfaceRoot <==> s == rel)
      requires forall p :: p in tree ==> !(rel <= p)
      modifies this`home, this`tree, this`renamed, this`copied
      ensures Rooted(home) && forall p :: p in home ==> p in old(home)
      ensures Visited(Plan(surfaces, b), rel, old(home), home, old(tree), tree)
      decreases depth - |rel|, 1
    {
      if Excluded(excludes, rel) || rel !in home {
        LeftAlone(Plan(surfaces, b), home, tree, rel);
        return;
      }
      ghost var c, h, t := Plan(surfaces, b), home, tree;
      var now := home[rel];
      if now.kind.Dir? {
        if !(rel in b && b[rel].isDir) && !isSurfaceRoot && !ContainsExcluded(excludes, rel) {
          NewDirectoryIsDelta(c, home, rel);
          Move(rel);
          MoveSettles(c, h, home, t, tree, rel);
          return;
        }
        Descend(surfaces, b, rel, depth);
        return;
      }
      LeafHasNothingBeneath(home, rel);
      if rel in b && b[rel] == NodeOf(now) {
        return;
      }
      Move(rel);
      MoveSettles(c, h, home, t, tree, rel);
    }

    /** moveDelta: every surface in turn. */
    method MoveDelta(surfaces: seq<Path>, b: Snapshot)
      requires Rooted(home) && tree == map[]
      requires Usable(Plan(surfaces, b))
      modifies this`home, this`tree, this`renamed, this`copied
      ensures Rooted(home)
      ensures Sweeping(Plan(surfaces, b), |surfaces|, old(home), home, tree)
    {
      ghost var h := home;
      SweepStart(Plan(surfaces, b), h);
      for n := 0 to |surfaces|
        invariant Rooted(home) && Sweeping(Plan(surfaces, b), n, h, home, tree)
      {
        MoveSurface(surfaces, b, n, h);
      }
    }

    /** One surface of the sweep; a missing one is passed over. */
    method MoveSurface(surfaces: seq<Path>, b: Snapshot, n: nat, ghost h: Files)
      requires Rooted(home) && n < |surfaces| && Usable(Plan(surfaces, b))
      requires Sweeping(Plan(surfaces, b), n, h, home, tree)
      modifies this`home, this`tree, this`renamed, this`copied
      ensures Rooted(home) && Sweeping(Plan(surfaces, b), n + 1, h, home, tree)
    {
      ghost var c, h1, t1 := Plan(surfaces, b), home, tree;
      SurfaceOpen(c, n, h, home, tree);
      if surfaces[n] in home {
        ghost var depth := DepthBound(home.Keys);
        Visit(surfaces, b, surfaces[n], true, depth + |surfaces[n]|);
      } else {
        LeftAlone(c, home, tree, surfaces[n]);
      }
      SweepStep(c, n, h, h1, home, t1, tree);
    }
  }

  function Names0(files: Files, rel: Path): set<string> {
    set p | p in files.Keys && |p| == |rel| + 1 && rel < p :: p[|rel|]
  }

  function Without(files: Files, rel: Path): Files {
    map p | p in files && !(rel <= p) :: files[p]
  }

  /** What arrives in the tree: everything, or what a copy can recreate, with fresh timestamps. */
  function Moved(files: Files, rel: Path, asCopy: bool): Files {
    map p | p in files && rel <= p && !(asCopy && files[p].kind.Special?)
      :: if asCopy then files[p].(mtime := 0) else files[p]
  }

  lemma {:induction false} PrefixPresent(files: Files, q: Path, p: Path)
    requires Rooted(files) && p in files && q <= p
    ensures q in files && (q < p ==> files[q].kind.Dir?)
    decreases |p|
  {
    if q < p {
      var parent := p[..|p| - 1];
      assert InDirectory(files, p) && q <= parent;
      PrefixPresent(files, q, parent);
      if |q| < |parent| {
        assert q < parent;
      } else {
        assert q == parent;
      }
    } else {
      assert q == p;
    }
  }

  /** A path outside the visited one stays as it was, but for the directories mirrored above a move. */
  ghost predicate Beside(excludes: set<Path>, rel: Path, h: Files, h': Files, t: Files, t': Files, p: Path) {
    && (p in h' <==> p in h) && (p in h ==> h'[p] == h[p])
    && (p in t ==> p in t' && t'[p] == t[p])
    && (p in t' && p !in t ==> p < rel && !Excluded(excludes, p) && IsDir(h, p) && t'[p].kind.Dir? && t'[p].perm == h[p].perm)
  }

  /** What visiting a path does: everything beneath it settles, everything else is beside it. */
  ghost predicate Visited(c: Rules, rel: Path, h: Files, h': Files, t: Files, t': Files) {
    && (forall p :: rel <= p ==> Settled(c, rel, h, h', t', p))
    && (rel in c.surfaces && IsDir(h, rel) ==> rel in h')
    && (forall p :: !(rel <= p) ==> Beside(c.excludes, rel, h, h', t, t', p))
  }

  /** An excluded or absent path settles by being left alone. */
  lemma {:induction false} LeftAlone(c: Rules, h: Files, t: Files, rel: Path)
    requires Rooted(h) && (Excluded(c.excludes, rel) || rel !in h)
    requires forall p :: p in t ==> !(rel <= p)
    ensures Visited(c, rel, h, h, t, t)
  {
    forall p | rel <= p ensures Settled(c, rel, h, h, t, p) {
      if p in h { PrefixPresent(h, rel, p); }
      forall r | rel <= r && r <= p ensures Excluded(c.excludes, rel) ==> Excluded(c.excludes, r) && !Unit(c, h, r) {
        ExcludedBelow(c.excludes, rel, r);
      }
    }
  }

  lemma {:induction false} LeafHasNothingBeneath(h: Files, rel: Path)
    requires Rooted(h) && IsLeaf(h, rel)
    ensures forall p :: p in h && rel <= p ==> p == rel
  {
    forall p | p in h && rel <= p ensures p == rel { PrefixPresent(h, rel, p); }
  }

  lemma {:induction false} PrefixesCompare(a: Path, b: Path, p: Path)
    requires b <= p
    ensures a <= p ==> a <= b || b < a
  {
    if a <= p {
      if |a| <= |b| { assert a == p[..|a|] == b[..|a|]; } else { assert b == p[..|b|] == a[..|b|]; }
    }
  }

  lemma {:induction false} PrefixesChain(a: Path, p: Path, c: Path)
    requires a <= p
    ensures p < c ==> a <= c
  {}

  lemma {:induction false} NotExcludedBeneath(excludes: set<Path>, rel: Path, p: Path)
    requires rel <= p && !Excluded(excludes, rel) && !ContainsExcluded(excludes, rel)
    ensures !Excluded(excludes, p)
  {
    forall ex | ex in excludes ensures !(ex <= p) { PrefixesCompare(ex, rel, p); }
  }

  /** Everything beneath a directory the baseline never saw is new, and none of it is excluded when no
      exclusion lies beneath it: the one rename takes exactly delta. */
  lemma {:induction false} NewDirectoryIsDelta(c: Rules, h: Files, rel: Path)
    requires Grounded(c.surfaces, c.baseline) && Disjoint(c.surfaces) && IsDir(h, rel) && Unit(c, h, rel)
    requires exists s :: s in c.surfaces && s < rel
    ensures forall p :: p in h && rel <= p ==> !Excluded(c.excludes, p) && (IsLeaf(h, p) ==> Changed(c.baseline, h, p))
  {
    var s :| s in c.surfaces && s < rel;
    forall p | p in h && rel <= p
      ensures !Excluded(c.excludes, p) && (IsLeaf(h, p) ==> Changed(c.baseline, h, p))
    {
      NotExcludedBeneath(c.excludes, rel, p);
      if IsLeaf(h, p) && p in c.baseline {
        assert p != rel && |rel| < |p|;
        AncestorRemembered(c.surfaces, c.baseline, s, rel, p);
      }
    }
  }

  /** A move of pure delta settles its whole subtree. */
  lemma {:induction false} MoveSettles(c: Rules, h: Files, h': Files, t: Files, t': Files, rel: Path)
    requires Rooted(h) && rel != [] && Unit(c, h, rel)
    requires forall p :: p in t ==> !(rel <= p)
    requires forall p :: p in h && rel <= p ==> !Excluded(c.excludes, p) && (IsLeaf(h, p) ==> Changed(c.baseline, h, p))
    requires h' == Without(h, rel)
    requires forall p :: p in t' <==> p in t || (p != [] && p < rel) || p in Moved(h, rel, rel in c.foreign)
    requires forall p :: p in t' ==>
               if p in Moved(h, rel, rel in c.foreign) then t'[p] == Moved(h, rel, rel in c.foreign)[p]
               else if p in t then t'[p] == t[p]
               else t'[p].kind.Dir? && p in h && t'[p].perm == h[p].perm
    ensures Rooted(h')
    ensures Visited(c, rel, h, h', t, t')
  {
    forall p | p in h' ensures InDirectory(h', p) {
      assert InDirectory(h, p);
      assert p != [] && rel <= p[..|p| - 1] ==> rel <= p;
    }
    forall p | rel <= p ensures Settled(c, rel, h, h', t', p) {
      assert !(p < rel);
      if p in h { ByCopyHere(c, h, rel, p); }
    }
    forall p | !(rel <= p) ensures Beside(c.excludes, rel, h, h', t, t', p) {
      if p < rel { ExcludedBelow(c.excludes, p, rel); PrefixPresent(h, p, rel); }
      assert p !in Moved(h, rel, rel in c.foreign);
    }
  }

  /** Midway through a directory: the entries done have settled, the others stand, nothing else moved. */
  ghost predicate Descending(c: Rules, h: Files, h': Files, t: Files, t': Files, rel: Path, todo: set<string>)
  {
    && Rooted(h') && (forall p :: p in h' ==> p in h) && IsDir(h, rel)
    && (forall p :: rel < p && p[|rel|] !in todo ==> Settled(c, rel, h, h', t', p))
    && (forall p :: rel < p && p[|rel|] in todo ==> (p in h' <==> p in h) && (p in h ==> h'[p] == h[p]) && p !in t')
    && rel in h' && h'[rel] == h[rel] && (rel in t' ==> t'[rel].kind.Dir? && t'[rel].perm == h[rel].perm)
    && (forall p :: !(rel <= p) ==> Beside(c.excludes, rel, h, h', t, t', p))
  }

  lemma {:induction false} DescendStart(c: Rules, h: Files, t: Files, rel: Path, todo: set<string>)
    requires Rooted(h) && IsDir(h, rel) && todo == Names0(h, rel)
    requires forall p :: p in t ==> !(rel <= p)
    ensures Descending(c, h, h, t, t, rel, todo)
  {
    forall p | p in h && rel < p ensures p[|rel|] in todo {
      var child := p[..|rel| + 1];
      PrefixPresent(h, child, p);
      assert child in h.Keys && |child| == |rel| + 1 && rel < child && child[|rel|] == p[|rel|];
    }
  }

  lemma {:induction false} DescendEnd(c: Rules, h: Files, h': Files, t: Files, t': Files, rel: Path)
    requires Descending(c, h, h', t, t', rel, {}) && !Excluded(c.excludes, rel) && !Unit(c, h, rel)
    ensures Visited(c, rel, h, h', t, t')
  {
    forall p | rel <= p ensures Settled(c, rel, h, h', t', p) {
      if |rel| < |p| {
        assert rel < p && p[|rel|] !in {};
      } else {
        assert p == rel;
        forall r | rel <= r && r <= p && Unit(c, h, r) ensures r == rel {}
      }
    }
  }

  /** An entry still to do is untouched: it may be visited. */
  lemma {:induction false} ChildOpen(c: Rules, h: Files, h1: Files, t: Files, t1: Files,
                  rel: Path, todo: set<string>, n: string, s: Path)
    requires Descending(c, h, h1, t, t1, rel, todo) && n in todo && todo <= Names0(h, rel) && s <= rel
    ensures rel + [n] in h
    ensures s <= rel + [n] && s != rel + [n]
    ensures forall p :: p in t1 ==> !(rel + [n] <= p)
  {
    NameHasPath(h, rel, n);
    forall p | p in t1 ensures !(rel + [n] <= p) {
      BeneathChild(rel, n, p);
    }
  }

  lemma {:induction false} NameHasPath(h: Files, rel: Path, n: string)
    requires n in Names0(h, rel)
    ensures rel + [n] in h
  {
    var child :| child in h.Keys && |child| == |rel| + 1 && rel < child && child[|rel|] == n;
    assert child == rel + [n];
  }

  lemma {:induction false} DescendStep(c: Rules, h: Files, h1: Files, h2: Files,
                    t: Files, t1: Files, t2: Files, rel: Path, todo: set<string>, n: string)
    requires Descending(c, h, h1, t, t1, rel, todo) && n in todo && !Unit(c, h, rel)
    requires Rooted(h2) && forall p :: p in h2 ==> p in h1
    requires Visited(c, rel + [n], h1, h2, t1, t2)
    ensures Descending(c, h, h2, t, t2, rel, todo - {n})
  {
    var child := rel + [n];
    forall p | rel < p
      ensures p[|rel|] !in todo - {n} ==> Settled(c, rel, h, h2, t2, p)
      ensures p[|rel|] in todo - {n} ==> (p in h2 <==> p in h) && (p in h ==> h2[p] == h[p]) && p !in t2
    {
      ChildRegion(rel, n, p);
      if p[|rel|] == n {
        forall q | child <= q ensures (q in h1 <==> q in h) && (q in h ==> h1[q] == h[q]) { ChildRegion(rel, n, q); }
        ByCopyLocal(c, h, h1, child, p);
        ByCopyBelow(c, h, rel, n, p);
        assert Settled(c, rel + [n], h1, h2, t2, p);
      } else {
        assert Beside(c.excludes, child, h1, h2, t1, t2, p);
      }
    }
    assert |rel| < |child| && Beside(c.excludes, child, h1, h2, t1, t2, rel);
    forall p | !(rel <= p) ensures Beside(c.excludes, rel, h, h2, t, t2, p) {
      OutsideChild(rel, n, p);
      assert Beside(c.excludes, child, h1, h2, t1, t2, p) && Beside(c.excludes, rel, h, h1, t, t1, p);
    }
  }

  lemma {:induction false} BeneathChild(rel: Path, n: string, p: Path)
    ensures rel + [n] <= p ==> rel < p && p[|rel|] == n
  {}

  lemma {:induction false} ChildRegion(rel: Path, n: string, p: Path)
    requires rel < p
    ensures rel + [n] <= p <==> p[|rel|] == n
    ensures !(p < rel + [n])
  {}

  lemma {:induction false} OutsideChild(rel: Path, n: string, p: Path)
    requires !(rel <= p)
    ensures !(rel + [n] <= p)
    ensures p < rel + [n] ==> p < rel
  {
    if p < rel + [n] {
      assert p == (rel + [n])[..|p|];
    }
  }

  // ---------------------------------------------------------------- all the surfaces

  /** Outside every surface the home keeps what it had, and the tree has at most mirrored directories. */
  ghost predicate Untouched(excludes: set<Path>, h: Files, h': Files, t': Files, p: Path) {
    && (p in h' <==> p in h) && (p in h ==> h'[p] == h[p])
    && (p in t' ==> !Excluded(excludes, p) && IsDir(h, p) && t'[p].kind.Dir? && t'[p].perm == h[p].perm)
  }

  lemma {:induction false} DepthBound(paths: set<Path>) returns (d: nat)
    ensures forall p :: p in paths ==> |p| <= d
  {
    d := 0;
    if paths != {} {
      var q :| q in paths;
      d := DepthBound(paths - {q});
      if d < |q| { d := |q|; }
    }
  }

  /** The surfaces done have settled, everything else stands. */
  ghost predicate Sweeping(c: Rules, n: nat, h: Files, h': Files, t': Files)
    requires n <= |c.surfaces|
  {
    match c
    case Rules(surfaces, excludes, _, _) =>
      && (forall j, p :: 0 <= j < n && surfaces[j] <= p ==> Settled(c, surfaces[j], h, h', t', p))
      && (forall j :: 0 <= j < n && IsDir(h, surfaces[j]) ==> surfaces[j] in h')
      && (forall p :: !InSurface(surfaces[..n], p) ==>
            Untouched(excludes, h, h', t', p) && (p in t' ==> exists j :: 0 <= j < n && p < surfaces[j]))
  }

  lemma {:induction false} SweepStart(c: Rules, h: Files)
    ensures Sweeping(c, 0, h, h, map[])
  {}

  lemma {:induction false} DisjointHere(surfaces: seq<Path>, n: nat, p: Path)
    requires Disjoint(surfaces) && n < |surfaces|
    ensures surfaces[n] <= p ==> !InSurface(surfaces[..n], p) && forall j :: 0 <= j < n ==> !(p < surfaces[j])
    ensures InSurface(surfaces[..n], p) ==> !(p < surfaces[n])
  {
    forall j | 0 <= j < n
      ensures !(surfaces[n] <= surfaces[j]) && !(surfaces[j] <= surfaces[n])
    {
      assert surfaces[j] in surfaces && surfaces[n] in surfaces;
    }
    if surfaces[n] <= p {
      forall s | s in surfaces[..n] ensures !(s <= p) {
        var j :| 0 <= j < n && surfaces[j] == s;
        PrefixesCompare(s, surfaces[n], p);
      }
      forall j | 0 <= j < n ensures !(p < surfaces[j]) {
        PrefixesChain(surfaces[n], p, surfaces[j]);
      }
    }
    if InSurface(surfaces[..n], p) {
      var s :| s in surfaces[..n] && s <= p;
      var j :| 0 <= j < n && surfaces[j] == s;
      PrefixesChain(s, p, surfaces[n]);
    }
  }

  lemma {:induction false} SurfaceOpen(c: Rules, n: nat, h: Files, h': Files, t': Files)
    requires Disjoint(c.surfaces) && n < |c.surfaces| && Sweeping(c, n, h, h', t')
    ensures forall p :: p in t' ==> !(c.surfaces[n] <= p)
    ensures c.surfaces[n] in c.surfaces
  {
    forall p | c.surfaces[n] <= p ensures p !in t' {
      DisjointHere(c.surfaces, n, p);
      assert Untouched(c.excludes, h, h', t', p);
    }
  }

  lemma {:induction false} InSurfaceStep(surfaces: seq<Path>, n: nat, p: Path)
    requires n < |surfaces|
    ensures InSurface(surfaces[..n + 1], p) <==> InSurface(surfaces[..n], p) || surfaces[n] <= p
  {
    assert surfaces[..n + 1] == surfaces[..n] + [surfaces[n]];
    if InSurface(surfaces[..n], p) {
      var s :| s in surfaces[..n] && s <= p;
      assert s in surfaces[..n + 1];
    }
    assert surfaces[n] in surfaces[..n + 1];
  }

  lemma {:induction false} SweepStep(c: Rules, n: nat, h: Files, h1: Files, h2: Files, t1: Files, t2: Files)
    requires Disjoint(c.surfaces) && n < |c.surfaces| && Sweeping(c, n, h, h1, t1)
    requires Visited(c, c.surfaces[n], h1, h2, t1, t2)
    ensures Sweeping(c, n + 1, h, h2, t2)
  {
    SweptAll(c, n, h, h1, h2, t1, t2);
    forall p | !InSurface(c.surfaces[..n + 1], p)
      ensures Untouched(c.excludes, h, h2, t2, p) && (p in t2 ==> exists j :: 0 <= j < n + 1 && p < c.surfaces[j])
    {
      SweptBeside(c, n, h, h1, h2, t1, t2, p);
    }
  }

  lemma {:induction false} SweptAll(c: Rules, n: nat, h: Files, h1: Files, h2: Files, t1: Files, t2: Files)
    requires Disjoint(c.surfaces) && n < |c.surfaces| && Sweeping(c, n, h, h1, t1)
    requires Visited(c, c.surfaces[n], h1, h2, t1, t2)
    ensures forall j, p :: 0 <= j < n + 1 && c.surfaces[j] <= p ==> Settled(c, c.surfaces[j], h, h2, t2, p)
    ensures forall j :: 0 <= j < n + 1 && IsDir(h, c.surfaces[j]) ==> c.surfaces[j] in h2
  {
    forall j, p | 0 <= j < n + 1 && c.surfaces[j] <= p
      ensures Settled(c, c.surfaces[j], h, h2, t2, p) && (p == c.surfaces[j] && IsDir(h, p) ==> p in h2)
    {
      SweptSettles(c, n, j, h, h1, h2, t1, t2, p);
    }
  }

  lemma {:induction false} SweptSettles(c: Rules, n: nat, j: nat, h: Files, h1: Files, h2: Files, t1: Files, t2: Files, p: Path)
    requires Disjoint(c.surfaces) && j <= n < |c.surfaces| && Sweeping(c, n, h, h1, t1) && c.surfaces[j] <= p
    requires Visited(c, c.surfaces[n], h1, h2, t1, t2)
    ensures Settled(c, c.surfaces[j], h, h2, t2, p)
    ensures p == c.surfaces[j] && IsDir(h, p) ==> p in h2
  {
    if j == n {
      assert c.surfaces[n] in c.surfaces && Settled(c, c.surfaces[n], h1, h2, t2, p);
      SweptNow(c, n, h, h1, h2, t1, t2, p);
    } else {
      SweptBefore(c, n, j, h, h1, h2, t1, t2, p);
    }
  }

  lemma {:induction false} SweptNow(c: Rules, n: nat, h: Files, h1: Files, h2: Files, t1: Files, t2: Files, p: Path)
    requires Disjoint(c.surfaces) && n < |c.surfaces| && Sweeping(c, n, h, h1, t1) && c.surfaces[n] <= p
    requires Settled(c, c.surfaces[n], h1, h2, t2, p)
    ensures Settled(c, c.surfaces[n], h, h2, t2, p)
    ensures IsDir(h, p) ==> IsDir(h1, p)
  {
    forall q | c.surfaces[n] <= q
      ensures Untouched(c.excludes, h, h1, t1, q) && (q in h1 <==> q in h) && (q in h ==> h1[q] == h[q])
    {
      DisjointHere(c.surfaces, n, q);
    }
    ByCopyLocal(c, h, h1, c.surfaces[n], p);
    assert Untouched(c.excludes, h, h1, t1, p);
  }

  lemma {:induction false} SweptBefore(c: Rules, n: nat, j: nat, h: Files, h1: Files, h2: Files, t1: Files, t2: Files, p: Path)
    requires Disjoint(c.surfaces) && j < n < |c.surfaces| && c.surfaces[j] <= p
    requires Sweeping(c, n, h, h1, t1) && Visited(c, c.surfaces[n], h1, h2, t1, t2)
    ensures Settled(c, c.surfaces[j], h, h2, t2, p)
    ensures p in h1 ==> p in h2
  {
    assert c.surfaces[j] in c.surfaces[..n] && InSurface(c.surfaces[..n], p);
    DisjointHere(c.surfaces, n, p);
    assert Settled(c, c.surfaces[j], h, h1, t1, p) && Beside(c.excludes, c.surfaces[n], h1, h2, t1, t2, p);
  }

  lemma {:induction false} SweptBeside(c: Rules, n: nat, h: Files, h1: Files, h2: Files, t1: Files, t2: Files, p: Path)
    requires n < |c.surfaces| && !InSurface(c.surfaces[..n + 1], p)
    requires Sweeping(c, n, h, h1, t1) && Visited(c, c.surfaces[n], h1, h2, t1, t2)
    ensures Untouched(c.excludes, h, h2, t2, p) && (p in t2 ==> exists j :: 0 <= j < n + 1 && p < c.surfaces[j])
  {
    InSurfaceStep(c.surfaces, n, p);
    assert Beside(c.excludes, c.surfaces[n], h1, h2, t1, t2, p);
    if p in t1 {
      var j :| 0 <= j < n && p < c.surfaces[j];
      assert 0 <= j < n + 1 && p < c.surfaces[j];
    }
  }

  /** Captured, as the source means it: under a surface, not excluded, and new or changed. */
  predicate IsDelta(surfaces: seq<Path>, excludes: set<Path>, before: Files, after: Files, p: Path)
    requires p in after
  {
    InSurface(surfaces, p) && !Excluded(excludes, p) && !(p in before && NodeOf(before[p]) == NodeOf(after[p]))
  }

  /** A path beneath a surface whose carrier is moved by copying. */
  ghost predicate CopiedAway(c: Rules, h: Files, p: Path) {
    exists j :: 0 <= j < |c.surfaces| && c.surfaces[j] <= p && ByCopy(c, h, c.surfaces[j], p)
  }

  /** A special file among them. */
  ghost predicate LostToCopy(c: Rules, h: Files, p: Path) {
    p in h && h[p].kind.Special? && CopiedAway(c, h, p)
  }

  /** Every leaf stays in the home exactly when it is not delta, and is in the tree exactly when it is
      delta and not lost to a copy. */
  ghost predicate Partitioned(c: Rules, before: Files, h: Files, h': Files, t': Files, p: Path) {
    && (IsLeaf(h, p) ==>
         && (p in h' <==> !IsDelta(c.surfaces, c.excludes, before, h, p)) && (p in h' ==> h'[p] == h[p])
         && (p in t' <==> IsDelta(c.surfaces, c.excludes, before, h, p) && !LostToCopy(c, h, p))
         && (p in t' ==> if CopiedAway(c, h, p) then Alike(t'[p], h[p]) else t'[p] == h[p]))
    && (p in t' ==> p in h && !Excluded(c.excludes, p))
  }

  lemma {:induction false} FatesPartition(c: Rules, before: Files, h: Files, h': Files, t': Files, p: Path)
    requires c.baseline == Baseline(c.surfaces, c.excludes, before)
    requires Sweeping(c, |c.surfaces|, h, h', t')
    ensures Partitioned(c, before, h, h', t', p)
  {
    assert c.surfaces[..|c.surfaces|] == c.surfaces;
    if InSurface(c.surfaces, p) {
      var s :| s in c.surfaces && s <= p;
      var j :| 0 <= j < |c.surfaces| && c.surfaces[j] == s;
      assert Settled(c, c.surfaces[j], h, h', t', p);
    }
    if CopiedAway(c, h, p) {
      var j :| 0 <= j < |c.surfaces| && c.surfaces[j] <= p && ByCopy(c, h, c.surfaces[j], p);
      assert Settled(c, c.surfaces[j], h, h', t', p);
    }
  }

  /** The capture of one run: walk, let the installer do what it will, move the delta. Against the home
      as it was before the installer, the fate of every path of the home after it; and no surface directory
      goes, however new it is. */
  method CaptureRun(surfaces: seq<Path>, before: Files, d: Driver)
    requires Rooted(before) && Rooted(d.home) && d.tree == map[] && [] !in surfaces && Disjoint(surfaces)
    modifies d`home, d`tree, d`renamed, d`copied
    ensures forall p :: Partitioned(d.Plan(surfaces, Baseline(surfaces, d.excludes, before)), before, old(d.home), d.home, d.tree, p)
    ensures forall p :: StaysIff(surfaces, d.excludes, before, old(d.home), d.home, p)
    ensures forall p :: DirStaysIff(surfaces, d.excludes, before, old(d.home), d.home, d.tree, p)
    ensures forall s :: s in surfaces && IsDir(old(d.home), s) ==> s in d.home
  {
    ghost var h := d.home;
    var b := Walk(surfaces, d.excludes, before);
    BaselineGrounded(surfaces, d.excludes, before);
    d.MoveDelta(surfaces, b);
    forall p
      ensures Partitioned(d.Plan(surfaces, b), before, h, d.home, d.tree, p)
      ensures StaysIff(surfaces, d.excludes, before, h, d.home, p)
      ensures DirStaysIff(surfaces, d.excludes, before, h, d.home, d.tree, p)
    {
      FatesPartition(d.Plan(surfaces, b), before, h, d.home, d.tree, p);
      PartitionedStays(d.Plan(surfaces, b), before, h, d.home, d.tree, p);
      DirectoryStays(d.Plan(surfaces, b), before, h, d.home, d.tree, p);
    }
  }

  /** What stays, in the home's own terms: a leaf beneath a surface and beneath no exclusion is still in the home
      after the run exactly when the same was there before it, no directory, a link just when it is one, of the
      same mode, size and modification time. */
  ghost predicate StaysIff(surfaces: seq<Path>, excludes: set<Path>, before: Files, after: Files, home: Files, p: Path) {
    p in after && after[p].kind != Dir && (exists s :: s in surfaces && s <= p) && (forall ex :: ex in excludes ==> !(ex <= p)) ==>
      (p in home <==>
       && p in before && before[p].kind != Dir
       && (before[p].kind == Symlink <==> after[p].kind == Symlink)
       && before[p].perm == after[p].perm && before[p].size == after[p].size && before[p].mtime == after[p].mtime)
  }

  /** A directory strictly beneath a surface that was none before, with no exclusion above, at or beneath it. */
  ghost predicate NewDirectory(surfaces: seq<Path>, excludes: set<Path>, before: Files, after: Files, q: Path) {
    && q in after && after[q].kind == Dir && !(q in before && before[q].kind == Dir)
    && (exists s :: s in surfaces && s < q)
    && forall ex :: ex in excludes ==> !(ex <= q) && !(q < ex)
  }

  /** A directory leaves the home exactly with a new one it is or lies in, and is then in the tree, in its own mode:
      an empty one as any other. */
  ghost predicate DirStaysIff(surfaces: seq<Path>, excludes: set<Path>, before: Files, after: Files, home: Files, tree: Files, p: Path) {
    p in after && after[p].kind == Dir ==>
      && (p !in home <==> exists q :: q <= p && NewDirectory(surfaces, excludes, before, after, q))
      && (p !in home ==> p in tree && tree[p].kind == Dir && tree[p].perm == after[p].perm)
  }

  lemma {:induction false} DirectoryStays(c: Rules, before: Files, h: Files, h': Files, t': Files, p: Path)
    requires c.baseline == Baseline(c.surfaces, c.excludes, before) && Rooted(h) && Disjoint(c.surfaces)
    requires Sweeping(c, |c.surfaces|, h, h', t')
    ensures DirStaysIff(c.surfaces, c.excludes, before, h, h', t', p)
  {
    if IsDir(h, p) {
      DirectoryFate(c, h, h', t', p);
      if q :| q <= p && NewDirectory(c.surfaces, c.excludes, before, h, q) {
        NewDirectoryIsUnit(c, before, h, q, p);
        var s :| s in c.surfaces && s < q;
        assert s <= p && Taken(c, h, s, p);
      }
      if s :| s in c.surfaces && s <= p && Taken(c, h, s, p) {
        var r :| s <= r && r <= p && Unit(c, h, r);
        PrefixPresent(h, r, p);
        assert IsDir(h, r) by { if r != p { assert r < p; } }
        assert r !in c.surfaces && s != r && s < r;
        NewDirectoryIsUnit(c, before, h, r, p);
      }
    }
  }

  lemma {:induction false} DirectoryFate(c: Rules, h: Files, h': Files, t': Files, p: Path)
    requires Sweeping(c, |c.surfaces|, h, h', t') && IsDir(h, p)
    ensures p !in h' <==> exists s :: s in c.surfaces && s <= p && Taken(c, h, s, p)
    ensures p !in h' ==> p in t' && t'[p].kind.Dir? && t'[p].perm == h[p].perm
  {
    assert c.surfaces[..|c.surfaces|] == c.surfaces;
    forall s | s in c.surfaces && s <= p
      ensures (p !in h' <==> Taken(c, h, s, p)) && (p !in h' ==> p in t' && t'[p].kind.Dir? && t'[p].perm == h[p].perm)
    {
      var j :| 0 <= j < |c.surfaces| && c.surfaces[j] == s;
      assert Settled(c, c.surfaces[j], h, h', t', p);
    }
    if !InSurface(c.surfaces, p) { assert Untouched(c.excludes, h, h', t', p); }
  }

  lemma {:induction false} NewDirectoryIsUnit(c: Rules, before: Files, h: Files, q: Path, p: Path)
    requires c.baseline == Baseline(c.surfaces, c.excludes, before) && Rooted(h) && IsDir(h, p) && q <= p && Disjoint(c.surfaces)
    ensures NewDirectory(c.surfaces, c.excludes, before, h, q) <==> Unit(c, h, q) && exists s :: s in c.surfaces && s < q
  {
    PrefixPresent(h, q, p);
    assert IsDir(h, q) by { if q != p { assert q < p; } }
    if s :| s in c.surfaces && s < q {
      assert InSurface(c.surfaces, q);
      if forall ex :: ex in c.excludes ==> !(ex <= q) && !(q < ex) { assert !Excluded(c.excludes, q) && !ContainsExcluded(c.excludes, q); }
      if Unit(c, h, q) {
        forall ex | ex in c.excludes ensures !(ex <= q) && !(q < ex) {}
      }
      assert q in c.baseline && c.baseline[q].isDir ==> q in before && before[q].kind == Dir;
      assert !Excluded(c.excludes, q) && q in before && before[q].kind == Dir ==> q in c.baseline && c.baseline[q].isDir;
      assert q !in c.surfaces;
    }
  }

  lemma {:induction false} PartitionedStays(c: Rules, before: Files, h: Files, h': Files, t': Files, p: Path)
    requires Partitioned(c, before, h, h', t', p)
    ensures StaysIff(c.surfaces, c.excludes, before, h, h', p)
  {
    if exists s :: s in c.surfaces && s <= p {
      var s :| s in c.surfaces && s <= p;
      assert InSurface(c.surfaces, p);
    }
    if forall ex :: ex in c.excludes ==> !(ex <= p) { assert !Excluded(c.excludes, p); }
  }

  /** And what is outside every surface, or at or beneath an exclusion, stays always and is never captured. */
  lemma {:induction false} OutsideStays(c: Rules, before: Files, h: Files, h': Files, t': Files, p: Path)
    requires Partitioned(c, before, h, h', t', p) && p in h && h[p].kind != Dir
    requires (forall s :: s in c.surfaces ==> !(s <= p)) || (exists ex :: ex in c.excludes && ex <= p)
    ensures p in h' && h'[p] == h[p] && p !in t'
  {
    if exists ex :: ex in c.excludes && ex <= p {
      var ex :| ex in c.excludes && ex <= p;
      assert Excluded(c.excludes, p);
    } else {
      assert !InSurface(c.surfaces, p);
    }
  }

  /** The partition exactly: a leaf is in neither place if and only if it is a new or changed special
      file whose carrier's move crosses a mount; and it is never in both. */
  lemma {:induction false} InNeitherIff(c: Rules, before: Files, h: Files, h': Files, t': Files, p: Path)
    requires IsLeaf(h, p) && Partitioned(c, before, h, h', t', p)
    ensures !(p in h' && p in t')
    ensures p !in h' && p !in t' <==> IsDelta(c.surfaces, c.excludes, before, h, p) && LostToCopy(c, h, p)
  {}

  /** A surface directory, and in it one socket the installer left behind. */
  function Bare(surface: string): Files {
    map[[] := Info(Dir, DEFAULT_PERM, 0, 0, ""), [surface] := Info(Dir, DEFAULT_PERM, 0, 0, "")]
  }

  function WithSocket(surface: string, name: string): Files {
    Bare(surface)[[surface, name] := Info(Special, DEFAULT_PERM, 0, 0, "")]
  }

  /** If the socket's path is on another mount, it is lost. */
  lemma {:induction false} SocketIsDropped(c: Rules, surface: string, name: string)
    requires c == Rules([[surface]], {}, {[surface, name]}, Baseline([[surface]], {}, Bare(surface)))
    ensures LostToCopy(c, WithSocket(surface, name), [surface, name])
    ensures IsDelta(c.surfaces, {}, Bare(surface), WithSocket(surface, name), [surface, name])
  {
    var h, top, socket := WithSocket(surface, name), [surface], [surface, name];
    assert top in c.surfaces && c.surfaces[0] == top && top <= socket;
    assert socket !in Bare(surface) && Unit(c, h, socket) && !Unit(c, h, top);
    forall q | top <= q && q < socket ensures !Unit(c, h, q) { assert q == top; }
    assert Carrier(c, h, top, socket) && socket in c.foreign;
  }

  /** A run that loses a file, from start to end. */
  method SocketIsLost(surface: string, name: string) returns (d: Driver)
    ensures fresh(d) && [surface, name] !in d.home && [surface, name] !in d.tree
  {
    d := new Driver(WithSocket(surface, name), {}, {[surface, name]});
    BareIsRooted(surface, name);
    CaptureRun([[surface]], Bare(surface), d);
    ghost var c := d.Plan([[surface]], Baseline([[surface]], {}, Bare(surface)));
    SocketIsDropped(c, surface, name);
    InNeitherIff(c, Bare(surface), WithSocket(surface, name), d.home, d.tree, [surface, name]);
  }

  lemma {:induction false} BareIsRooted(surface: string, name: string)
    ensures Rooted(Bare(surface)) && Rooted(WithSocket(surface, name))
  {
    assert [surface][..0] == [] && [surface, name][..1] == [surface];
  }
}
