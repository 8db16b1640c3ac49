/** internal/basehome: the ordered classification of a home-relative path, and the recursive walk that
    collapses a directory into one candidate only when nothing kept lies beneath it. */
module BaseHome {

  /** A clean home-relative path, one segment per level; [] is the home itself. */
  type Path = seq<string>

  datatype Class = Unclassified | Credential | Config | Content | Runtime

  predicate IsCandidate(c: Class) {
    c.Runtime? || c.Unclassified?
  }

  datatype Redirect = Redirect(name: Path, target: Path)

  datatype Decls = Decls(sharedDirs: seq<Path>, credentialFiles: seq<Path>, configSurfaces: seq<Path>,
                         contentDests: seq<Path>, redirects: seq<Redirect>, nonPackDirs: seq<Path>)

  const CORE_CREDENTIAL_BASENAMES: seq<string> := [".credentials.json", "auth.json", "oauth_creds.json"]
  const SQLITE_SIDECAR_SUFFIXES: seq<string> := ["-wal", "-shm"]
  const MAX_DEPTH: nat := 64

  // ---------------------------------------------------------------- classification

  /** The path is the base or lies beneath it; the home itself owns nothing. */
  predicate UnderOrAt(rel: Path, base: Path) {
    base != [] && base <= rel
  }

  predicate UnderSharedDir(d: Decls, rel: Path) {
    exists i :: 0 <= i < |d.sharedDirs| && UnderOrAt(rel, d.sharedDirs[i])
  }

  predicate ProvisionedDir(d: Decls, rel: Path) {
    rel != [] && rel in d.nonPackDirs
  }

  function Base(rel: Path): string
    requires rel != []
  {
    rel[|rel| - 1]
  }

  predicate IsCredentialPath(d: Decls, rel: Path)
    requires rel != []
  {
    || (exists i :: 0 <= i < |d.credentialFiles| && d.credentialFiles[i] != [] &&
          (UnderOrAt(rel, d.credentialFiles[i]) || Base(d.credentialFiles[i]) == Base(rel)))
    || Base(rel) in CORE_CREDENTIAL_BASENAMES
  }

  function RedirectFrom(redirects: seq<Redirect>, rel: Path): Path {
    if redirects == [] then rel
    else if redirects[0].name == rel then redirects[0].target
    else RedirectFrom(redirects[1..], rel)
  }

  predicate HasSuffix(s: string, suffix: string) {
    |suffix| <= |s| && s[|s| - |suffix|..] == suffix
  }

  /** The path with a suffix taken off its last segment, made clean again: a bare suffix leaves the
      directory it is in, and a leftover dot name is resolved. */
  function TrimBase(rel: Path, suffix: string): Path
    requires rel != [] && HasSuffix(Base(rel), suffix)
  {
    var trimmed, parent := Base(rel)[..|Base(rel)| - |suffix|], rel[..|rel| - 1];
    if trimmed == "" || trimmed == "." then parent
    else if trimmed == ".." then (if parent == [] then [] else parent[..|parent| - 1])
    else parent + [trimmed]
  }

  /** The rules but the sidecar one, in order. */
  function ClassifyAlone(d: Decls, rel: Path): (c: Class)
    ensures c != Unclassified
  {
    if rel == [] then Credential
    else if UnderSharedDir(d, rel) then Credential
    else if IsCredentialPath(d, rel) then Credential
    else if exists i :: 0 <= i < |d.configSurfaces| && UnderOrAt(rel, RedirectFrom(d.redirects, d.configSurfaces[i])) then Config
    else if exists i :: 0 <= i < |d.contentDests| && UnderOrAt(rel, d.contentDests[i]) then Content
    else Runtime
  }

  /** What a sidecar of the path would inherit: the class of the database it names, if that is kept. */
  function SidecarClass(d: Decls, rel: Path, suffixes: seq<string>): Class
    requires rel != []
  {
    if suffixes == [] then Runtime
    else if HasSuffix(Base(rel), suffixes[0]) && !IsCandidate(ClassifyAlone(d, TrimBase(rel, suffixes[0])))
    then ClassifyAlone(d, TrimBase(rel, suffixes[0]))
    else SidecarClass(d, rel, suffixes[1..])
  }

  function Classify(d: Decls, rel: Path): Class {
    var alone := ClassifyAlone(d, rel);
    if alone.Runtime? then SidecarClass(d, rel, SQLITE_SIDECAR_SUFFIXES) else alone
  }

  /** A sidecar is never separated from a kept database. */
  lemma {:induction false} SidecarStaysWithDatabase(d: Decls, db: Path, suffix: string)
    requires db != [] && Base(db) !in {"", ".", ".."} && suffix in SQLITE_SIDECAR_SUFFIXES
    requires !IsCandidate(ClassifyAlone(d, db))
    ensures !IsCandidate(Classify(d, db[..|db| - 1] + [Base(db) + suffix]))
  {
    var rel := db[..|db| - 1] + [Base(db) + suffix];
    assert db[..|db| - 1] + [Base(db)] == db && rel[..|rel| - 1] == db[..|db| - 1];
    assert Base(rel)[..|Base(rel)| - |suffix|] == Base(db);
    assert HasSuffix(Base(rel), suffix) && TrimBase(rel, suffix) == db;
    assert SQLITE_SIDECAR_SUFFIXES[1..] == ["-shm"];
    if suffix == "-shm" {
      assert Base(rel)[|Base(rel)| - 1] == 'm' && "-wal"[3] == 'l';
      assert !HasSuffix(Base(rel), "-wal");
    }
    assert SidecarClass(d, rel, [suffix]) == ClassifyAlone(d, db);
  }

  // ---------------------------------------------------------------- the tree and the walk

  /** What an lstat of a listed leaf answers. */
  datatype Stat = Sized(size: nat) | Unstatable | Vanished

  /** A link's target, when it can be read and names a path of the home. */
  datatype Link = NotALink | LinksTo(target: Path) | LinksElsewhere

  datatype Node = Directory(entries: seq<Dirent>) | Unlistable | File(stat: Stat, link: Link)

  datatype Dirent = Dirent(name: string, node: Node)

  datatype Entry = Entry(rel: Path, kind: Class, dir: bool, bytes: nat, leaves: nat)

  datatype ScanResult = ScanResult(cands: seq<Entry>, kept: nat, bytes: nat, leaves: nat, opaqueBelow: bool)

  const NOTHING: ScanResult := ScanResult([], 0, 0, 0, false)

  /** A leaf's fate: gone already, kept, or a candidate. */
  predicate LeafKept(d: Decls, rel: Path, leaf: Node)
    requires leaf.File?
  {
    UnderSharedDir(d, rel) ||
    (!leaf.stat.Vanished? &&
     (!IsCandidate(Classify(d, rel)) || (leaf.link.LinksTo? && !IsCandidate(Classify(d, leaf.link.target)))))
  }

  predicate LeafMoves(d: Decls, rel: Path, leaf: Node)
    requires leaf.File?
  {
    !leaf.stat.Vanished? && !LeafKept(d, rel, leaf)
  }

  /** A candidate-class leaf that is there and cannot be examined: it vetoes its parents' collapse even when
      its link target keeps it. */
  predicate LeafHides(d: Decls, rel: Path, leaf: Node)
    requires leaf.File?
  {
    leaf.stat.Unstatable? && !UnderSharedDir(d, rel) && IsCandidate(Classify(d, rel))
  }

  predicate DirKept(d: Decls, rel: Path) {
    UnderSharedDir(d, rel) || !IsCandidate(Classify(d, rel))
  }

  function SizeOf(leaf: Node): nat
    requires leaf.File?
  {
    if leaf.stat.Sized? then leaf.stat.size else 0
  }

  /** The walk of one directory, as a function of the tree it finds. */
  function Scan(d: Decls, node: Node, rel: Path, depth: nat): ScanResult
    decreases node, 1, 0
  {
    if node.Directory? then ScanUpTo(d, node, |node.entries|, rel, depth)
    else NOTHING.(cands := [Entry(rel, Unclassified, true, 0, 0)], opaqueBelow := true)
  }

  /** The accumulators after the first n entries. */
  function ScanUpTo(d: Decls, node: Node, n: nat, rel: Path, depth: nat): ScanResult
    requires node.Directory? && n <= |node.entries|
    decreases node, 0, n
  {
    if n == 0 then NOTHING
    else
      var e := node.entries[n - 1];
      Added(ScanUpTo(d, node, n - 1, rel, depth), ScanEntry(d, e.node, rel + [e.name], depth))
  }

  /** What one directory entry contributes. */
  function ScanEntry(d: Decls, node: Node, child: Path, depth: nat): ScanResult
    decreases node, 2, 0
  {
    if node.File? then ScanLeaf(d, child, node)
    else if DirKept(d, child) then NOTHING.(kept := 1)
    else if depth + 1 >= MAX_DEPTH then NOTHING.(opaqueBelow := true, cands := [Entry(child, Unclassified, true, 0, 0)])
    else
      var sub := Scan(d, node, child, depth + 1);
      if Collapses(d, child, sub) then sub.(cands := [Entry(child, Runtime, true, sub.bytes, sub.leaves)]) else sub
  }

  function ScanLeaf(d: Decls, child: Path, leaf: Node): ScanResult
    requires leaf.File?
  {
    if LeafKept(d, child, leaf) then NOTHING.(kept := 1, opaqueBelow := LeafHides(d, child, leaf))
    else if leaf.stat.Vanished? then NOTHING
    else ScanResult([Entry(child, Classify(d, child), false, SizeOf(leaf), 1)], 0, SizeOf(leaf), 1, LeafHides(d, child, leaf))
  }

  predicate Collapses(d: Decls, child: Path, sub: ScanResult) {
    sub.kept == 0 && !sub.opaqueBelow && !ProvisionedDir(d, child)
  }

  function Added(a: ScanResult, b: ScanResult): ScanResult {
    ScanResult(a.cands + b.cands, a.kept + b.kept, a.bytes + b.bytes, a.leaves + b.leaves, a.opaqueBelow || b.opaqueBelow)
  }

  /** A leaf outside the shared directories: its class is its path's, a failed stat costs only its size,
      and a link into a kept place is kept. */
  method WalkLeaf(d: Decls, child: Path, leaf: Node) returns (res: ScanResult)
    requires leaf.File? && !UnderSharedDir(d, child)
    ensures res == ScanLeaf(d, child, leaf)
  {
    if leaf.stat.Vanished? {
      return NOTHING;
    }
    var verdict := Classify(d, child);
    var hidden := leaf.stat.Unstatable? && IsCandidate(verdict);
    if IsCandidate(verdict) && leaf.link.LinksTo? && !IsCandidate(Classify(d, leaf.link.target)) {
      return NOTHING.(kept := 1, opaqueBelow := hidden);
    }
    if !IsCandidate(verdict) {
      return NOTHING.(kept := 1);
    }
    return ScanResult([Entry(child, verdict, false, SizeOf(leaf), 1)], 0, SizeOf(leaf), 1, hidden);
  }

  /** walk.scan. */
  method ScanDir(d: Decls, node: Node, rel: Path, depth: nat) returns (res: ScanResult)
    ensures res == Scan(d, node, rel, depth)
    decreases node
  {
    if !node.Directory? {
      return ScanResult([Entry(rel, Unclassified, true, 0, 0)], 0, 0, 0, true);
    }
    var cands: seq<Entry> := [];
    var kept: nat, bytes: nat, leaves: nat, hidden := 0, 0, 0, false;
    for i := 0 to |node.entries|
      invariant ScanResult(cands, kept, bytes, leaves, hidden) == ScanUpTo(d, node, i, rel, depth)
    {
      var e := node.entries[i];
      var child := rel + [e.name];
      if UnderSharedDir(d, child) {
        kept := kept + 1;
      } else if !e.node.File? {
        if !IsCandidate(Classify(d, child)) {
          kept := kept + 1;
        } else if depth + 1 >= MAX_DEPTH {
          hidden := true;
          cands := cands + [Entry(child, Unclassified, true, 0, 0)];
        } else {
          var sub := ScanDir(d, e.node, child, depth + 1);
          kept, bytes, leaves, hidden := kept + sub.kept, bytes + sub.bytes, leaves + sub.leaves, hidden || sub.opaqueBelow;
          if sub.kept == 0 && !sub.opaqueBelow && !ProvisionedDir(d, child) {
            cands := cands + [Entry(child, Runtime, true, sub.bytes, sub.leaves)];
          } else {
            cands := cands + sub.cands;
          }
        }
      } else {
        var leaf := WalkLeaf(d, child, e.node);
        kept, bytes, leaves, hidden := kept + leaf.kept, bytes + leaf.bytes, leaves + leaf.leaves, hidden || leaf.opaqueBelow;
        cands := cands + leaf.cands;
      }
    }
    return ScanResult(cands, kept, bytes, leaves, hidden);
  }

  // ---------------------------------------------------------------- what the walk passes, without collapsing

  /** Something the walk meets and does not look beneath: kept, to be moved, or a directory it cannot see into. */
  datatype Fate = Kept | Moves(bytes: nat) | Unseen

  datatype Found = Found(path: Path, fate: Fate, blind: bool)

  ghost predicate Hides(f: Found) {
    f.fate.Unseen? || f.blind
  }

  /** Everything met beneath a directory, in walk order. */
  ghost function Trail(d: Decls, node: Node, rel: Path, depth: nat): seq<Found>
    decreases node, 1, 0
  {
    if node.Directory? then TrailUpTo(d, node, |node.entries|, rel, depth) else [Found(rel, Unseen, true)]
  }

  ghost function TrailUpTo(d: Decls, node: Node, n: nat, rel: Path, depth: nat): seq<Found>
    requires node.Directory? && n <= |node.entries|
    decreases node, 0, n
  {
    if n == 0 then []
    else TrailUpTo(d, node, n - 1, rel, depth) + Met(d, node.entries[n - 1].node, rel + [node.entries[n - 1].name], depth)
  }

  ghost function Met(d: Decls, node: Node, child: Path, depth: nat): seq<Found>
    decreases node, 2, 0
  {
    if node.File? then
      if LeafKept(d, child, node) then [Found(child, Kept, LeafHides(d, child, node))]
      else if LeafMoves(d, child, node) then [Found(child, Moves(SizeOf(node)), LeafHides(d, child, node))]
      else []
    else if DirKept(d, child) then [Found(child, Kept, false)]
    else if depth + 1 >= MAX_DEPTH then [Found(child, Unseen, true)]
    else Trail(d, node, child, depth + 1)
  }

  // ---------------------------------------------------------------- what the totals mean

  ghost function KeptIn(t: seq<Found>): nat {
    if t == [] then 0 else KeptIn(t[..|t| - 1]) + if t[|t| - 1].fate.Kept? then 1 else 0
  }

  ghost function BytesIn(t: seq<Found>, base: Path): nat {
    if t == [] then 0
    else BytesIn(t[..|t| - 1], base) + if t[|t| - 1].fate.Moves? && base <= t[|t| - 1].path then t[|t| - 1].fate.bytes else 0
  }

  ghost function LeavesIn(t: seq<Found>, base: Path): nat {
    if t == [] then 0
    else LeavesIn(t[..|t| - 1], base) + if t[|t| - 1].fate.Moves? && base <= t[|t| - 1].path then 1 else 0
  }

  ghost predicate HiddenIn(t: seq<Found>) {
    exists i :: 0 <= i < |t| && Hides(t[i])
  }

  ghost function BytesOf(cands: seq<Entry>): nat {
    if cands == [] then 0 else BytesOf(cands[..|cands| - 1]) + cands[|cands| - 1].bytes
  }

  ghost function LeavesOf(cands: seq<Entry>): nat {
    if cands == [] then 0 else LeavesOf(cands[..|cands| - 1]) + cands[|cands| - 1].leaves
  }

  lemma {:induction false} SumsSplit(t: seq<Found>, u: seq<Found>, base: Path)
    ensures KeptIn(t + u) == KeptIn(t) + KeptIn(u)
    ensures BytesIn(t + u, base) == BytesIn(t, base) + BytesIn(u, base)
    ensures LeavesIn(t + u, base) == LeavesIn(t, base) + LeavesIn(u, base)
  {
    if u == [] {
      assert t + u == t;
    } else {
      assert (t + u)[..|t + u| - 1] == t + u[..|u| - 1];
      SumsSplit(t, u[..|u| - 1], base);
    }
  }

  lemma {:induction false} TotalsSplit(a: seq<Entry>, b: seq<Entry>)
    ensures BytesOf(a + b) == BytesOf(a) + BytesOf(b) && LeavesOf(a + b) == LeavesOf(a) + LeavesOf(b)
  {
    if b == [] {
      assert a + b == a;
    } else {
      assert (a + b)[..|a + b| - 1] == a + b[..|b| - 1];
      TotalsSplit(a, b[..|b| - 1]);
    }
  }

  /** A result's counters are the sums over the trail, and its candidates divide them up. */
  ghost predicate Accounts(res: ScanResult, t: seq<Found>, base: Path) {
    && res.kept == KeptIn(t)
    && res.bytes == BytesIn(t, base) == BytesOf(res.cands)
    && res.leaves == LeavesIn(t, base) == LeavesOf(res.cands)
    && (res.opaqueBelow <==> HiddenIn(t))
  }

  lemma {:induction false} AccountsAdded(a: ScanResult, b: ScanResult, t: seq<Found>, u: seq<Found>, base: Path)
    requires Accounts(a, t, base) && Accounts(b, u, base)
    ensures Accounts(Added(a, b), t + u, base)
  {
    SumsSplit(t, u, base);
    TotalsSplit(a.cands, b.cands);
    if HiddenIn(t) {
      var i :| 0 <= i < |t| && Hides(t[i]);
      assert Hides((t + u)[i]);
    }
    if HiddenIn(u) {
      var i :| 0 <= i < |u| && Hides(u[i]);
      assert Hides((t + u)[|t| + i]);
    }
    if HiddenIn(t + u) {
      var i :| 0 <= i < |t + u| && Hides((t + u)[i]);
      assert if i < |t| then Hides(t[i]) else Hides(u[i - |t|]);
    }
  }

  lemma {:induction false} ScanAccounts(d: Decls, node: Node, rel: Path, depth: nat, base: Path)
    requires base <= rel
    ensures Accounts(Scan(d, node, rel, depth), Trail(d, node, rel, depth), base)
    decreases node, 1, 0
  {
    if node.Directory? {
      ScanUpToAccounts(d, node, |node.entries|, rel, depth, base);
    } else {
      assert Hides(Trail(d, node, rel, depth)[0]);
    }
  }

  lemma {:induction false} ScanUpToAccounts(d: Decls, node: Node, n: nat, rel: Path, depth: nat, base: Path)
    requires node.Directory? && n <= |node.entries| && base <= rel
    ensures Accounts(ScanUpTo(d, node, n, rel, depth), TrailUpTo(d, node, n, rel, depth), base)
    decreases node, 0, n
  {
    if n > 0 {
      var e := node.entries[n - 1];
      ScanUpToAccounts(d, node, n - 1, rel, depth, base);
      ScanEntryAccounts(d, e.node, rel + [e.name], depth, base);
      AccountsAdded(ScanUpTo(d, node, n - 1, rel, depth), ScanEntry(d, e.node, rel + [e.name], depth),
                    TrailUpTo(d, node, n - 1, rel, depth), Met(d, e.node, rel + [e.name], depth), base);
    }
  }

  lemma {:induction false} ScanEntryAccounts(d: Decls, node: Node, child: Path, depth: nat, base: Path)
    requires base <= child
    ensures Accounts(ScanEntry(d, node, child, depth), Met(d, node, child, depth), base)
    decreases node, 2, 0
  {
    if !node.File? && !DirKept(d, child) && depth + 1 < MAX_DEPTH {
      ScanAccounts(d, node, child, depth + 1, base);
    } else {
      assert forall f :: BytesIn([f], base) == if f.fate.Moves? && base <= f.path then f.fate.bytes else 0;
      assert forall f :: LeavesIn([f], base) == if f.fate.Moves? && base <= f.path then 1 else 0;
    }
  }

  // ---------------------------------------------------------------- safe collapse

  predicate Comparable(p: Path, q: Path) {
    p <= q || q <= p
  }

  ghost predicate DistinctNames(node: Node) {
    node.Directory? ==>
      && (forall i, j :: 0 <= i < j < |node.entries| ==> node.entries[i].name != node.entries[j].name)
      && (forall i :: 0 <= i < |node.entries| ==> DistinctNames(node.entries[i].node))
  }

  ghost predicate Covered(cands: seq<Entry>, p: Path) {
    exists i :: 0 <= i < |cands| && cands[i].rel <= p
  }

  /** A candidate meets a found path only from above, never where it is kept, and where something is hidden
      only by naming that very place. */
  ghost predicate Fits(c: Entry, f: Found) {
    Comparable(c.rel, f.path) ==>
      c.rel <= f.path && !f.fate.Kept? && (Hides(f) ==> c.rel == f.path) && (f.fate.Unseen? ==> c.kind.Unclassified?)
  }

  /** What the candidates owe to what was met: never nested in one another, each covering nothing kept and
      carrying exactly the moving leaves beneath it, and leaving no moving leaf or unseen directory out. */
  ghost predicate Sound(cands: seq<Entry>, t: seq<Found>) {
    && (forall i, j :: 0 <= i < j < |cands| ==> !Comparable(cands[i].rel, cands[j].rel))
    && (forall i, k :: 0 <= i < |cands| && 0 <= k < |t| ==> Fits(cands[i], t[k]))
    && (forall k :: 0 <= k < |t| && !t[k].fate.Kept? ==> Covered(cands, t[k].path))
    && (forall i :: 0 <= i < |cands| ==> cands[i].bytes == BytesIn(t, cands[i].rel) && cands[i].leaves == LeavesIn(t, cands[i].rel))
  }

  /** Every path of a scan lies beneath one of the paths given. */
  ghost predicate Beneath(cands: seq<Entry>, t: seq<Found>, tops: set<Path>) {
    && (forall i :: 0 <= i < |cands| ==> HasTop(tops, cands[i].rel))
    && (forall k :: 0 <= k < |t| ==> HasTop(tops, t[k].path))
  }

  ghost predicate HasTop(tops: set<Path>, p: Path) {
    exists top :: top in tops && top <= p
  }

  lemma {:induction false} NothingElsewhere(t: seq<Found>, base: Path)
    requires forall k :: 0 <= k < |t| ==> !(base <= t[k].path)
    ensures BytesIn(t, base) == 0 && LeavesIn(t, base) == 0
  {
    if t != [] {
      NothingElsewhere(t[..|t| - 1], base);
    }
  }

  lemma {:induction false} KeptSeen(t: seq<Found>, k: nat)
    requires k < |t| && t[k].fate.Kept?
    ensures KeptIn(t) > 0
  {
    if k < |t| - 1 { KeptSeen(t[..|t| - 1], k); }
  }

  /** Two scans of incomparable places put together. */
  lemma {:induction false} SoundJoin(a: seq<Entry>, t: seq<Found>, b: seq<Entry>, u: seq<Found>, tops: set<Path>, top: Path)
    requires Sound(a, t) && Sound(b, u) && Beneath(a, t, tops) && Beneath(b, u, {top})
    requires forall other :: other in tops ==> |other| == |top| && other != top
    ensures Sound(a + b, t + u) && Beneath(a + b, t + u, tops + {top})
  {
    BeneathJoin(a, t, b, u, tops, top);
    BeneathApart(a, t, b, u, tops, top);
    SoundApart(a, t, b, u);
  }

  lemma {:induction false} BeneathJoin(a: seq<Entry>, t: seq<Found>, b: seq<Entry>, u: seq<Found>, tops: set<Path>, top: Path)
    requires Beneath(a, t, tops) && Beneath(b, u, {top})
    ensures Beneath(a + b, t + u, tops + {top})
  {
    forall p ensures HasTop(tops, p) || HasTop({top}, p) ==> HasTop(tops + {top}, p) {
      if HasTop(tops, p) {
        var other :| other in tops && other <= p;
        assert other in tops + {top};
      } else if HasTop({top}, p) {
        assert top in tops + {top};
      }
    }
  }

  ghost predicate Apart(a: seq<Entry>, t: seq<Found>, b: seq<Entry>, u: seq<Found>) {
    && (forall i, j :: 0 <= i < |a| && 0 <= j < |b| ==> !Comparable(a[i].rel, b[j].rel))
    && (forall i, k :: 0 <= i < |a| && 0 <= k < |u| ==> !Comparable(a[i].rel, u[k].path))
    && (forall j, k :: 0 <= j < |b| && 0 <= k < |t| ==> !Comparable(b[j].rel, t[k].path))
  }

  lemma {:induction false} BeneathApart(a: seq<Entry>, t: seq<Found>, b: seq<Entry>, u: seq<Found>, tops: set<Path>, top: Path)
    requires Beneath(a, t, tops) && Beneath(b, u, {top})
    requires forall other :: other in tops ==> |other| == |top| && other != top
    ensures Apart(a, t, b, u)
  {
    ApartPaths(tops, top);
    assert forall j :: 0 <= j < |b| ==> HasTop({top}, b[j].rel);
    assert forall k :: 0 <= k < |u| ==> HasTop({top}, u[k].path);
  }

  lemma {:induction false} SoundApart(a: seq<Entry>, t: seq<Found>, b: seq<Entry>, u: seq<Found>)
    requires Sound(a, t) && Sound(b, u) && Apart(a, t, b, u)
    ensures Sound(a + b, t + u)
  {
    forall k | 0 <= k < |t + u| && !(t + u)[k].fate.Kept? ensures Covered(a + b, (t + u)[k].path) {
      CoveredJoin(a, b, (t + u)[k].path);
      assert if k < |t| then Covered(a, t[k].path) else Covered(b, u[k - |t|].path);
    }
    forall i | 0 <= i < |a + b|
      ensures (a + b)[i].bytes == BytesIn(t + u, (a + b)[i].rel) && (a + b)[i].leaves == LeavesIn(t + u, (a + b)[i].rel)
    {
      SumsSplit(t, u, (a + b)[i].rel);
      NothingElsewhere(if i < |a| then u else t, (a + b)[i].rel);
    }
  }

  lemma {:induction false} CoveredJoin(a: seq<Entry>, b: seq<Entry>, p: Path)
    ensures Covered(a + b, p) <==> Covered(a, p) || Covered(b, p)
  {
    if Covered(a, p) {
      var i :| 0 <= i < |a| && a[i].rel <= p;
      assert (a + b)[i] == a[i];
    }
    if Covered(b, p) {
      var i :| 0 <= i < |b| && b[i].rel <= p;
      assert (a + b)[|a| + i] == b[i];
    }
    if Covered(a + b, p) {
      var i :| 0 <= i < |a + b| && (a + b)[i].rel <= p;
      assert if i < |a| then (a + b)[i] == a[i] else (a + b)[i] == b[i - |a|];
    }
  }

  lemma {:induction false} ApartPaths(tops: set<Path>, top: Path)
    requires forall other :: other in tops ==> |other| == |top| && other != top
    ensures forall p: Path, q: Path, other :: other in tops && other <= p && top <= q ==> !Comparable(p, q)
  {
    forall p: Path, q: Path, other | other in tops && other <= p && top <= q ensures !Comparable(p, q) {
      assert other == p[..|top|] && top == q[..|top|];
    }
  }

  ghost function Tops(node: Node, n: nat, rel: Path): set<Path>
    requires node.Directory? && n <= |node.entries|
  {
    set i | 0 <= i < n :: rel + [node.entries[i].name]
  }

  lemma {:induction false} TopsGrow(node: Node, n: nat, rel: Path)
    requires node.Directory? && 0 < n <= |node.entries| && DistinctNames(node)
    ensures Tops(node, n, rel) == Tops(node, n - 1, rel) + {rel + [node.entries[n - 1].name]}
    ensures forall other :: other in Tops(node, n - 1, rel) ==> |other| == |rel| + 1 && other != rel + [node.entries[n - 1].name]
  {
    forall i | 0 <= i < n - 1 ensures rel + [node.entries[i].name] != rel + [node.entries[n - 1].name] {
      assert (rel + [node.entries[i].name])[|rel|] == node.entries[i].name;
    }
  }

  lemma {:induction false} TopsBeneath(cands: seq<Entry>, t: seq<Found>, node: Node, n: nat, rel: Path)
    requires node.Directory? && n <= |node.entries|
    requires Beneath(cands, t, Tops(node, n, rel))
    ensures Beneath(cands, t, {rel})
  {
    forall p ensures HasTop(Tops(node, n, rel), p) ==> HasTop({rel}, p) {
      if HasTop(Tops(node, n, rel), p) {
        var other :| other in Tops(node, n, rel) && other <= p;
        assert rel <= other && rel in {rel};
      }
    }
  }

  /** A directory nothing kept and nothing hidden lies beneath, as one candidate. */
  lemma {:induction false} SoundWhole(e: Entry, t: seq<Found>)
    requires KeptIn(t) == 0 && !HiddenIn(t) && e.bytes == BytesIn(t, e.rel) && e.leaves == LeavesIn(t, e.rel)
    requires forall k :: 0 <= k < |t| ==> e.rel <= t[k].path
    ensures Sound([e], t)
  {
    forall k | 0 <= k < |t| ensures !t[k].fate.Kept? && Covered([e], t[k].path) {
      assert [e][0].rel <= t[k].path;
      if t[k].fate.Kept? { KeptSeen(t, k); }
    }
  }

  lemma {:induction false} SumsOfOne(f: Found, base: Path)
    ensures BytesIn([f], base) == if f.fate.Moves? && base <= f.path then f.fate.bytes else 0
    ensures LeavesIn([f], base) == if f.fate.Moves? && base <= f.path then 1 else 0
  {
    assert [f][..|[f]| - 1] == [] && [f][|[f]| - 1] == f;
    assert BytesIn([], base) == 0 && LeavesIn([], base) == 0;
  }

  lemma {:induction false} SoundOne(e: Entry, f: Found)
    requires e.rel == f.path && !f.fate.Kept? && (f.fate.Unseen? ==> e.kind.Unclassified?)
    requires if f.fate.Moves? then e.bytes == f.fate.bytes && e.leaves == 1 else e.bytes == e.leaves == 0
    ensures Sound([e], [f]) && Beneath([e], [f], {e.rel})
  {
    assert [e][0].rel <= f.path && e.rel in {e.rel};
    SumsOfOne(f, e.rel);
  }

  lemma {:induction false} SoundKept(f: Found)
    requires f.fate.Kept?
    ensures Sound([], [f]) && Beneath([], [f], {f.path})
  {
    assert f.path in {f.path};
  }

  lemma {:induction false} SoundStep(node: Node, n: nat, rel: Path, before: ScanResult, t: seq<Found>, now: ScanResult, u: seq<Found>)
    requires node.Directory? && 0 < n <= |node.entries| && DistinctNames(node)
    requires Sound(before.cands, t) && Beneath(before.cands, t, Tops(node, n - 1, rel))
    requires Sound(now.cands, u) && Beneath(now.cands, u, {rel + [node.entries[n - 1].name]})
    ensures Sound(Added(before, now).cands, t + u) && Beneath(Added(before, now).cands, t + u, Tops(node, n, rel))
  {
    TopsGrow(node, n, rel);
    SoundJoin(before.cands, t, now.cands, u, Tops(node, n - 1, rel), rel + [node.entries[n - 1].name]);
  }

  /** For every tree: the candidates of the whole walk. */
  lemma {:induction false} SafeCollapse(d: Decls, node: Node, rel: Path, depth: nat)
    requires DistinctNames(node)
    ensures Sound(Scan(d, node, rel, depth).cands, Trail(d, node, rel, depth))
    ensures Beneath(Scan(d, node, rel, depth).cands, Trail(d, node, rel, depth), {rel})
    decreases node, 1, 0
  {
    if node.Directory? {
      SafeCollapseUpTo(d, node, |node.entries|, rel, depth);
      TopsBeneath(Scan(d, node, rel, depth).cands, Trail(d, node, rel, depth), node, |node.entries|, rel);
    } else {
      SoundOne(Scan(d, node, rel, depth).cands[0], Trail(d, node, rel, depth)[0]);
    }
  }

  lemma {:induction false} SafeCollapseUpTo(d: Decls, node: Node, n: nat, rel: Path, depth: nat)
    requires node.Directory? && n <= |node.entries| && DistinctNames(node)
    ensures Sound(ScanUpTo(d, node, n, rel, depth).cands, TrailUpTo(d, node, n, rel, depth))
    ensures Beneath(ScanUpTo(d, node, n, rel, depth).cands, TrailUpTo(d, node, n, rel, depth), Tops(node, n, rel))
    decreases node, 0, n
  {
    if n > 0 {
      var e := node.entries[n - 1];
      var child := rel + [e.name];
      SafeCollapseUpTo(d, node, n - 1, rel, depth);
      SafeCollapseEntry(d, e.node, child, depth);
      SoundStep(node, n, rel, ScanUpTo(d, node, n - 1, rel, depth), TrailUpTo(d, node, n - 1, rel, depth),
                ScanEntry(d, e.node, child, depth), Met(d, e.node, child, depth));
    }
  }

  lemma {:induction false} SafeCollapseEntry(d: Decls, node: Node, child: Path, depth: nat)
    requires DistinctNames(node)
    ensures Sound(ScanEntry(d, node, child, depth).cands, Met(d, node, child, depth))
    ensures Beneath(ScanEntry(d, node, child, depth).cands, Met(d, node, child, depth), {child})
    decreases node, 2, 0
  {
    if !node.File? && !DirKept(d, child) && depth + 1 < MAX_DEPTH {
      SafeCollapse(d, node, child, depth + 1);
      ScanAccounts(d, node, child, depth + 1, child);
      var sub, t := Scan(d, node, child, depth + 1), Trail(d, node, child, depth + 1);
      if Collapses(d, child, sub) {
        assert forall k :: 0 <= k < |t| ==> HasTop({child}, t[k].path);
        SoundWhole(Entry(child, Runtime, true, sub.bytes, sub.leaves), t);
      }
    } else {
      SafeAlone(d, node, child, depth);
    }
  }

  /** An entry the walk does not go into. */
  lemma {:induction false} SafeAlone(d: Decls, node: Node, child: Path, depth: nat)
    requires node.File? || DirKept(d, child) || depth + 1 >= MAX_DEPTH
    ensures Sound(ScanEntry(d, node, child, depth).cands, Met(d, node, child, depth))
    ensures Beneath(ScanEntry(d, node, child, depth).cands, Met(d, node, child, depth), {child})
  {
    var cands, t := ScanEntry(d, node, child, depth).cands, Met(d, node, child, depth);
    if t != [] {
      if t[0].fate.Kept? {
        assert cands == [] && t == [t[0]];
        SoundKept(t[0]);
      } else {
        assert cands == [cands[0]] && t == [t[0]];
        SoundOne(cands[0], t[0]);
      }
    }
  }

  // ---------------------------------------------------------------- what the walk promises of the tree itself

  /** A node stands at a path of the tree. */
  ghost predicate At(node: Node, rel: Path, p: Path, found: Node)
    decreases node
  {
    || (p == rel && found == node)
    || (node.Directory? && exists k :: 0 <= k < |node.entries| && At(node.entries[k].node, rel + [node.entries[k].name], p, found))
  }

  ghost predicate NothingStays(t: seq<Found>) {
    forall k :: 0 <= k < |t| ==> !t[k].fate.Kept? && !Hides(t[k])
  }

  /** A directory becomes one candidate exactly when nothing met beneath it is kept or hidden, and it is not
      one that is provisioned. */
  lemma {:induction false} CollapsesIff(d: Decls, node: Node, child: Path, depth: nat)
    ensures Collapses(d, child, Scan(d, node, child, depth)) <==> !ProvisionedDir(d, child) && NothingStays(Trail(d, node, child, depth))
  {
    var t := Trail(d, node, child, depth);
    ScanAccounts(d, node, child, depth, child);
    if KeptIn(t) > 0 {
      var k := SomeKept(t);
      assert t[k].fate.Kept?;
    } else {
      forall k | 0 <= k < |t| ensures !t[k].fate.Kept? {
        if t[k].fate.Kept? { KeptSeen(t, k); }
      }
    }
    assert NothingStays(t) <==> KeptIn(t) == 0 && !HiddenIn(t);
  }

  lemma {:induction false} SomeKept(t: seq<Found>) returns (k: nat)
    requires KeptIn(t) > 0
    ensures k < |t| && t[k].fate.Kept?
  {
    k := |t| - 1;
    if !t[k].fate.Kept? { k := SomeKept(t[..|t| - 1]); }
  }

  /** Everything that stands beneath a directory is met: as it is, or at a kept or unseen place above it. */
  ghost predicate Answered(t: seq<Found>, want: Found) {
    exists k :: 0 <= k < |t| && Answers(t[k], want)
  }

  ghost predicate Answers(f: Found, want: Found) {
    if f.path == want.path then f == want else f.path <= want.path && !f.fate.Moves?
  }

  /** What the walk makes of a leaf that is there. */
  ghost function FoundLeaf(d: Decls, p: Path, leaf: Node): Found
    requires leaf.File?
  {
    Found(p, if LeafKept(d, p, leaf) then Kept else Moves(SizeOf(leaf)), LeafHides(d, p, leaf))
  }

  lemma {:induction false} LeafAnswered(d: Decls, node: Node, rel: Path, depth: nat, p: Path, leaf: Node)
    requires node.Directory? && At(node, rel, p, leaf) && leaf.File? && (LeafKept(d, p, leaf) || LeafMoves(d, p, leaf))
    ensures Answered(Trail(d, node, rel, depth), FoundLeaf(d, p, leaf))
    decreases node
  {
    var n :| 0 <= n < |node.entries| && At(node.entries[n].node, rel + [node.entries[n].name], p, leaf);
    var child, e := rel + [node.entries[n].name], node.entries[n].node;
    AtExtends(e, child, p, leaf);
    if e.Directory? && !DirKept(d, child) && depth + 1 < MAX_DEPTH {
      LeafAnswered(d, e, child, depth + 1, p, leaf);
    } else {
      assert Answers(Met(d, e, child, depth)[0], FoundLeaf(d, p, leaf));
    }
    var k :| 0 <= k < |Met(d, e, child, depth)| && Answers(Met(d, e, child, depth)[k], FoundLeaf(d, p, leaf));
    TrailIncludes(d, node, n, |node.entries|, rel, depth, Met(d, e, child, depth)[k]);
  }

  lemma {:induction false} AtExtends(node: Node, rel: Path, p: Path, found: Node)
    requires At(node, rel, p, found)
    ensures rel <= p && (node != found ==> rel != p)
    decreases node
  {
    if !(p == rel && found == node) {
      var k :| 0 <= k < |node.entries| && At(node.entries[k].node, rel + [node.entries[k].name], p, found);
      AtExtends(node.entries[k].node, rel + [node.entries[k].name], p, found);
    }
  }

  lemma {:induction false} TrailIncludes(d: Decls, node: Node, k: nat, n: nat, rel: Path, depth: nat, f: Found)
    requires node.Directory? && k < n <= |node.entries|
    requires f in Met(d, node.entries[k].node, rel + [node.entries[k].name], depth)
    ensures f in TrailUpTo(d, node, n, rel, depth)
    decreases n
  {
    if k < n - 1 { TrailIncludes(d, node, k, n - 1, rel, depth, f); }
  }

  /** No file the rules keep, by its path or by where its link points, is ever carried off: whatever candidate
      covers it is a directory the walk names as one it could not examine. */
  lemma {:induction false} KeptLeafNeverMoves(d: Decls, node: Node, rel: Path, depth: nat, p: Path, leaf: Node, i: nat)
    requires node.Directory? && DistinctNames(node) && At(node, rel, p, leaf) && leaf.File? && LeafKept(d, p, leaf)
    requires i < |Scan(d, node, rel, depth).cands| && Scan(d, node, rel, depth).cands[i].rel <= p
    ensures Scan(d, node, rel, depth).cands[i].kind.Unclassified? && Scan(d, node, rel, depth).cands[i].rel != p
  {
    var cands, t := Scan(d, node, rel, depth).cands, Trail(d, node, rel, depth);
    SafeCollapse(d, node, rel, depth);
    LeafAnswered(d, node, rel, depth, p, leaf);
    var k :| 0 <= k < |t| && Answers(t[k], FoundLeaf(d, p, leaf));
    assert Fits(cands[i], t[k]) && Comparable(cands[i].rel, t[k].path);
    assert t[k].fate.Unseen?;
  }

  // ---------------------------------------------------------------- provisioned directories

  /** The walk goes into this entry of a directory. */
  ghost predicate Enters(d: Decls, e: Dirent, rel: Path, depth: nat) {
    !e.node.File? && !DirKept(d, rel + [e.name]) && depth + 1 < MAX_DEPTH
  }

  /** The walk lists the directory at p. */
  ghost predicate Lists(d: Decls, node: Node, rel: Path, depth: nat, p: Path)
    decreases node
  {
    node.Directory? &&
    (p == rel || exists k :: 0 <= k < |node.entries| && Enters(d, node.entries[k], rel, depth) &&
                   Lists(d, node.entries[k].node, rel + [node.entries[k].name], depth + 1, p))
  }

  /** Of the tree alone: the directory is not provisioned, and nothing met beneath it is kept or hidden. */
  ghost predicate GoesWhole(d: Decls, node: Node, rel: Path, depth: nat) {
    !ProvisionedDir(d, rel) && NothingStays(Trail(d, node, rel, depth))
  }

  /** Some directory strictly between the walk's own and p goes whole. */
  ghost predicate CarriedAbove(d: Decls, node: Node, rel: Path, depth: nat, p: Path)
    decreases node
  {
    node.Directory? && exists k :: 0 <= k < |node.entries| && CarriedThrough(d, node, k, rel, depth, p)
  }

  ghost predicate CarriedThrough(d: Decls, node: Node, k: nat, rel: Path, depth: nat, p: Path)
    requires node.Directory? && k < |node.entries|
    decreases node, 0
  {
    var e, child := node.entries[k], rel + [node.entries[k].name];
    Enters(d, e, rel, depth) && child < p &&
    (GoesWhole(d, e.node, child, depth + 1) || CarriedAbove(d, e.node, child, depth + 1, p))
  }

  lemma {:induction false} ListsExtends(d: Decls, node: Node, rel: Path, depth: nat, p: Path)
    requires Lists(d, node, rel, depth, p)
    ensures rel <= p
    decreases node
  {
    if p != rel {
      var k :| 0 <= k < |node.entries| && Enters(d, node.entries[k], rel, depth) &&
               Lists(d, node.entries[k].node, rel + [node.entries[k].name], depth + 1, p);
      ListsExtends(d, node.entries[k].node, rel + [node.entries[k].name], depth + 1, p);
    }
  }

  /** Only the entry on the way to p can cover it. */
  lemma {:induction false} CoveredThrough(d: Decls, node: Node, k: nat, n: nat, rel: Path, depth: nat, p: Path)
    requires node.Directory? && k < |node.entries| && n <= |node.entries| && DistinctNames(node)
    requires rel + [node.entries[k].name] <= p
    ensures Covered(ScanUpTo(d, node, n, rel, depth).cands, p) <==>
            k < n && Covered(ScanEntry(d, node.entries[k].node, rel + [node.entries[k].name], depth).cands, p)
    decreases n
  {
    if n > 0 {
      var e := node.entries[n - 1];
      var child := rel + [e.name];
      CoveredThrough(d, node, k, n - 1, rel, depth, p);
      CoveredJoin(ScanUpTo(d, node, n - 1, rel, depth).cands, ScanEntry(d, e.node, child, depth).cands, p);
      if n - 1 != k {
        SafeCollapseEntry(d, e.node, child, depth);
        assert p[|rel|] == node.entries[k].name != e.name;
        forall i | 0 <= i < |ScanEntry(d, e.node, child, depth).cands| ensures !(ScanEntry(d, e.node, child, depth).cands[i].rel <= p) {
          assert HasTop({child}, ScanEntry(d, e.node, child, depth).cands[i].rel);
          assert ScanEntry(d, e.node, child, depth).cands[i].rel[|rel|] == e.name;
        }
      }
    }
  }

  lemma {:induction false} NotItself(d: Decls, node: Node, rel: Path, depth: nat)
    requires node.Directory? && DistinctNames(node)
    ensures !Covered(Scan(d, node, rel, depth).cands, rel)
  {
    SafeCollapseUpTo(d, node, |node.entries|, rel, depth);
    forall i | 0 <= i < |Scan(d, node, rel, depth).cands| ensures !(Scan(d, node, rel, depth).cands[i].rel <= rel) {
      assert HasTop(Tops(node, |node.entries|, rel), Scan(d, node, rel, depth).cands[i].rel);
      var top :| top in Tops(node, |node.entries|, rel) && top <= Scan(d, node, rel, depth).cands[i].rel;
    }
  }

  /** A provisioned directory is never itself a candidate, and is carried off exactly when a directory above
      it, beneath the root, goes whole: its own exemption does not reach its parents. */
  lemma {:induction false} ProvisionedCarriedIff(d: Decls, node: Node, rel: Path, depth: nat, p: Path)
    requires DistinctNames(node) && Lists(d, node, rel, depth, p) && ProvisionedDir(d, p)
    ensures Covered(Scan(d, node, rel, depth).cands, p) <==> CarriedAbove(d, node, rel, depth, p)
    decreases node
  {
    if p == rel {
      NotItself(d, node, rel, depth);
    } else {
      var k :| 0 <= k < |node.entries| && Enters(d, node.entries[k], rel, depth) &&
               Lists(d, node.entries[k].node, rel + [node.entries[k].name], depth + 1, p);
      var e, child := node.entries[k], rel + [node.entries[k].name];
      ListsExtends(d, e.node, child, depth + 1, p);
      CoveredThrough(d, node, k, |node.entries|, rel, depth, p);
      ProvisionedCarriedIff(d, e.node, child, depth + 1, p);
      CarriedHere(d, node, k, rel, depth, p);
      assert child == p <==> !(child < p);
      CollapsesIff(d, e.node, child, depth + 1);
      if Collapses(d, child, Scan(d, e.node, child, depth + 1)) {
        assert child != p && ScanEntry(d, e.node, child, depth).cands[0].rel <= p;
      } else if child == p {
        NotItself(d, e.node, child, depth + 1);
      }
    }
  }

  /** At most one level beneath a root a provisioned directory stands: it is no candidate, and there is no
      directory between to be one. */
  lemma {:induction false} ProvisionedNearRootStands(d: Decls, node: Node, rel: Path, depth: nat, p: Path)
    requires DistinctNames(node) && Lists(d, node, rel, depth, p) && p != [] && p in d.nonPackDirs && |p| <= |rel| + 1
    ensures !Covered(Scan(d, node, rel, depth).cands, p)
  {
    ProvisionedCarriedIff(d, node, rel, depth, p);
  }

  lemma {:induction false} CarriedHere(d: Decls, node: Node, k: nat, rel: Path, depth: nat, p: Path)
    requires node.Directory? && k < |node.entries| && DistinctNames(node) && rel + [node.entries[k].name] <= p
    ensures CarriedAbove(d, node, rel, depth, p) <==> CarriedThrough(d, node, k, rel, depth, p)
  {
    forall j | 0 <= j < |node.entries| && CarriedThrough(d, node, j, rel, depth, p) ensures j == k {
      assert p[|rel|] == node.entries[k].name && p[|rel|] == node.entries[j].name;
    }
  }

  function EmptyMount(outer: string, mount: string): Node {
    Directory([Dirent(outer, Directory([Dirent(mount, Directory([]))]))])
  }

  /** And it does happen: wherever neither directory is declared, an empty provisioned directory two levels
      beneath a root goes with its parent. */
  lemma {:induction false} ProvisionedCarriedWithParent(d: Decls, root: Path, outer: string, mount: string)
    requires ProvisionedDir(d, root + [outer] + [mount]) && !ProvisionedDir(d, root + [outer])
    requires !DirKept(d, root + [outer]) && !DirKept(d, root + [outer] + [mount])
    ensures Lists(d, EmptyMount(outer, mount), root, 0, root + [outer] + [mount])
    ensures Scan(d, EmptyMount(outer, mount), root, 0).cands == [Entry(root + [outer], Runtime, true, 0, 0)]
  {
    var o := EmptyMount(outer, mount).entries[0];
    MountStays(d, o.node, root + [outer], mount);
    OnlyEntry(d, EmptyMount(outer, mount), root, 0);
    assert ScanEntry(d, o.node, root + [outer], 0) == NOTHING.(cands := [Entry(root + [outer], Runtime, true, 0, 0)]);
    assert Enters(d, o, root, 0);
  }

  lemma {:induction false} OnlyEntry(d: Decls, node: Node, rel: Path, depth: nat)
    requires node.Directory? && |node.entries| == 1
    ensures Scan(d, node, rel, depth) == ScanEntry(d, node.entries[0].node, rel + [node.entries[0].name], depth)
  {
    assert ScanUpTo(d, node, 0, rel, depth) == NOTHING;
    var only := ScanEntry(d, node.entries[0].node, rel + [node.entries[0].name], depth);
    assert NOTHING.cands + only.cands == only.cands;
  }

  lemma {:induction false} EmptyDirectory(d: Decls, rel: Path, depth: nat)
    ensures Scan(d, Directory([]), rel, depth) == NOTHING && Lists(d, Directory([]), rel, depth, rel)
  {}

  /** A provisioned empty directory contributes nothing at all to the one it is in. */
  lemma {:induction false} MountStays(d: Decls, node: Node, outer: Path, mount: string)
    requires node == Directory([Dirent(mount, Directory([]))])
    requires ProvisionedDir(d, outer + [mount]) && !DirKept(d, outer + [mount])
    ensures Scan(d, node, outer, 1) == NOTHING && Lists(d, node, outer, 1, outer + [mount])
  {
    var m := node.entries[0];
    EmptyDirectory(d, outer + [mount], 2);
    assert ScanEntry(d, m.node, outer + [mount], 1) == NOTHING;
    OnlyEntry(d, node, outer, 1);
    assert Enters(d, m, outer, 1);
  }

  /** A name the rules do not know, under no declaration, is runtime. */
  lemma {:induction false} UndeclaredIsRuntime(d: Decls, rel: Path)
    requires d.sharedDirs == d.credentialFiles == d.configSurfaces == d.contentDests == [] && rel != []
    requires Base(rel) !in CORE_CREDENTIAL_BASENAMES
    requires forall i :: 0 <= i < |SQLITE_SIDECAR_SUFFIXES| ==> !HasSuffix(Base(rel), SQLITE_SIDECAR_SUFFIXES[i])
    ensures !DirKept(d, rel)
  {
    NoSidecar(d, rel, SQLITE_SIDECAR_SUFFIXES);
  }

  lemma {:induction false} NoSidecar(d: Decls, rel: Path, suffixes: seq<string>)
    requires rel != [] && forall i :: 0 <= i < |suffixes| ==> !HasSuffix(Base(rel), suffixes[i])
    ensures SidecarClass(d, rel, suffixes) == Runtime
  {
    if suffixes != [] { NoSidecar(d, rel, suffixes[1..]); }
  }

  const MOUNTS: Decls := Decls([], [], [], [], [], [[".pi"] + ["agent"] + ["cache"]])

  lemma {:induction false} MountNames(name: string)
    requires name == "agent" || name == "cache"
    ensures name !in CORE_CREDENTIAL_BASENAMES
    ensures forall i :: 0 <= i < |SQLITE_SIDECAR_SUFFIXES| ==> !HasSuffix(name, SQLITE_SIDECAR_SUFFIXES[i])
  {
    assert |name| == 5 && (name[4] == 't' || name[4] == 'e');
    forall i | 0 <= i < |CORE_CREDENTIAL_BASENAMES| ensures |CORE_CREDENTIAL_BASENAMES[i]| > 5 {}
    forall i | 0 <= i < |SQLITE_SIDECAR_SUFFIXES| ensures !HasSuffix(name, SQLITE_SIDECAR_SUFFIXES[i]) {
      var suffix := SQLITE_SIDECAR_SUFFIXES[i];
      assert |suffix| == 4 && (suffix[3] == 'l' || suffix[3] == 'm');
      assert name[1..][3] == name[4];
    }
  }

  /** A home it happens to: the cache an empty mountpoint, nothing else declared. */
  lemma {:induction false} CacheMountCarried()
    ensures ProvisionedDir(MOUNTS, [".pi"] + ["agent"] + ["cache"])
    ensures Scan(MOUNTS, EmptyMount("agent", "cache"), [".pi"], 0).cands == [Entry([".pi"] + ["agent"], Runtime, true, 0, 0)]
  {
    MountNames("agent");
    MountNames("cache");
    UndeclaredIsRuntime(MOUNTS, [".pi"] + ["agent"]);
    UndeclaredIsRuntime(MOUNTS, [".pi"] + ["agent"] + ["cache"]);
    assert |[".pi"] + ["agent"]| != |[".pi"] + ["agent"] + ["cache"]|;
    ProvisionedCarriedWithParent(MOUNTS, [".pi"], "agent", "cache");
  }
}
