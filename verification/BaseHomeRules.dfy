/** internal/basehome, in the declarations' and the tree's own terms: which class a path has, and what becomes of
    a file whose path or link the rules keep, whose size is unknown, or that lies too deep. */
module BaseHomeRules {
  import opened BaseHome

  // ---------------------------------------------------------------- the class of a path

  ghost predicate AtOrBeneath(rel: Path, bases: seq<Path>) {
    exists i :: 0 <= i < |bases| && bases[i] != [] && bases[i] <= rel
  }

  ghost predicate LastNameIs(rel: Path, name: string) {
    rel != [] && rel[|rel| - 1] == name
  }

  /** Where the base home keeps a declared file: the target of the first redirect of that name, or the file itself. */
  ghost predicate KeptAt(redirects: seq<Redirect>, declared: Path, actual: Path) {
    || (exists i :: 0 <= i < |redirects| && redirects[i].name == declared && redirects[i].target == actual &&
          forall j :: 0 <= j < i ==> redirects[j].name != declared)
    || (actual == declared && forall i :: 0 <= i < |redirects| ==> redirects[i].name != declared)
  }

  ghost predicate LoginState(d: Decls, rel: Path) {
    || rel == []
    || AtOrBeneath(rel, d.sharedDirs)
    || AtOrBeneath(rel, d.credentialFiles)
    || (exists i :: 0 <= i < |d.credentialFiles| && d.credentialFiles[i] != [] &&
          LastNameIs(rel, d.credentialFiles[i][|d.credentialFiles[i]| - 1]))
    || LastNameIs(rel, ".credentials.json") || LastNameIs(rel, "auth.json") || LastNameIs(rel, "oauth_creds.json")
  }

  ghost predicate SurfaceOf(d: Decls, rel: Path, i: nat, actual: Path) {
    i < |d.configSurfaces| && KeptAt(d.redirects, d.configSurfaces[i], actual) && actual != [] && actual <= rel
  }

  ghost predicate OnSurface(d: Decls, rel: Path) {
    exists i: nat, actual: Path :: SurfaceOf(d, rel, i, actual)
  }

  /** The rules in their order, but for databases' sidecars: the earlier one wins. */
  ghost function RuleClass(d: Decls, rel: Path): Class {
    if LoginState(d, rel) then Credential
    else if OnSurface(d, rel) then Config
    else if AtOrBeneath(rel, d.contentDests) then Content
    else Runtime
  }

  /** The path is the write-ahead log or the shared memory of the database. */
  ghost predicate SidecarOf(rel: Path, db: Path) {
    rel != [] &&
    var name, parent := rel[|rel| - 1], rel[..|rel| - 1];
    |name| >= 4 && (name[|name| - 4..] == "-wal" || name[|name| - 4..] == "-shm") &&
    var stem := name[..|name| - 4];
    db == if stem == "" || stem == "." then parent
          else if stem == ".." then (if parent == [] then [] else parent[..|parent| - 1])
          else parent + [stem]
  }

  lemma {:induction false} RedirectMeans(redirects: seq<Redirect>, declared: Path, actual: Path)
    ensures KeptAt(redirects, declared, actual) <==> RedirectFrom(redirects, declared) == actual
  {
    if redirects != [] {
      RedirectMeans(redirects[1..], declared, actual);
      if redirects[0].name != declared {
        assert forall i :: 0 <= i < |redirects[1..]| ==> redirects[1..][i] == redirects[i + 1];
        assert KeptAt(redirects, declared, actual) <==> KeptAt(redirects[1..], declared, actual) by {
          KeptAtTail(redirects, declared, actual);
        }
      }
    }
  }

  lemma {:induction false} KeptAtTail(redirects: seq<Redirect>, declared: Path, actual: Path)
    requires redirects != [] && redirects[0].name != declared
    ensures KeptAt(redirects, declared, actual) <==> KeptAt(redirects[1..], declared, actual)
  {
    var rest := redirects[1..];
    if i :| 0 <= i < |redirects| && redirects[i].name == declared && redirects[i].target == actual &&
            forall j :: 0 <= j < i ==> redirects[j].name != declared {
      assert rest[i - 1] == redirects[i];
      assert forall j :: 0 <= j < i - 1 ==> rest[j].name != declared;
    }
    if i :| 0 <= i < |rest| && rest[i].name == declared && rest[i].target == actual &&
            forall j :: 0 <= j < i ==> rest[j].name != declared {
      assert redirects[i + 1] == rest[i];
      assert forall j :: 0 <= j < i + 1 ==> redirects[j].name != declared by {
        assert forall j :: 1 <= j < i + 1 ==> redirects[j] == rest[j - 1];
      }
    }
    if forall i :: 0 <= i < |rest| ==> rest[i].name != declared {
      assert forall i :: 1 <= i < |redirects| ==> redirects[i] == rest[i - 1];
    }
  }

  lemma {:induction false} AloneIsRuleClass(d: Decls, rel: Path)
    ensures ClassifyAlone(d, rel) == RuleClass(d, rel)
  {
    CredentialIsLogin(d, rel);
    if i :| 0 <= i < |d.configSurfaces| && UnderOrAt(rel, RedirectFrom(d.redirects, d.configSurfaces[i])) {
      RedirectMeans(d.redirects, d.configSurfaces[i], RedirectFrom(d.redirects, d.configSurfaces[i]));
      assert SurfaceOf(d, rel, i, RedirectFrom(d.redirects, d.configSurfaces[i]));
    }
    if OnSurface(d, rel) {
      var i: nat, actual: Path :| SurfaceOf(d, rel, i, actual);
      RedirectMeans(d.redirects, d.configSurfaces[i], actual);
      assert UnderOrAt(rel, RedirectFrom(d.redirects, d.configSurfaces[i]));
    }
    BeneathIs(rel, d.contentDests);
  }

  lemma {:induction false} BeneathIs(rel: Path, bases: seq<Path>)
    ensures AtOrBeneath(rel, bases) <==> exists i :: 0 <= i < |bases| && UnderOrAt(rel, bases[i])
  {
    if i :| 0 <= i < |bases| && UnderOrAt(rel, bases[i]) { assert bases[i] <= rel; }
    if i :| 0 <= i < |bases| && bases[i] != [] && bases[i] <= rel { assert UnderOrAt(rel, bases[i]); }
  }

  lemma {:induction false} CredentialIsLogin(d: Decls, rel: Path)
    ensures LoginState(d, rel) <==> rel == [] || UnderSharedDir(d, rel) || IsCredentialPath(d, rel)
  {
    BeneathIs(rel, d.sharedDirs);
    if rel != [] {
      CoreNames(Base(rel));
      if i :| 0 <= i < |d.credentialFiles| && d.credentialFiles[i] != [] &&
              (UnderOrAt(rel, d.credentialFiles[i]) || Base(d.credentialFiles[i]) == Base(rel)) {
        assert d.credentialFiles[i] <= rel || LastNameIs(rel, d.credentialFiles[i][|d.credentialFiles[i]| - 1]);
      }
      if AtOrBeneath(rel, d.credentialFiles) {
        var i :| 0 <= i < |d.credentialFiles| && d.credentialFiles[i] != [] && d.credentialFiles[i] <= rel;
        assert UnderOrAt(rel, d.credentialFiles[i]);
      }
    }
  }

  lemma {:induction false} CoreNames(name: string)
    ensures name in CORE_CREDENTIAL_BASENAMES <==> name == ".credentials.json" || name == "auth.json" || name == "oauth_creds.json"
  {
    assert CORE_CREDENTIAL_BASENAMES[0] == ".credentials.json" && CORE_CREDENTIAL_BASENAMES[1] == "auth.json";
    assert CORE_CREDENTIAL_BASENAMES[2] == "oauth_creds.json";
  }

  /** A path has the class of the first rule that names it; a path no rule names has the class of the database it
      is a sidecar of, if that is kept; else it is runtime. */
  lemma {:induction false} ClassifyExactly(d: Decls, rel: Path)
    ensures RuleClass(d, rel) != Runtime ==> Classify(d, rel) == RuleClass(d, rel)
    ensures forall db :: RuleClass(d, rel) == Runtime && SidecarOf(rel, db) && RuleClass(d, db) != Runtime ==> Classify(d, rel) == RuleClass(d, db)
    ensures RuleClass(d, rel) == Runtime && (forall db :: SidecarOf(rel, db) ==> RuleClass(d, db) == Runtime) ==> Classify(d, rel) == Runtime
  {
    AloneIsRuleClass(d, rel);
    if rel != [] {
      OneSuffix(Base(rel));
      SidecarAnswer(d, rel);
      Sidecar(d, rel, "-wal");
      Sidecar(d, rel, "-shm");
    }
  }

  /** The class a sidecar rule of two suffixes gives. */
  lemma {:induction false} SidecarAnswer(d: Decls, rel: Path)
    requires rel != []
    ensures !HasSuffix(Base(rel), "-wal") && !HasSuffix(Base(rel), "-shm") ==> SidecarClass(d, rel, SQLITE_SIDECAR_SUFFIXES) == Runtime
    ensures HasSuffix(Base(rel), "-wal") ==> SidecarClass(d, rel, SQLITE_SIDECAR_SUFFIXES) == ClassifyAlone(d, TrimBase(rel, "-wal"))
    ensures HasSuffix(Base(rel), "-shm") ==> SidecarClass(d, rel, SQLITE_SIDECAR_SUFFIXES) == ClassifyAlone(d, TrimBase(rel, "-shm"))
  {
    OneSuffix(Base(rel));
    assert SQLITE_SIDECAR_SUFFIXES == ["-wal", "-shm"] && SQLITE_SIDECAR_SUFFIXES[1..] == ["-shm"] && ["-shm"][1..] == [];
    assert SidecarClass(d, rel, []) == Runtime;
    OneSuffixAnswer(d, rel, "-shm");
    if HasSuffix(Base(rel), "-wal") { assert ClassifyAlone(d, TrimBase(rel, "-wal")) != Unclassified; }
  }

  lemma {:induction false} OneSuffixAnswer(d: Decls, rel: Path, suffix: string)
    requires rel != []
    ensures SidecarClass(d, rel, [suffix]) == if HasSuffix(Base(rel), suffix) then ClassifyAlone(d, TrimBase(rel, suffix)) else Runtime
  {
    assert [suffix][1..] == [];
    assert SidecarClass(d, rel, []) == Runtime;
  }

  lemma {:induction false} OneSuffix(name: string)
    ensures !(HasSuffix(name, "-wal") && HasSuffix(name, "-shm"))
  {
    assert HasSuffix(name, "-wal") ==> name[|name| - 4..][3] == "-wal"[3] == 'l';
    assert HasSuffix(name, "-shm") ==> name[|name| - 4..][3] == "-shm"[3] == 'm';
  }

  lemma {:induction false} Sidecar(d: Decls, rel: Path, suffix: string)
    requires rel != [] && (suffix == "-wal" || suffix == "-shm")
    ensures HasSuffix(Base(rel), suffix) ==>
              SidecarOf(rel, TrimBase(rel, suffix)) && ClassifyAlone(d, TrimBase(rel, suffix)) == RuleClass(d, TrimBase(rel, suffix))
    ensures HasSuffix(Base(rel), suffix) ==> forall db :: SidecarOf(rel, db) ==> db == TrimBase(rel, suffix)
    ensures forall db :: SidecarOf(rel, db) ==> HasSuffix(Base(rel), "-wal") || HasSuffix(Base(rel), "-shm")
  {
    if HasSuffix(Base(rel), suffix) {
      AloneIsRuleClass(d, TrimBase(rel, suffix));
      SidecarTrims(rel, suffix);
    }
  }

  lemma {:induction false} SidecarTrims(rel: Path, suffix: string)
    requires rel != [] && (suffix == "-wal" || suffix == "-shm") && HasSuffix(Base(rel), suffix)
    ensures forall db :: SidecarOf(rel, db) <==> db == TrimBase(rel, suffix)
  {
    assert |suffix| == 4;
  }

  /** The exact condition for a path to be a candidate. */
  lemma {:induction false} CandidateIff(d: Decls, rel: Path)
    ensures IsCandidate(Classify(d, rel)) <==>
              !LoginState(d, rel) && !OnSurface(d, rel) && !AtOrBeneath(rel, d.contentDests) &&
              forall db :: SidecarOf(rel, db) ==> !LoginState(d, db) && !OnSurface(d, db) && !AtOrBeneath(db, d.contentDests)
  {
    ClassifyExactly(d, rel);
    if db :| SidecarOf(rel, db) && RuleClass(d, db) != Runtime {
      assert RuleClass(d, rel) == Runtime ==> Classify(d, rel) == RuleClass(d, db);
    }
  }

  // ---------------------------------------------------------------- what becomes of a file

  /** A candidate of the walk that covers the path, other than a directory named as one it could not examine. */
  ghost predicate Carries(d: Decls, node: Node, rel: Path, depth: nat, i: nat, p: Path) {
    var cands := Scan(d, node, rel, depth).cands;
    i < |cands| && cands[i].rel <= p && (cands[i].kind != Unclassified || cands[i].rel == p)
  }

  /** The rules keep a path: the class the declarations give it is not runtime. */
  ghost predicate RulesKeep(d: Decls, rel: Path) {
    LoginState(d, rel) || OnSurface(d, rel) || AtOrBeneath(rel, d.contentDests) ||
    exists db :: SidecarOf(rel, db) && (LoginState(d, db) || OnSurface(d, db) || AtOrBeneath(db, d.contentDests))
  }

  lemma {:induction false} RulesKeepDirs(d: Decls, rel: Path)
    ensures DirKept(d, rel) <==> RulesKeep(d, rel)
  {
    CandidateIff(d, rel);
    CredentialIsLogin(d, rel);
  }

  /** A file that is there, and whose path the rules keep or whose link points to a path they keep, is carried off
      by nothing the walk has examined. */
  lemma {:induction false} KeptFileStays(d: Decls, node: Node, rel: Path, depth: nat, p: Path, leaf: Node, i: nat)
    requires node.Directory? && DistinctNames(node) && At(node, rel, p, leaf) && leaf.File? && leaf.stat != Vanished
    requires RulesKeep(d, p) || (leaf.link.LinksTo? && RulesKeep(d, leaf.link.target))
    ensures !Carries(d, node, rel, depth, i, p)
  {
    CandidateIff(d, p);
    if leaf.link.LinksTo? { CandidateIff(d, leaf.link.target); }
    assert LeafKept(d, p, leaf);
    if i < |Scan(d, node, rel, depth).cands| && Scan(d, node, rel, depth).cands[i].rel <= p {
      KeptLeafNeverMoves(d, node, rel, depth, p, leaf, i);
    }
  }

  /** So no login file of a name known to hold one moves, whatever is declared. */
  lemma {:induction false} LoginFileStays(d: Decls, node: Node, rel: Path, depth: nat, p: Path, leaf: Node, i: nat)
    requires node.Directory? && DistinctNames(node) && At(node, rel, p, leaf) && leaf.File? && leaf.stat != Vanished
    requires p != [] && p[|p| - 1] == "auth.json"
    ensures !Carries(d, node, rel, depth, i, p)
  {
    KeptFileStays(d, node, rel, depth, p, leaf, i);
  }

  lemma {:induction false} BytesInclude(t: seq<Found>, k: nat, base: Path)
    requires k < |t| && t[k].fate.Moves? && base <= t[k].path
    ensures BytesIn(t, base) >= t[k].fate.bytes && LeavesIn(t, base) >= 1
  {
    if k < |t| - 1 { BytesInclude(t[..|t| - 1], k, base); }
  }

  lemma {:induction false} OtherFileIsMet(d: Decls, p: Path, leaf: Node)
    requires leaf.File? && leaf.stat != Vanished && !RulesKeep(d, p) && !(leaf.link.LinksTo? && RulesKeep(d, leaf.link.target))
    ensures LeafMoves(d, p, leaf) && FoundLeaf(d, p, leaf) == Found(p, Moves(if leaf.stat.Sized? then leaf.stat.size else 0), leaf.stat.Unstatable?)
  {
    CandidateIff(d, p);
    if leaf.link.LinksTo? { CandidateIff(d, leaf.link.target); }
    CredentialIsLogin(d, p);
  }

  /** Sound candidates carry off everything met that is not kept. */
  lemma {:induction false} CarriedBy(cands: seq<Entry>, t: seq<Found>, k: nat) returns (i: nat)
    requires Sound(cands, t) && k < |t| && !t[k].fate.Kept?
    ensures i < |cands| && cands[i].rel <= t[k].path && (Hides(t[k]) ==> cands[i].rel == t[k].path)
    ensures t[k].fate.Unseen? ==> cands[i].kind == Unclassified
    ensures t[k].fate.Moves? ==> cands[i].bytes >= t[k].fate.bytes && cands[i].leaves >= 1
  {
    i :| 0 <= i < |cands| && cands[i].rel <= t[k].path;
    assert Fits(cands[i], t[k]);
    if t[k].fate.Moves? { BytesInclude(t, k, cands[i].rel); }
  }

  /** Any other file that is there is covered: by a directory named as one the walk could not examine, or by a
      candidate that counts the file and its bytes; and if its size is unknown, by none but itself. */
  lemma {:induction false} OtherFileMoves(d: Decls, node: Node, rel: Path, depth: nat, p: Path, leaf: Node)
    returns (i: nat)
    requires node.Directory? && DistinctNames(node) && At(node, rel, p, leaf) && leaf.File? && leaf.stat != Vanished
    requires !RulesKeep(d, p) && !(leaf.link.LinksTo? && RulesKeep(d, leaf.link.target)) && NothingKeptAbove(d, node, rel, depth, p)
    ensures i < |Scan(d, node, rel, depth).cands| && Scan(d, node, rel, depth).cands[i].rel <= p
    ensures var c := Scan(d, node, rel, depth).cands[i];
            || (c.kind == Unclassified && c.rel != p)
            || (c.leaves >= 1 && (leaf.stat.Sized? ==> c.bytes >= leaf.stat.size) && (leaf.stat.Unstatable? ==> c.rel == p))
  {
    var cands, t := Scan(d, node, rel, depth).cands, Trail(d, node, rel, depth);
    OtherFileIsMet(d, p, leaf);
    LeafAnswered(d, node, rel, depth, p, leaf);
    SafeCollapse(d, node, rel, depth);
    var k :| 0 <= k < |t| && Answers(t[k], FoundLeaf(d, p, leaf));
    assert t[k] in t && !t[k].fate.Kept?;
    i := CarriedBy(cands, t, k);
  }

  /** No directory on the way to the path, beneath the walk's own, is one the walk keeps whole. */
  ghost predicate NothingKeptAbove(d: Decls, node: Node, rel: Path, depth: nat, p: Path) {
    forall f :: f in Trail(d, node, rel, depth) && f.path <= p && f.path != p ==> !f.fate.Kept?
  }

  /** A candidate is something in the tree, and says truly whether it is a directory; one that could not be examined
      always is. */
  ghost predicate Names(node: Node, rel: Path, c: Entry) {
    && (exists found :: At(node, rel, c.rel, found) && (c.dir <==> !found.File?))
    && (c.kind == Runtime || (c.kind == Unclassified && c.dir))
  }

  lemma {:induction false} CandidatesAreNamed(d: Decls, node: Node, rel: Path, depth: nat, i: nat)
    requires i < |Scan(d, node, rel, depth).cands| && !node.File?
    ensures Names(node, rel, Scan(d, node, rel, depth).cands[i])
    decreases node, 1, 0
  {
    if node.Directory? {
      NamedUpTo(d, node, |node.entries|, rel, depth, i);
    } else {
      assert At(node, rel, rel, node);
    }
  }

  lemma {:induction false} NamedUpTo(d: Decls, node: Node, n: nat, rel: Path, depth: nat, i: nat)
    requires node.Directory? && n <= |node.entries| && i < |ScanUpTo(d, node, n, rel, depth).cands|
    ensures Names(node, rel, ScanUpTo(d, node, n, rel, depth).cands[i])
    decreases node, 0, n
  {
    var e := node.entries[n - 1];
    var child, before := rel + [e.name], ScanUpTo(d, node, n - 1, rel, depth).cands;
    if i < |before| {
      NamedUpTo(d, node, n - 1, rel, depth, i);
    } else {
      NamedEntry(d, e.node, child, depth, i - |before|);
      var c := ScanEntry(d, e.node, child, depth).cands[i - |before|];
      var found :| At(e.node, child, c.rel, found) && (c.dir <==> !found.File?);
      assert At(node, rel, c.rel, found);
    }
  }

  lemma {:induction false} NamedEntry(d: Decls, node: Node, child: Path, depth: nat, i: nat)
    requires i < |ScanEntry(d, node, child, depth).cands|
    ensures Names(node, child, ScanEntry(d, node, child, depth).cands[i])
    decreases node, 2, 0
  {
    assert At(node, child, child, node);
    if node.File? {
      ClassifyExactly(d, child);
    } else if !DirKept(d, child) && depth + 1 < MAX_DEPTH && !Collapses(d, child, Scan(d, node, child, depth + 1)) {
      CandidatesAreNamed(d, node, child, depth + 1, i);
    }
  }

  // ---------------------------------------------------------------- how deep the walk goes

  /** No directory on the way from the walk's own to the path, itself included, is one the rules keep. */
  ghost predicate OpenWay(d: Decls, rel: Path, p: Path) {
    forall q :: rel < q && q <= p ==> !RulesKeep(d, q)
  }

  /** A directory with an open way lies behind one entry, which the walk goes into. */
  lemma {:induction false} WayDown(d: Decls, node: Node, rel: Path, depth: nat, p: Path, dir: Node) returns (k: nat)
    requires At(node, rel, p, dir) && dir.Directory? && OpenWay(d, rel, p) && p != rel && |p| + depth < |rel| + 64
    ensures node.Directory? && k < |node.entries| && Enters(d, node.entries[k], rel, depth)
    ensures At(node.entries[k].node, rel + [node.entries[k].name], p, dir) && OpenWay(d, rel + [node.entries[k].name], p)
  {
    k :| 0 <= k < |node.entries| && At(node.entries[k].node, rel + [node.entries[k].name], p, dir);
    var child := rel + [node.entries[k].name];
    AtExtends(node.entries[k].node, child, p, dir);
    assert rel < child && child <= p && !RulesKeep(d, child);
    RulesKeepDirs(d, child);
  }

  /** The walk lists every directory down to 63 levels beneath its root that lies in none the rules keep, */
  lemma {:induction false} ListsDeep(d: Decls, node: Node, rel: Path, depth: nat, p: Path, dir: Node)
    requires At(node, rel, p, dir) && dir.Directory? && |p| + depth < |rel| + 64 && OpenWay(d, rel, p)
    ensures Lists(d, node, rel, depth, p)
    decreases node
  {
    if p != rel {
      var k := WayDown(d, node, rel, depth, p, dir);
      ListsDeep(d, node.entries[k].node, rel + [node.entries[k].name], depth + 1, p, dir);
    }
  }

  /** and none deeper, */
  lemma {:induction false} ListsShallow(d: Decls, node: Node, rel: Path, depth: nat, p: Path)
    requires Lists(d, node, rel, depth, p) && depth < 64
    ensures |p| + depth < |rel| + 64
    decreases node
  {
    if p != rel {
      var k :| 0 <= k < |node.entries| && Enters(d, node.entries[k], rel, depth) &&
               Lists(d, node.entries[k].node, rel + [node.entries[k].name], depth + 1, p);
      ListsShallow(d, node.entries[k].node, rel + [node.entries[k].name], depth + 1, p);
    }
  }

  /** and names what lies in the deepest ones as directories it could not examine, unless the rules keep them. */
  lemma {:induction false} TooDeepIsNamed(d: Decls, node: Node, rel: Path, depth: nat, p: Path, dir: Node, n: nat) returns (i: nat)
    requires DistinctNames(node) && At(node, rel, p, dir) && dir.Directory? && OpenWay(d, rel, p)
    requires |p| + depth == |rel| + 63
    requires n < |dir.entries| && !dir.entries[n].node.File? && !RulesKeep(d, p + [dir.entries[n].name])
    ensures i < |Scan(d, node, rel, depth).cands|
    ensures Scan(d, node, rel, depth).cands[i].rel == p + [dir.entries[n].name] && Scan(d, node, rel, depth).cands[i].kind == Unclassified
  {
    var child := p + [dir.entries[n].name];
    var cands, t := Scan(d, node, rel, depth).cands, Trail(d, node, rel, depth);
    RulesKeepDirs(d, child);
    TooDeepIsMet(d, node, rel, depth, p, dir, n);
    SafeCollapse(d, node, rel, depth);
    var k :| 0 <= k < |t| && t[k] == Found(child, Unseen, true);
    i := CarriedBy(cands, t, k);
  }

  lemma {:induction false} TooDeepIsMet(d: Decls, node: Node, rel: Path, depth: nat, p: Path, dir: Node, n: nat)
    requires At(node, rel, p, dir) && dir.Directory? && OpenWay(d, rel, p)
    requires |p| + depth == |rel| + 63
    requires n < |dir.entries| && !dir.entries[n].node.File? && !DirKept(d, p + [dir.entries[n].name])
    ensures Found(p + [dir.entries[n].name], Unseen, true) in Trail(d, node, rel, depth)
    decreases node
  {
    if p == rel {
      AtExtends(node, rel, p, dir);
      TooDeepHere(d, node, rel, depth, n);
    } else {
      var k := WayDown(d, node, rel, depth, p, dir);
      TooDeepIsMet(d, node.entries[k].node, rel + [node.entries[k].name], depth + 1, p, dir, n);
      TrailThrough(d, node, k, rel, depth, Found(p + [dir.entries[n].name], Unseen, true));
    }
  }

  lemma {:induction false} TooDeepHere(d: Decls, node: Node, rel: Path, depth: nat, n: nat)
    requires node.Directory? && depth == 63 && n < |node.entries| && !node.entries[n].node.File? && !DirKept(d, rel + [node.entries[n].name])
    ensures Found(rel + [node.entries[n].name], Unseen, true) in Trail(d, node, rel, depth)
  {
    var child := rel + [node.entries[n].name];
    assert Met(d, node.entries[n].node, child, depth) == [Found(child, Unseen, true)];
    TrailIncludes(d, node, n, |node.entries|, rel, depth, Found(child, Unseen, true));
  }

  lemma {:induction false} TrailThrough(d: Decls, node: Node, k: nat, rel: Path, depth: nat, f: Found)
    requires node.Directory? && k < |node.entries| && Enters(d, node.entries[k], rel, depth)
    requires f in Trail(d, node.entries[k].node, rel + [node.entries[k].name], depth + 1)
    ensures f in Trail(d, node, rel, depth)
  {
    assert Met(d, node.entries[k].node, rel + [node.entries[k].name], depth) == Trail(d, node.entries[k].node, rel + [node.entries[k].name], depth + 1);
    TrailIncludes(d, node, k, |node.entries|, rel, depth, f);
  }
}
