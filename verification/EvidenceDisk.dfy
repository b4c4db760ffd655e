/**
 pack and restore of scripts/archive-evidence.py on a directory, one file-system change at a time.  Any
 change may fail, and the ghost trace keeps every state there was, so that what holds of the whole trace
 holds wherever an exception or a crash stops the run.
 */
module EvidenceDisk {
  import opened Bytes
  import opened ArchiveNames
  import opened Strings
  import opened EvidenceArchive
  import opened EvidenceTheorems

  const PROTECTED: set<string> := {"routine-inputs.json", "oracle-map.tsv"}

  datatype Outcome = Ok | Refused | IoError

  // ----- names -----

  /** PurePath.suffix: from the last dot on, if it is neither the first nor the last character. */
  function SuffixFrom(name: string, i: nat): string
    requires i <= |name|
  {
    if i == 0 then ""
    else if name[i - 1] == '.' then if 0 < i - 1 && i < |name| then name[i - 1..] else ""
    else SuffixFrom(name, i - 1)
  }

  function Suffix(name: string): string { SuffixFrom(name, |name|) }

  function ArchiveName(root: string): string { root + ".zip" }

  function StagingName(uuid: string): string { ".evidence-" + uuid + ".tmp" }

  function RestoreStagingName(uuid: string): string { ".evidence-restore-" + uuid }

  lemma StagingIsNotArchive(root: string, uuid: string)
    ensures ArchiveName(root) != StagingName(uuid)
  {
    var a, b := ArchiveName(root), StagingName(uuid);
    assert a[|a| - 2] == 'i' && b[|b| - 2] == 'm';
  }

  lemma SuffixOfArchive(root: string)
    requires root != ""
    ensures Suffix(ArchiveName(root)) == ".zip"
  {
    var name, n := ArchiveName(root), |root|;
    assert name[n..] == ".zip";
    assert name[n] == '.' && name[n + 1] == 'z' && name[n + 2] == 'i' && name[n + 3] == 'p';
    assert SuffixFrom(name, n + 4) == SuffixFrom(name, n + 3) == SuffixFrom(name, n + 2) == SuffixFrom(name, n + 1);
  }

  // ----- what is in the directory -----

  predicate Under(p: Path, root: string) { p != [] && p[0] == root }

  /** The node of that name and everything below it. */
  function Subtree(files: Tree, root: string): Tree {
    map p | p in files && Under(p, root) :: files[p]
  }

  /** Every path has its parent directory. */
  ghost predicate IsFileSystem(files: Tree) {
    forall p <- files :: p != [] && (|p| > 1 ==> Parent(p) in files && files[Parent(p)] == Directory)
  }

  predicate NodeAllowed(p: Path, node: Node, root: string, tools: Tools)
    requires p != []
  {
    !node.Special? && tools.cases.lower(p[|p| - 1]) !in PROTECTED && GoodPath(p, root, tools.cases)
  }

  /** What inventory lets through. */
  ghost predicate InventoryAllows(tree: Tree, root: string, tools: Tools) {
    forall p <- tree :: p != [] && NodeAllowed(p, tree[p], root, tools)
  }

  /** What pack accepts, short of failures of the disk. */
  ghost predicate PackAllows(files: Tree, root: string, closed: bool, tools: Tools) {
    && closed && root != MANIFEST && tools.cases.lower(Suffix(root)) != ".zip"
    && [root] in files && [ArchiveName(root)] !in files
    && InventoryAllows(Subtree(files, root), root, tools)
    && CaseDistinct(Subtree(files, root), tools.cases)
  }

  lemma AllowedIsPackable(files: Tree, root: string, tools: Tools)
    requires IsFileSystem(files) && [root] in files && root != MANIFEST
    requires InventoryAllows(Subtree(files, root), root, tools)
    ensures Packable(Subtree(files, root), root, tools)
  {
    hide GoodPath;
    var tree := Subtree(files, root);
    forall p | p in tree && |p| > 1 ensures Parent(p) in tree && tree[Parent(p)] == Directory {
      assert p in files;
    }
  }

  // ----- the worklist of inventory -----

  predicate IsChild(q: Path, p: Path) { |q| == |p| + 1 && q[..|p|] == p }

  /** iterdir: the children of a directory, in some order. */
  method ListChildren(tree: Tree, p: Path) returns (children: seq<Path>)
    ensures forall q :: q in children <==> q in tree && IsChild(q, p)
    ensures NoTwins(children)
  {
    children := [];
    var rest := tree.Keys;
    while rest != {}
      invariant rest <= tree.Keys
      invariant forall q :: q in children <==> q in tree && q !in rest && IsChild(q, p)
      invariant NoTwins(children)
      decreases rest
    {
      var q :| q in rest;
      if IsChild(q, p) {
        children := children + [q];
      }
      rest := rest - {q};
    }
  }

  ghost predicate NoTwins(s: seq<Path>) {
    forall i, j :: 0 <= i < j < |s| ==> s[i] != s[j]
  }

  /** Nothing listed lies strictly below a pending path. */
  ghost predicate NothingBelow(tree: Tree, pending: seq<Path>, done: seq<Path>) {
    forall q, p :: q in pending && (p in pending || p in done) && q <= p ==> p == q
  }

  /** Whatever is not done lies at or below a pending path. */
  ghost predicate Covered(tree: Tree, pending: seq<Path>, done: seq<Path>) {
    forall p <- tree :: p in done || AtOrBelow(p, pending)
  }

  ghost predicate AtOrBelow(p: Path, pending: seq<Path>) { exists q :: q in pending && q <= p }

  /** The state of the walk: every path is listed once, and none is forgotten. */
  ghost predicate Walk(tree: Tree, pending: seq<Path>, done: seq<Path>) {
    && IsFileSystem(tree) && NoTwins(pending) && NoTwins(done)
    && (forall p <- pending :: p in tree && p !in done) && (forall p <- done :: p in tree)
    && NothingBelow(tree, pending, done) && Covered(tree, pending, done)
  }

  lemma StartOfWalk(files: Tree, root: string)
    requires IsFileSystem(files) && [root] in files
    ensures Walk(Subtree(files, root), [[root]], [])
  {
    var tree := Subtree(files, root);
    forall p | p in tree ensures AtOrBelow(p, [[root]]) && p != [] {
      assert [root] in [[root]] && [root] <= p;
    }
  }

  lemma WalkFacts(tree: Tree, pending: seq<Path>, done: seq<Path>)
    requires Walk(tree, pending, done) && pending != []
    ensures var p := pending[|pending| - 1]; p in tree && p != [] && p !in done
  {
    assert pending[|pending| - 1] in pending;
  }

  lemma NoChildrenOfFile(tree: Tree, pending: seq<Path>, done: seq<Path>)
    requires Walk(tree, pending, done) && pending != []
    requires pending[|pending| - 1] in tree && tree[pending[|pending| - 1]] != Directory
    ensures forall q <- tree :: !IsChild(q, pending[|pending| - 1])
  {
    var path := pending[|pending| - 1];
    if q :| q in tree && IsChild(q, path) {
      WhoseChild(q, path);
      assert false;
    }
  }

  lemma WhoseChild(q: Path, path: Path)
    requires IsChild(q, path)
    ensures q != [] && Parent(q) == path && path <= q
  {}

  /** Every ancestor of a listed path is listed. */
  lemma {:induction false} Ancestor(tree: Tree, p: Path, k: nat)
    requires IsFileSystem(tree) && p in tree && 1 <= k <= |p|
    ensures p[..k] in tree
    decreases |p|
  {
    if k < |p| {
      Ancestor(tree, Parent(p), k);
      assert Parent(p)[..k] == p[..k];
    } else {
      assert p[..k] == p;
    }
  }

  lemma PrefixOfChild(q: Path, p: Path, path: Path)
    requires q <= p && IsChild(p, path)
    ensures q == p || q <= path
  {}

  lemma BelowStep(pending: seq<Path>, done: seq<Path>, path: Path, rest: seq<Path>, children: seq<Path>, q: Path, p: Path)
    requires pending == rest + [path] && path !in rest
    requires forall a, b :: a in pending && (b in pending || b in done) && a <= b ==> a == b
    requires forall c <- children :: IsChild(c, path)
    requires q in rest + children && (p in rest + children || p in done + [path]) && q <= p
    ensures p == q
  {
    assert path in pending && forall a <- rest :: a in pending;
    assert p in pending || p in done || p in children;
    if q in rest {
      if p in children {
        PrefixOfChild(q, p, path);
      }
    } else {
      assert path <= q <= p;
      assert p in pending || p in done ==> path == p;
    }
  }

  lemma CoverStep(tree: Tree, path: Path, rest: seq<Path>, children: seq<Path>, p: Path)
    requires IsFileSystem(tree) && p in tree && AtOrBelow(p, rest + [path])
    requires forall q :: q in children <==> q in tree && IsChild(q, path)
    ensures p == path || AtOrBelow(p, rest + children)
  {
    hide IsFileSystem;
    var q :| q in rest + [path] && q <= p;
    if q in rest {
      assert q in rest + children;
    } else if p != path {
      var child := p[..|path| + 1];
      Ancestor(tree, p, |path| + 1);
      assert child[..|path|] == path && child <= p;
      assert child in rest + children;
    }
  }

  lemma TwinStep(pending: seq<Path>, children: seq<Path>)
    requires pending != [] && NoTwins(pending) && NoTwins(children) && forall c <- children :: c !in pending
    ensures NoTwins(pending[..|pending| - 1] + children)
  {
    var n := |pending| - 1;
    var next := pending[..n] + children;
    forall i, j | 0 <= i < j < |next| ensures next[i] != next[j] {
      if i < n { assert next[i] == pending[i] && pending[i] in pending; }
      if j < n { assert next[j] == pending[j]; } else { assert next[j] == children[j - n]; }
      if i >= n { assert next[i] == children[i - n]; }
    }
  }

  lemma WalkStep(tree: Tree, pending: seq<Path>, done: seq<Path>, children: seq<Path>)
    requires Walk(tree, pending, done) && pending != [] && NoTwins(children)
    requires forall q :: q in children <==> q in tree && IsChild(q, pending[|pending| - 1])
    ensures Walk(tree, pending[..|pending| - 1] + children, done + [pending[|pending| - 1]])
  {
    hide AtOrBelow, IsChild, IsFileSystem, NoTwins;
    var n := |pending| - 1;
    var path, rest := pending[n], pending[..n];
    var pending', done' := rest + children, done + [path];
    assert pending == rest + [path] && path in pending;
    forall c | c in children ensures c !in pending && c !in done && c != path {
      ChildIsNew(pending, done, path, c);
    }
    TwinStep(pending, children);
    NotLast(pending);
    AppendKeepsDistinct(done, path);
    assert forall p <- rest :: p in pending;
    assert NothingBelow(tree, pending', done') by {
      forall q, p | q in pending' && (p in pending' || p in done') && q <= p ensures p == q {
        BelowStep(pending, done, path, rest, children, q, p);
      }
    }
    assert Covered(tree, pending', done') by {
      forall p | p in tree && p !in done' ensures AtOrBelow(p, pending') {
        CoverStep(tree, path, rest, children, p);
      }
    }
  }

  lemma ChildIsNew(pending: seq<Path>, done: seq<Path>, path: Path, c: Path)
    requires path in pending && IsChild(c, path)
    requires forall a, b :: a in pending && (b in pending || b in done) && a <= b ==> a == b
    ensures c !in pending && c !in done && c != path
  {
    WhoseChild(c, path);
  }

  lemma AppendKeepsDistinct(s: seq<Path>, p: Path)
    requires NoTwins(s) && p !in s
    ensures NoTwins(s + [p])
  {}

  lemma NotLast(s: seq<Path>)
    requires s != [] && NoTwins(s)
    ensures s[|s| - 1] !in s[..|s| - 1]
  {}

  lemma EndOfWalk(tree: Tree, done: seq<Path>)
    requires Walk(tree, [], done)
    ensures Enumerates(done, tree)
  {
    forall p | p in tree ensures p in done {
      assert p in done || AtOrBelow(p, []);
    }
  }

  // ----- safety of pack -----

  /** The two files pack may create. */
  function Own(root: string, uuid: string): set<Path> { {[ArchiveName(root)], [StagingName(uuid)]} }

  ghost predicate SameAt(files: Tree, before: Tree, p: Path) {
    (p in files <==> p in before) && (p in files ==> files[p] == before[p])
  }

  ghost predicate SourceIntact(files: Tree, before: Tree, root: string) {
    forall p <- before :: Under(p, root) ==> SameAt(files, before, p)
  }

  /** A published archive that read_archive accepts and that holds the whole source. */
  ghost predicate Published(files: Tree, before: Tree, root: string, tools: Tools) {
    var archive := [ArchiveName(root)];
    && archive in files && files[archive].Regular? && tools.unzip(files[archive].content).Some?
    && Accepted(tools.unzip(files[archive].content).value, root, tools)
    && Extracted(tools.unzip(files[archive].content).value, root, tools) == Subtree(before, root)
  }

  /** Nothing but the source and these two files is touched. */
  ghost predicate OthersKept(files: Tree, before: Tree, root: string, uuid: string) {
    forall p :: !Under(p, root) && p !in Own(root, uuid) ==> SameAt(files, before, p)
  }

  /** There is no archive but the one there was before, or a verified one. */
  ghost predicate ArchiveVerified(files: Tree, before: Tree, root: string, tools: Tools) {
    [ArchiveName(root)] in files && [ArchiveName(root)] !in before ==> Published(files, before, root, tools)
  }

  /** No evidence is lost: the source is whole, or a verified archive of it has been published; no other is published. */
  ghost predicate Safe(files: Tree, before: Tree, root: string, uuid: string, tools: Tools) {
    && (SourceIntact(files, before, root) || Published(files, before, root, tools))
    && ArchiveVerified(files, before, root, tools) && OthersKept(files, before, root, uuid)
  }

  ghost predicate SafeTrace(trace: seq<Tree>, from: nat, before: Tree, root: string, uuid: string, tools: Tools) {
    forall k :: from <= k < |trace| ==> Safe(trace[k], before, root, uuid, tools)
  }

  /** While pack only adds its own files, the source is whole. */
  lemma OwnFilesAreSafe(files: Tree, before: Tree, root: string, uuid: string, tools: Tools)
    requires [root] in before && [StagingName(uuid)] !in before
    requires forall p :: p !in Own(root, uuid) ==> SameAt(files, before, p)
    requires ArchiveVerified(files, before, root, tools)
    ensures Safe(files, before, root, uuid, tools)
  {
    forall p | p in before && Under(p, root) ensures p !in Own(root, uuid) {
      assert |ArchiveName(root)| > |root|;
    }
  }

  /** Once the archive is published, removing any of the source loses nothing. */
  lemma RemovalIsSafe(files: Tree, before: Tree, root: string, uuid: string, tools: Tools, p: Path)
    requires Published(files, before, root, tools) && OthersKept(files, before, root, uuid) && Under(p, root)
    ensures Published(files - {p}, before, root, tools) && Safe(files - {p}, before, root, uuid, tools)
  {
    assert |ArchiveName(root)| > |root|;
  }

  lemma PublishedIsSafe(files: Tree, before: Tree, root: string, uuid: string, tools: Tools)
    requires Published(files, before, root, tools) && OthersKept(files, before, root, uuid)
    ensures Safe(files, before, root, uuid, tools)
  {}

  /** Two listings of the same tree list the same paths. */
  lemma SameEntries(a: seq<Path>, b: seq<Path>, tree: Tree)
    requires Enumerates(a, tree) && Enumerates(b, tree)
    ensures (forall p :: p in b <==> p in tree) && (forall p <- a :: p in b) && (forall p <- b :: p in a)
  {}

  /** The archive pack has built is one to publish. */
  lemma PackedIsPublished(files: Tree, before: Tree, root: string, tools: Tools, order: seq<Path>)
    requires Sound(tools) && Enumerates(order, Subtree(before, root)) && Packable(Subtree(before, root), root, tools)
    requires CaseDistinct(Subtree(before, root), tools.cases)
    requires [ArchiveName(root)] in files
    requires files[[ArchiveName(root)]] == Regular(tools.zip(Packed(order, Subtree(before, root), tools)))
    ensures Published(files, before, root, tools)
  {
    hide Packable, Enumerates, Packed, Accepted, Extracted, CaseDistinct, Subtree;
    var tree := Subtree(before, root);
    PackedUnzips(order, tree, root, tools);
    PackedIsAccepted(order, tree, root, tools);
    RestoreUndoesPack(order, tree, root, tools);
  }

  lemma PackedUnzips(order: seq<Path>, tree: Tree, root: string, tools: Tools)
    requires Sound(tools) && Enumerates(order, tree) && Packable(tree, root, tools)
    ensures tools.unzip(tools.zip(Packed(order, tree, tools))) == Some(Packed(order, tree, tools))
  {
    hide Packable, Packed, NameIn, EntryOf, FileName, PathOf, NodeOf;
    var members := Packed(order, tree, tools);
    PackedLast(order, tree, tools);
    LastIsPlain(order, tree, tools);
    forall m | m in members ensures FileName(m) == m.origName {
      var i :| 0 <= i < |members| && members[i] == m;
      if i < |order| { PackedEntry(order, tree, root, tools, i); }
    }
  }

  lemma LastIsPlain(order: seq<Path>, tree: Tree, tools: Tools)
    requires forall p <- order :: p in tree
    ensures |Packed(order, tree, tools)| == |order| + 1
    ensures FileName(Packed(order, tree, tools)[|order|]) == Packed(order, tree, tools)[|order|].origName
  {
    ManifestIsPlain();
  }

  /** One more entry of the archive and of the manifest. */
  lemma OneMoreEntry(order: seq<Path>, tree: Tree, tools: Tools, i: nat)
    requires i < |order| && forall p <- order :: p in tree
    ensures order[i] in tree && (forall p <- order[..i] :: p in tree) && (forall p <- order[..i + 1] :: p in tree)
    ensures Entries(order[..i + 1], tree) == Entries(order[..i], tree) + [EntryOf(order[i], tree[order[i]])]
    ensures ManifestFor(order[..i + 1], tree, tools)
            == ManifestFor(order[..i], tree, tools)[NameIn(tree, order[i]) := DigestOf(tree[order[i]], tools)]
  {
    var a, b := order[..i], order[..i + 1];
    assert b[..i] == a && b[i] == order[i];
  }

  /** Adding an archive leaves the source as it was. */
  lemma SubtreeOfStaged(files: Tree, before: Tree, root: string, uuid: string)
    requires [root] in before && [StagingName(uuid)] !in before && [StagingName(uuid)] in files
    requires files - {[StagingName(uuid)]} == before
    ensures Subtree(files, root) == Subtree(before, root)
    ensures IsFileSystem(before) && files[[StagingName(uuid)]] != Directory ==> IsFileSystem(files)
  {
    var staging := [StagingName(uuid)];
    assert root != StagingName(uuid);
    forall p ensures p != staging ==> (p in files <==> p in before) && (p in files ==> files[p] == before[p]) {
      assert p != staging ==> (p in files <==> p in files - {staging});
    }
    if IsFileSystem(before) {
      forall p | p in files && |p| > 1 ensures Parent(p) in files && files[Parent(p)] == Directory {
        assert p in before && Parent(p) in before;
      }
    }
  }

  // ----- restore -----

  lemma {:induction false} SuffixFits(name: string, i: nat)
    requires i <= |name|
    ensures |SuffixFrom(name, i)| <= |name|
    decreases i
  {
    if i > 0 && name[i - 1] != '.' { SuffixFits(name, i - 1); }
  }

  /** The archive's name without its suffix. */
  function Destination(archive: string): string {
    SuffixFits(archive, |archive|);
    archive[..|archive| - |Suffix(archive)|]
  }

  lemma DestinationOfArchive(root: string)
    requires root != ""
    ensures Destination(ArchiveName(root)) == root
  {
    SuffixOfArchive(root);
  }

  /** What the archive at that name unpacks to, if read_archive accepts it. */
  ghost predicate Readable(files: Tree, archive: string, tools: Tools) {
    && [archive] in files && files[[archive]].Regular? && tools.unzip(files[[archive]].content).Some?
    && Accepted(tools.unzip(files[[archive]].content).value, Destination(archive), tools)
  }

  ghost function Unpacked(files: Tree, archive: string, tools: Tools): Tree
    requires Readable(files, archive, tools)
  {
    Extracted(tools.unzip(files[[archive]].content).value, Destination(archive), tools)
  }

  /** What restore accepts, short of failures of the disk. */
  ghost predicate RestoreAllows(files: Tree, archive: string, tools: Tools) {
    tools.cases.lower(Suffix(archive)) == ".zip" && [Destination(archive)] !in files && Readable(files, archive, tools)
  }

  /** The destination is missing or complete, and nothing but it and the staging directory is touched. */
  ghost predicate Atomic(files: Tree, before: Tree, archive: string, staging: string, tools: Tools) {
    && (forall p :: !Under(p, staging) && !Under(p, Destination(archive)) ==> SameAt(files, before, p))
    && (Subtree(files, Destination(archive)) == map[]
        || (Readable(before, archive, tools) && Subtree(files, Destination(archive)) == Unpacked(before, archive, tools)))
  }

  ghost predicate AtomicTrace(trace: seq<Tree>, from: nat, before: Tree, archive: string, staging: string, tools: Tools) {
    forall k :: from <= k < |trace| ==> Atomic(trace[k], before, archive, staging, tools)
  }

  ghost predicate OnlyStaging(files: Tree, before: Tree, staging: string) {
    forall p :: !Under(p, staging) ==> SameAt(files, before, p)
  }

  lemma NothingUnder(files: Tree, name: string)
    requires IsFileSystem(files) && [name] !in files
    ensures forall p <- files :: !Under(p, name)
  {
    forall p | p in files ensures !Under(p, name) { MissingRoot(files, p, name); }
  }

  lemma {:induction false} MissingRoot(files: Tree, p: Path, name: string)
    requires IsFileSystem(files) && [name] !in files && p in files
    ensures !Under(p, name)
    decreases |p|
  {
    if |p| > 1 { MissingRoot(files, Parent(p), name); } else { assert Under(p, name) ==> p == [name]; }
  }

  lemma StagingIsAtomic(files: Tree, before: Tree, archive: string, staging: string, tools: Tools)
    requires OnlyStaging(files, before, staging) && staging != Destination(archive)
    requires forall p <- before :: !Under(p, Destination(archive))
    ensures Atomic(files, before, archive, staging, tools)
  {
    forall p | p in files ensures !Under(p, Destination(archive)) {
      assert SameAt(files, before, p) || Under(p, staging);
    }
    assert Subtree(files, Destination(archive)) == map[];
  }

  /** The nodes below the staging directory, under the names they will have. */
  function Lifted(files: Tree, staging: string): Tree {
    map p | p in (set q | q in files && Under(q, staging) && |q| > 1 :: q[1..]) && [staging] + p in files :: files[[staging] + p]
  }

  lemma LiftedIs(files: Tree, staging: string)
    ensures forall p :: p in Lifted(files, staging) <==> p != [] && [staging] + p in files
    ensures forall p <- Lifted(files, staging) :: Lifted(files, staging)[p] == files[[staging] + p]
  {
    var found := set q | q in files && Under(q, staging) && |q| > 1 :: q[1..];
    forall p ensures p in found <==> p != [] && [staging] + p in files {
      if p in found {
        var q :| q in files && Under(q, staging) && |q| > 1 && q[1..] == p;
        assert q == [staging] + p;
      }
      if p != [] && [staging] + p in files {
        assert ([staging] + p)[1..] == p;
      }
    }
  }

  lemma LiftOne(files: Tree, staging: string, p: Path, node: Node)
    requires p != []
    ensures Lifted(files[[staging] + p := node], staging) == Lifted(files, staging)[p := node]
  {
    LiftedIs(files, staging);
    LiftedIs(files[[staging] + p := node], staging);
    assert forall q: Path :: [staging] + q == [staging] + p ==> ([staging] + q)[1..] == q && ([staging] + p)[1..] == p;
  }

  /** What is in staging becomes the destination, in one step; a file is linked, a directory moved. */
  function Landed(files: Tree, staging: string, linking: bool): Tree {
    var tree := Lifted(files, staging);
    (map p | p in files && (linking || !(Under(p, staging) && |p| > 1)) :: files[p]) + tree
  }

  lemma LandedAt(files: Tree, before: Tree, staging: string, linking: bool, p: Path)
    requires !Under(p, staging) && SameAt(files, before, p)
    ensures SameAt(Landed(files, staging, linking), before + Lifted(files, staging), p)
  {}

  lemma LandingIsAtomic(files: Tree, before: Tree, archive: string, staging: string, linking: bool, tools: Tools)
    requires OnlyStaging(files, before, staging) && staging != Destination(archive)
    requires forall p <- before :: !Under(p, Destination(archive))
    requires Readable(before, archive, tools) && Lifted(files, staging) == Unpacked(before, archive, tools)
    ensures Atomic(Landed(files, staging, linking), before, archive, staging, tools)
    ensures OnlyStaging(Landed(files, staging, linking), before + Unpacked(before, archive, tools), staging)
  {
    hide Lifted, Landed, Unpacked, Destination, SameAt, Readable;
    var tree, next, root := Unpacked(before, archive, tools), Landed(files, staging, linking), Destination(archive);
    UnpackedIsUnder(before, archive, tools);
    forall p | !Under(p, staging) ensures SameAt(next, before + tree, p) {
      LandedAt(files, before, staging, linking, p);
    }
    assert OnlyStaging(next, before + tree, staging);
    OnlyTreeAdded(next, before, tree, root, staging);
  }

  lemma UnpackedIsUnder(files: Tree, archive: string, tools: Tools)
    requires Readable(files, archive, tools)
    ensures forall p <- Unpacked(files, archive, tools) :: Under(p, Destination(archive))
  {
    hide Accepted;
    AcceptedIsTree(tools.unzip(files[[archive]].content).value, Destination(archive), tools);
  }

  lemma OnlyTreeAdded(next: Tree, before: Tree, tree: Tree, root: string, staging: string)
    requires forall p :: !Under(p, staging) ==> SameAt(next, before + tree, p)
    requires (forall p <- before :: !Under(p, root)) && (forall p <- tree :: Under(p, root)) && root != staging
    ensures forall p :: !Under(p, staging) && !Under(p, root) ==> SameAt(next, before, p)
    ensures Subtree(next, root) == tree
  {
    forall p ensures Under(p, root) ==> (p in next <==> p in tree) && (p in tree ==> next[p] == tree[p]) {
      if Under(p, root) { assert SameAt(next, before + tree, p); }
    }
  }

  /** Removing part of the staging directory. */
  lemma RemovalIsAtomic(files: Tree, before: Tree, archive: string, staging: string, tools: Tools, p: Path)
    requires Atomic(files, before, archive, staging, tools) && Under(p, staging) && staging != Destination(archive)
    ensures Atomic(files - {p}, before, archive, staging, tools)
  {
    assert Subtree(files - {p}, Destination(archive)) == Subtree(files, Destination(archive));
  }

  lemma StageOne(files: Tree, before: Tree, staging: string, p: Path, node: Node)
    requires OnlyStaging(files, before, staging) && p != []
    ensures OnlyStaging(files[[staging] + p := node], before, staging)
    ensures Lifted(files[[staging] + p := node], staging) == Lifted(files, staging)[p := node]
  {
    LiftOne(files, staging, p, node);
    forall q | !Under(q, staging) ensures SameAt(files[[staging] + p := node], before, q) {
      assert SameAt(files, before, q);
    }
  }

  lemma ArchiveIsKept(files: Tree, before: Tree, archive: string, staging: string)
    requires OnlyStaging(files, before, staging) && staging != archive
    ensures SameAt(files, before, [archive])
  {
    assert !Under([archive], staging);
  }

  lemma UnpackedHasNames(files: Tree, archive: string, tools: Tools)
    requires Readable(files, archive, tools)
    ensures Unpacked(files, archive, tools) - {[]} == Unpacked(files, archive, tools)
  {
    UnpackedIsUnder(files, archive, tools);
  }

  lemma NothingStaged(files: Tree, staging: string)
    ensures OnlyStaging(files, files, staging)
  {}

  lemma MakeStaging(files: Tree, staging: string)
    requires forall p <- files :: !Under(p, staging)
    ensures OnlyStaging(files[[staging] := Directory], files, staging)
    ensures Lifted(files[[staging] := Directory], staging) == map[]
  {
    LiftedIs(files[[staging] := Directory], staging);
  }

  /** With the staging directory removed, what was the same elsewhere is the same. */
  lemma StagingGone(files: Tree, before: Tree, staging: string)
    requires OnlyStaging(files, before, staging) && forall p <- before :: !Under(p, staging)
    ensures files - Subtree(files, staging).Keys == before
  {
    forall p ensures SameAt(files - Subtree(files, staging).Keys, before, p) {
      if !Under(p, staging) { assert SameAt(files, before, p); }
    }
  }

  lemma UnpackedElsewhere(files: Tree, archive: string, staging: string, tools: Tools)
    requires Readable(files, archive, tools) && staging != Destination(archive)
    requires forall p <- files :: !Under(p, staging)
    ensures forall p <- files + Unpacked(files, archive, tools) :: !Under(p, staging)
  {
    UnpackedIsUnder(files, archive, tools);
  }

  // ----- there and back -----

  /** The directory after pack with removal. */
  ghost predicate PackedAway(files: Tree, before: Tree, root: string, tools: Tools) {
    && Published(files, before, root, tools)
    && files == (before - Subtree(before, root).Keys)[[ArchiveName(root)] := files[[ArchiveName(root)]]]
  }

  lemma AllowedHasName(files: Tree, root: string, closed: bool, tools: Tools)
    requires PackAllows(files, root, closed, tools)
    ensures root != ""
  {
    hide Suffix, CaseDistinct;
    assert [root] in Subtree(files, root) && NodeAllowed([root], files[[root]], root, tools);
    assert root in [root];
  }

  lemma PackedAwayIsFileSystem(files: Tree, before: Tree, root: string, tools: Tools)
    requires PackedAway(files, before, root, tools) && IsFileSystem(before) && [ArchiveName(root)] !in before
    ensures IsFileSystem(files)
  {
    hide Accepted, Extracted, Published;
    NothingUnder(before, ArchiveName(root));
    forall p | p in files ensures p != [] && (|p| > 1 ==> Parent(p) in files && files[Parent(p)] == Directory) {
      if |p| > 1 {
        assert p in before && p !in Subtree(before, root);
        assert Parent(p)[0] == p[0];
      }
    }
  }

  lemma PackedIsReadable(files: Tree, before: Tree, root: string, tools: Tools)
    requires Published(files, before, root, tools) && root != ""
    ensures Destination(ArchiveName(root)) == root && Readable(files, ArchiveName(root), tools)
    ensures Unpacked(files, ArchiveName(root), tools) == Subtree(before, root)
  {
    hide Accepted, Extracted, Subtree, Destination, ArchiveName;
    DestinationOfArchive(root);
  }

  lemma PackedCanBeRestored(files: Tree, before: Tree, root: string, tools: Tools)
    requires PackedAway(files, before, root, tools) && PackAllows(before, root, true, tools) && IsFileSystem(before)
    requires tools.cases.lower(".zip") == ".zip"
    ensures IsFileSystem(files) && RestoreAllows(files, ArchiveName(root), tools)
    ensures Destination(ArchiveName(root)) == root && Unpacked(files, ArchiveName(root), tools) == Subtree(before, root)
    ensures forall name :: name !in {root, ArchiveName(root)} && [name] in files ==> [name] in before
  {
    hide Accepted, Extracted, CaseDistinct, InventoryAllows, Suffix, Destination, Readable, Unpacked, IsFileSystem, Published;
    AllowedHasName(before, root, true, tools);
    SuffixOfArchive(root);
    PackedAwayIsFileSystem(files, before, root, tools);
    PackedIsReadable(files, before, root, tools);
    assert |ArchiveName(root)| > |root|;
  }

  lemma BackAgain(files: Tree, before: Tree, root: string, tools: Tools)
    requires PackedAway(files, before, root, tools)
    ensures files + Subtree(before, root) == before[[ArchiveName(root)] := files[[ArchiveName(root)]]]
  {
    assert |ArchiveName(root)| > |root|;
  }
}
