/** The directory as an object that pack and restore change one step at a time. */
module EvidenceOperations {
  import opened Bytes
  import opened ArchiveNames
  import opened Strings
  import opened EvidenceArchive
  import opened EvidenceTheorems
  import opened EvidenceDisk

  class EvidenceDirectory {
    const tools: Tools
    var files: Tree
    ghost var trace: seq<Tree>
    ghost var failures: nat

    constructor (tools: Tools, files: Tree)
      ensures this.tools == tools && this.files == files && trace == [] && failures == 0
    {
      this.tools, this.files, trace, failures := tools, files, [], 0;
    }

    /** One change to the directory; it may fail, and then changes nothing. */
    method Change(next: Tree) returns (ok: bool)
      modifies this
      ensures ok ==> files == next && trace == old(trace) + [next] && failures == old(failures)
      ensures !ok ==> files == old(files) && trace == old(trace) && failures == old(failures) + 1
    {
      ok := *;
      if ok {
        files := next;
        trace := trace + [next];
      } else {
        failures := failures + 1;
      }
    }

    /** Reading a node; it may fail. */
    method Read(p: Path) returns (node: Option<Node>)
      requires p in files
      modifies `failures
      ensures node.Some? ==> node.value == files[p] && failures == old(failures)
      ensures node.None? ==> failures == old(failures) + 1
    {
      var ok: bool := *;
      if ok {
        return Some(files[p]);
      }
      failures := failures + 1;
      return None;
    }

    /** The worklist of inventory: every node of the source once, or a refusal. */
    method Inventory(root: string) returns (entries: Option<seq<Path>>)
      requires IsFileSystem(files) && [root] in files
      ensures entries.Some? <==> InventoryAllows(Subtree(files, root), root, tools)
      ensures entries.Some? ==> Enumerates(entries.value, Subtree(files, root))
    {
      hide NodeAllowed, Walk, Subtree, IsFileSystem;
      var tree := Subtree(files, root);
      var pending: seq<Path>, done: seq<Path> := [[root]], [];
      StartOfWalk(files, root);
      while pending != []
        invariant Walk(tree, pending, done)
        invariant forall p <- done :: p in tree && p != [] && NodeAllowed(p, tree[p], root, tools)
        decreases tree.Keys - (set p | p in done)
      {
        WalkFacts(tree, pending, done);
        var path := pending[|pending| - 1];
        if !NodeAllowed(path, tree[path], root, tools) {
          return None;
        }
        var children := [];
        if tree[path] == Directory {
          children := ListChildren(tree, path);
        } else {
          NoChildrenOfFile(tree, pending, done);
        }
        WalkStep(tree, pending, done, children);
        ghost var before := set p | p in done;
        pending := pending[..|pending| - 1] + children;
        done := done + [path];
        assert path !in before && (set p | p in done) == before + {path};
      }
      EndOfWalk(tree, done);
      return Some(done);
    }

    // ----- pack -----

    /** A change pack makes: allowed only if it leaves the evidence safe. */
    method Step(next: Tree, root: string, uuid: string, ghost before: Tree, ghost from: nat) returns (ok: bool)
      requires SafeTrace(trace, from, before, root, uuid, tools) && from <= |trace|
      requires Safe(next, before, root, uuid, tools)
      modifies this
      ensures SafeTrace(trace, from, before, root, uuid, tools) && old(trace) <= trace
      ensures ok ==> files == next && failures == old(failures)
      ensures !ok ==> files == old(files) && failures > old(failures)
    {
      hide Safe;
      ok := Change(next);
    }

    /** The staging file holds something, and nothing else has changed. */
    ghost predicate Staged(before: Tree, uuid: string, content: bytes)
      reads this
    {
      [StagingName(uuid)] !in before && files == before[[StagingName(uuid)] := Regular(content)]
    }

    /** Writes one entry after the other into the staging file, then the manifest. */
    method WriteStaging(root: string, uuid: string, order: seq<Path>, ghost before: Tree, ghost from: nat)
      returns (ok: bool, ghost content: bytes)
      requires Staged(before, uuid, []) && [root] in before
      requires forall p :: p in order <==> p in Subtree(before, root)
      requires SafeTrace(trace, from, before, root, uuid, tools) && from <= |trace|
      modifies this
      ensures SafeTrace(trace, from, before, root, uuid, tools) && old(trace) <= trace
      ensures Staged(before, uuid, content)
      ensures ok ==> content == tools.zip(Packed(order, Subtree(before, root), tools)) && failures == old(failures)
      ensures !ok ==> failures > old(failures)
    {
      hide Safe, EntryOf, DigestOf, SafeTrace, Published;
      StagingIsNotArchive(root, uuid);
      var staging := [StagingName(uuid)];
      ghost var tree := Subtree(before, root);
      var members: seq<Member>, manifest: Manifest := [], map[];
      content := [];
      for i := 0 to |order|
        invariant SafeTrace(trace, from, before, root, uuid, tools) && old(trace) <= trace && from <= |trace|
        invariant Staged(before, uuid, content) && failures == old(failures)
        invariant members == Entries(order[..i], tree) && manifest == ManifestFor(order[..i], tree, tools)
      {
        var p := order[i];
        assert p in order;
        OneMoreEntry(order, tree, tools, i);
        var node := Read(p);
        if node.None? { return false, content; }
        var part: bytes := *;
        OwnFilesAreSafe(files[staging := Regular(part)], before, root, uuid, tools);
        var written := Step(files[staging := Regular(part)], root, uuid, before, from);
        if !written { return false, content; }
        content := part;
        members := members + [EntryOf(p, node.value)];
        manifest := manifest[EntryName(p, node.value == Directory) := DigestOf(node.value, tools)];
      }
      assert order[..|order|] == order;
      var whole := tools.zip(members + [Member(MANIFEST, tools.dumps(manifest))]);
      OwnFilesAreSafe(files[staging := Regular(whole)], before, root, uuid, tools);
      ok := Step(files[staging := Regular(whole)], root, uuid, before, from);
      if ok { content := whole; }
    }

    /** read_archive on the staging file, and the inventory once more: may this be published? */
    method Verify(root: string, uuid: string, order: seq<Path>, ghost before: Tree, ghost content: bytes)
      returns (outcome: Outcome)
      requires Sound(tools) && IsFileSystem(before) && [root] in before && root != MANIFEST
      requires InventoryAllows(Subtree(before, root), root, tools) && Enumerates(order, Subtree(before, root))
      requires Staged(before, uuid, content) && content == tools.zip(Packed(order, Subtree(before, root), tools))
      modifies `failures
      ensures outcome == IoError <==> failures > old(failures)
      ensures outcome != IoError ==> failures == old(failures)
      ensures outcome == Ok ==> CaseDistinct(Subtree(before, root), tools.cases)
      ensures outcome == Refused ==> !CaseDistinct(Subtree(before, root), tools.cases)
    {
      hide Packed, Subtree, IsFileSystem, InventoryAllows, Enumerates, Sound, CaseDistinct, Packable, Accepted;
      ghost var tree := Subtree(before, root);
      AllowedIsPackable(before, root, tools);
      PackedUnzips(order, tree, root, tools);
      PackedIsAccepted(order, tree, root, tools);
      StagedIsRemovable(before, uuid, content);
      SubtreeOfStaged(files, before, root, uuid);
      var archive := Read([StagingName(uuid)]);
      if archive.None? { return IoError; }
      var members := tools.unzip(archive.value.content);
      var ok, _ := ReadArchive(members.value, root, tools);
      var again := Inventory(root);
      var same := again.Some? && (forall p <- again.value :: p in order) && (forall p <- order :: p in again.value);
      outcome := if ok && same then Ok else Refused;
      SameEntries(again.value, order, tree);
    }

    /** The archive as published: staging aside, nothing but the archive has been added. */
    ghost predicate HasArchive(before: Tree, root: string, uuid: string)
      reads this
    {
      && [ArchiveName(root)] in files
      && files - {[StagingName(uuid)]} == before[[ArchiveName(root)] := files[[ArchiveName(root)]]]
    }

    /** The body of pack's try block: write, verify, publish. */
    method Archive(root: string, uuid: string, order: seq<Path>, ghost before: Tree, ghost from: nat)
      returns (outcome: Outcome)
      requires Sound(tools) && IsFileSystem(before) && [root] in before && root != MANIFEST
      requires [ArchiveName(root)] !in before
      requires InventoryAllows(Subtree(before, root), root, tools) && Enumerates(order, Subtree(before, root))
      requires Staged(before, uuid, [])
      requires SafeTrace(trace, from, before, root, uuid, tools) && from <= |trace|
      modifies this
      ensures SafeTrace(trace, from, before, root, uuid, tools) && old(trace) <= trace
      ensures outcome == IoError <==> failures > old(failures)
      ensures outcome != IoError ==> failures == old(failures)
      ensures outcome == Ok ==> CaseDistinct(Subtree(before, root), tools.cases)
      ensures outcome == Ok ==> HasArchive(before, root, uuid) && Published(files, before, root, tools)
      ensures outcome == Refused ==> !CaseDistinct(Subtree(before, root), tools.cases)
      ensures outcome != Ok ==> files - {[StagingName(uuid)]} == before
    {
      hide Packed, Subtree, IsFileSystem, InventoryAllows, Enumerates, Sound, CaseDistinct, Packable, Accepted, Published;
      hide Safe, SafeTrace;
      var staging, archive := [StagingName(uuid)], [ArchiveName(root)];
      SameEntries(order, order, Subtree(before, root));
      var written, content := WriteStaging(root, uuid, order, before, from);
      StagedIsRemovable(before, uuid, content);
      if !written { return IoError; }
      outcome := Verify(root, uuid, order, before, content);
      if outcome != Ok { return; }
      StagingIsNotArchive(root, uuid);
      AllowedIsPackable(before, root, tools);
      var renaming: bool := *;
      ghost var node := files[staging];
      var next := (if renaming then files - {staging} else files)[archive := files[staging]];
      PackedIsPublished(next, before, root, tools, order);
      OwnFilesAreSafe(next, before, root, uuid, tools);
      var published := Step(next, root, uuid, before, from);
      if !published { return IoError; }
      PublishStep(before, staging, archive, node, renaming);
    }

    lemma PublishStep(before: Tree, staging: Path, archive: Path, node: Node, renaming: bool)
      requires staging !in before && staging != archive
      ensures var now := before[staging := node];
              (if renaming then now - {staging} else now)[archive := node] - {staging} == before[archive := node]
    {}

    /** The finally clause: the staging file goes, if it is still there. */
    method Unstage(root: string, uuid: string, ghost before: Tree, ghost from: nat) returns (ok: bool)
      requires SafeTrace(trace, from, before, root, uuid, tools) && from <= |trace|
      requires Safe(files - {[StagingName(uuid)]}, before, root, uuid, tools)
      modifies this
      ensures SafeTrace(trace, from, before, root, uuid, tools) && old(trace) <= trace
      ensures ok ==> files == old(files) - {[StagingName(uuid)]} && failures == old(failures)
      ensures !ok ==> files == old(files) && failures > old(failures)
    {
      hide Safe, SafeTrace;
      ok := true;
      if [StagingName(uuid)] in files {
        ok := Step(files - {[StagingName(uuid)]}, root, uuid, before, from);
      } else {
        assert files == files - {[StagingName(uuid)]};
      }
    }

    /** rmtree or unlink of the source, node by node. */
    method RemoveSource(root: string, uuid: string, ghost before: Tree, ghost from: nat) returns (ok: bool)
      requires Published(files, before, root, tools) && OthersKept(files, before, root, uuid)
      requires SafeTrace(trace, from, before, root, uuid, tools) && from <= |trace|
      modifies this
      ensures SafeTrace(trace, from, before, root, uuid, tools) && old(trace) <= trace
      ensures Safe(files, before, root, uuid, tools)
      ensures ok ==> Published(files, before, root, tools)
      ensures ok ==> failures == old(failures) && files == old(files) - Subtree(old(files), root).Keys
      ensures !ok ==> failures > old(failures)
    {
      hide Safe, SafeTrace, Published;
      var rest := Subtree(files, root).Keys;
      ghost var all := rest;
      PublishedIsSafe(files, before, root, uuid, tools);
      while rest != {}
        invariant SafeTrace(trace, from, before, root, uuid, tools) && old(trace) <= trace && from <= |trace|
        invariant Published(files, before, root, tools) && OthersKept(files, before, root, uuid)
        invariant Safe(files, before, root, uuid, tools)
        invariant failures == old(failures) && rest <= all && files == old(files) - (all - rest)
        decreases rest
      {
        var p :| p in rest;
        RemovalIsSafe(files, before, root, uuid, tools, p);
        var removed := Step(files - {p}, root, uuid, before, from);
        if !removed { return false; }
        assert all - (rest - {p}) == (all - rest) + {p};
        rest := rest - {p};
      }
      return true;
    }

    /**
     pack. It accepts exactly what PackAllows, it publishes a verified archive of the whole source and
     touches nothing else, and at no step, whatever fails, is evidence lost or an unverified archive there.
     */
    method Pack(root: string, uuid: string, closed: bool, removeSource: bool) returns (outcome: Outcome)
      requires Sound(tools) && IsFileSystem(files)
      modifies this
      ensures old(trace) <= trace && SafeTrace(trace, |old(trace)|, old(files), root, uuid, tools)
      ensures Safe(files, old(files), root, uuid, tools)
      ensures outcome == Ok ==> PackAllows(old(files), root, closed, tools) && failures == old(failures)
      ensures outcome == Refused ==> !PackAllows(old(files), root, closed, tools) && files == old(files)
      ensures outcome == IoError ==> failures > old(failures) || [StagingName(uuid)] in old(files)
      ensures outcome == Ok ==> Published(files, old(files), root, tools)
      ensures outcome == Ok ==>
                files == (if removeSource then old(files) - Subtree(old(files), root).Keys else old(files))
                           [[ArchiveName(root)] := files[[ArchiveName(root)]]]
    {
      hide Packed, Subtree, IsFileSystem, InventoryAllows, Enumerates, Sound, CaseDistinct, Packable, Accepted, Published;
      hide Safe, SafeTrace, Suffix;
      ghost var before, from := files, |trace|;
      NothingHappened(before, root, uuid);
      if !closed || root == MANIFEST || tools.cases.lower(Suffix(root)) == ".zip" {
        return Refused;
      }
      if [ArchiveName(root)] in files || [root] !in files {
        return Refused;
      }
      var entries := Inventory(root);
      if entries.None? { return Refused; }
      var staging := [StagingName(uuid)];
      if staging in files { return IoError; }
      StagingIsNotArchive(root, uuid);
      OwnFilesAreSafe(files[staging := Regular([])], before, root, uuid, tools);
      var created := Step(files[staging := Regular([])], root, uuid, before, from);
      if !created { return IoError; }
      outcome := Archive(root, uuid, entries.value, before, from);
      ghost var tried := files;
      if outcome == Ok { SameArchive(tried, files - {staging}, before, root); }
      OwnFilesAreSafe(files - {staging}, before, root, uuid, tools);
      OwnFilesAreSafe(files, before, root, uuid, tools);
      var unstaged := Unstage(root, uuid, before, from);
      if !unstaged { return IoError; }
      if outcome != Ok { return; }
      if removeSource {
        AddedArchive(files, before, root, uuid);
        var removed := RemoveSource(root, uuid, before, from);
        if !removed { return IoError; }
      }
    }

    lemma NothingHappened(before: Tree, root: string, uuid: string)
      ensures SafeTrace(trace, |trace|, before, root, uuid, tools) && Safe(before, before, root, uuid, tools)
    {}

    lemma SameArchive(a: Tree, b: Tree, before: Tree, root: string)
      requires Published(a, before, root, tools)
      requires [ArchiveName(root)] in b && b[[ArchiveName(root)]] == a[[ArchiveName(root)]]
      ensures Published(b, before, root, tools)
    {}

    lemma AddedArchive(files: Tree, before: Tree, root: string, uuid: string)
      requires [ArchiveName(root)] in files && files == before[[ArchiveName(root)] := files[[ArchiveName(root)]]]
      ensures Subtree(files, root) == Subtree(before, root) && OthersKept(files, before, root, uuid)
      ensures files - Subtree(files, root).Keys
              == (before - Subtree(before, root).Keys)[[ArchiveName(root)] := files[[ArchiveName(root)]]]
    {
      assert |ArchiveName(root)| > |root|;
    }

    lemma StagedIsRemovable(before: Tree, uuid: string, content: bytes)
      requires Staged(before, uuid, content)
      ensures [StagingName(uuid)] in files && files - {[StagingName(uuid)]} == before
      ensures files[[StagingName(uuid)]] == Regular(content)
    {}

    // ----- restore -----

    method RestoreStep(next: Tree, archive: string, staging: string, ghost before: Tree, ghost from: nat)
      returns (ok: bool)
      requires AtomicTrace(trace, from, before, archive, staging, tools) && from <= |trace|
      requires Atomic(next, before, archive, staging, tools)
      modifies this
      ensures AtomicTrace(trace, from, before, archive, staging, tools) && old(trace) <= trace
      ensures ok ==> files == next && failures == old(failures)
      ensures !ok ==> files == old(files) && failures > old(failures)
    {
      hide Atomic;
      ok := Change(next);
    }

    /** Writes the members' nodes into the staging directory. */
    method Unpack(tree: Tree, archive: string, staging: string, ghost before: Tree, ghost from: nat) returns (ok: bool)
      requires AtomicTrace(trace, from, before, archive, staging, tools) && from <= |trace|
      requires OnlyStaging(files, before, staging) && staging != Destination(archive)
      requires forall p <- before :: !Under(p, Destination(archive))
      requires Lifted(files, staging) == map[]
      modifies this
      ensures AtomicTrace(trace, from, before, archive, staging, tools) && old(trace) <= trace
      ensures OnlyStaging(files, before, staging)
      ensures ok ==> failures == old(failures) && Lifted(files, staging) == tree - {[]}
      ensures !ok ==> failures > old(failures)
    {
      hide Atomic, AtomicTrace, Lifted, Destination, SameAt;
      var rest := tree.Keys - {[]};
      ghost var all := rest;
      assert tree - tree.Keys == map[];
      while rest != {}
        invariant AtomicTrace(trace, from, before, archive, staging, tools) && old(trace) <= trace && from <= |trace|
        invariant OnlyStaging(files, before, staging)
        invariant failures == old(failures) && rest <= all && Lifted(files, staging) == tree - {[]} - rest
        decreases rest
      {
        var p :| p in rest;
        StageOne(files, before, staging, p, tree[p]);
        StagingIsAtomic(files[[staging] + p := tree[p]], before, archive, staging, tools);
        ok := RestoreStep(files[[staging] + p := tree[p]], archive, staging, before, from);
        if !ok { return; }
        assert (tree - {[]} - rest)[p := tree[p]] == tree - {[]} - (rest - {p});
        rest := rest - {p};
      }
      return true;
    }

    /** The finally clause: rmtree of the staging directory, node by node. */
    method RemoveStaging(archive: string, staging: string, ghost before: Tree, ghost from: nat) returns (ok: bool)
      requires AtomicTrace(trace, from, before, archive, staging, tools) && from <= |trace|
      requires Atomic(files, before, archive, staging, tools) && staging != Destination(archive)
      modifies this
      ensures AtomicTrace(trace, from, before, archive, staging, tools) && old(trace) <= trace
      ensures Atomic(files, before, archive, staging, tools)
      ensures ok ==> failures == old(failures) && files == old(files) - Subtree(old(files), staging).Keys
      ensures !ok ==> failures > old(failures)
    {
      hide Atomic, AtomicTrace, Destination;
      var rest := Subtree(files, staging).Keys;
      ghost var all := rest;
      while rest != {}
        invariant AtomicTrace(trace, from, before, archive, staging, tools) && old(trace) <= trace && from <= |trace|
        invariant Atomic(files, before, archive, staging, tools)
        invariant failures == old(failures) && rest <= all && files == old(files) - (all - rest)
        decreases rest
      {
        var p :| p in rest;
        RemovalIsAtomic(files, before, archive, staging, tools, p);
        ok := RestoreStep(files - {p}, archive, staging, before, from);
        if !ok { return; }
        assert all - (rest - {p}) == (all - rest) + {p};
        rest := rest - {p};
      }
      return true;
    }

    /** The body of restore's try block: read, write into staging, land. */
    method Extract(archive: string, staging: string, ghost before: Tree, ghost from: nat) returns (outcome: Outcome)
      requires AtomicTrace(trace, from, before, archive, staging, tools) && from <= |trace|
      requires OnlyStaging(files, before, staging) && staging != Destination(archive) && staging != archive
      requires forall p <- before :: !Under(p, Destination(archive))
      requires Lifted(files, staging) == map[]
      modifies this
      ensures AtomicTrace(trace, from, before, archive, staging, tools) && old(trace) <= trace
      ensures Atomic(files, before, archive, staging, tools)
      ensures outcome == IoError <==> failures > old(failures)
      ensures outcome != IoError ==> failures == old(failures)
      ensures outcome == Ok <==> failures == old(failures) && Readable(before, archive, tools)
      ensures outcome != Ok ==> OnlyStaging(files, before, staging)
      ensures outcome == Ok ==> OnlyStaging(files, before + Unpacked(before, archive, tools), staging)
    {
      hide Atomic, AtomicTrace, Lifted, Landed, Destination, OnlyStaging, Accepted, Extracted, Subtree;
      StagingIsAtomic(files, before, archive, staging, tools);
      ArchiveIsKept(files, before, archive, staging);
      if [archive] !in files { return Refused; }
      var node := Read([archive]);
      if node.None? { return IoError; }
      if !node.value.Regular? || tools.unzip(node.value.content).None? { return Refused; }
      var members := tools.unzip(node.value.content).value;
      var accepted, tree := ReadArchive(members, Destination(archive), tools);
      var written := Unpack(tree, archive, staging, before, from);
      StagingIsAtomic(files, before, archive, staging, tools);
      if !written { return IoError; }
      if !accepted { return Refused; }
      UnpackedHasNames(before, archive, tools);
      var linking: bool := *;
      LandingIsAtomic(files, before, archive, staging, linking, tools);
      var landed := RestoreStep(Landed(files, staging, linking), archive, staging, before, from);
      outcome := if landed then Ok else IoError;
    }

    /**
     restore. It accepts exactly what RestoreAllows, it adds the unpacked tree and nothing else, and at every
     step, whatever fails, the destination is missing or complete. The staging name is fresh.
     */
    method Restore(archive: string, uuid: string) returns (outcome: Outcome)
      requires IsFileSystem(files) && RestoreStagingName(uuid) !in {archive, Destination(archive)}
      modifies this
      ensures old(trace) <= trace
      ensures AtomicTrace(trace, |old(trace)|, old(files), archive, RestoreStagingName(uuid), tools)
      ensures outcome == Ok ==> RestoreAllows(old(files), archive, tools) && failures == old(failures)
      ensures outcome == Ok ==> files == old(files) + Unpacked(old(files), archive, tools)
      ensures outcome == Refused ==> !RestoreAllows(old(files), archive, tools) && files == old(files)
      ensures outcome == IoError ==> failures > old(failures) || [RestoreStagingName(uuid)] in old(files)
      ensures [Destination(archive)] !in old(files) ==> Atomic(files, old(files), archive, RestoreStagingName(uuid), tools)
    {
      hide Atomic, Lifted, Destination, OnlyStaging, Suffix, Readable, Unpacked, IsFileSystem;
      ghost var before, from := files, |trace|;
      var staging := RestoreStagingName(uuid);
      if [Destination(archive)] !in files {
        NothingUnder(files, Destination(archive));
        NothingStaged(files, staging);
        StagingIsAtomic(files, files, archive, staging, tools);
      }
      if tools.cases.lower(Suffix(archive)) != ".zip" || [Destination(archive)] in files {
        return Refused;
      }
      if [staging] in files { return IoError; }
      NothingUnder(files, staging);
      MakeStaging(files, staging);
      StagingIsAtomic(files[[staging] := Directory], before, archive, staging, tools);
      var made := RestoreStep(files[[staging] := Directory], archive, staging, before, from);
      if !made { return IoError; }
      outcome := Extract(archive, staging, before, from);
      ghost var extracted := files;
      var removed := RemoveStaging(archive, staging, before, from);
      if !removed { return IoError; }
      if outcome == Ok {
        UnpackedElsewhere(before, archive, staging, tools);
        StagingGone(extracted, before + Unpacked(before, archive, tools), staging);
      } else {
        StagingGone(extracted, before, staging);
      }
    }

    /**
     Packing with removal and restoring: unless the disk fails, everything pack accepts comes back, and the
     directory is as it was but for the archive.
     */
    method PackThenRestore(root: string, packId: string, restoreId: string) returns (ok: bool)
      requires Sound(tools) && IsFileSystem(files) && tools.cases.lower(".zip") == ".zip"
      requires RestoreStagingName(restoreId) !in {root, ArchiveName(root)}
      modifies this
      ensures ok ==> [ArchiveName(root)] in files
      ensures ok ==> files == old(files)[[ArchiveName(root)] := files[[ArchiveName(root)]]]
      ensures !ok ==>
                || !PackAllows(old(files), root, true, tools) || failures > old(failures)
                || [StagingName(packId)] in old(files) || [RestoreStagingName(restoreId)] in old(files)
    {
      hide Accepted, Extracted, CaseDistinct, InventoryAllows, Atomic, AtomicTrace, Safe, SafeTrace, Sound;
      hide IsFileSystem, Unpacked, Readable, Published, Subtree, Destination, PackAllows;
      ghost var before := files;
      var packed := Pack(root, packId, true, true);
      if packed != Ok { return false; }
      PackedCanBeRestored(files, before, root, tools);
      ghost var between := files;
      var restored := Restore(ArchiveName(root), restoreId);
      if restored != Ok { return false; }
      BackAgain(between, before, root, tools);
      return true;
    }
  }
}
