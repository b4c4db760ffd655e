/** Every accepted archive is a well-formed tree, and packing a tree and restoring it gives it back. */
module EvidenceTheorems {
  import opened Bytes
  import opened ArchiveNames
  import opened Strings
  import opened EvidenceArchive

  // ----- accepted archives -----

  /** A member of an accepted archive: its name is plain, and is the name of its path. */
  lemma MemberIsPlain(m: Member, root: string, tools: Tools)
    requires MemberPath(m.origName, root, IsDirectory(m), tools.cases).Some?
    ensures FileName(m) == m.origName
    ensures GoodPath(PathOf(m, root, tools), root, tools.cases)
    ensures EntryName(PathOf(m, root, tools), IsDirectory(m)) == FileName(m)
  {
    var name := if IsDirectory(m) then RemoveSlash(m.origName) else m.origName;
    PartsHaveNoNul(name, tools.cases);
    assert '\0' !in m.origName by {
      if name != m.origName {
        assert m.origName == name + [m.origName[|m.origName| - 1]];
      }
    }
    UntilNulWhole(m.origName);
    PathOfName(m.origName, root, tools.cases);
  }

  /** Member i of an accepted archive has its parent directory among the members. */
  lemma ParentIsMember(members: seq<Member>, root: string, tools: Tools, i: nat) returns (j: nat)
    requires Accepted(members, root, tools) && i < |members| && !IsManifest(members[i])
    requires |PathOf(members[i], root, tools)| > 1
    ensures j < |members| && !IsManifest(members[j]) && IsDirectory(members[j])
    ensures PathOf(members[j], root, tools) == Parent(PathOf(members[i], root, tools))
  {
    hide DistinctNames, DestinationsDistinct, ManifestOf, Folded;
    var p := PathOf(members[i], root, tools);
    MemberIsPlain(members[i], root, tools);
    var name := EntryName(Parent(p), true);
    NamesOf(members);
    j :| 0 <= j < |members| && FileName(members[j]) == name;
    assert GoodPath(Parent(p), root, tools.cases) by {
      assert forall part <- Parent(p) :: part in p;
    }
    NameOfPath(Parent(p), root, true, tools.cases);
    assert IsDirectory(members[j]);
    assert !IsManifest(members[j]) by { assert !IsDirectoryName(MANIFEST); }
    MemberIsPlain(members[j], root, tools);
    NameOfPath(PathOf(members[j], root, tools), root, true, tools.cases);
  }

  /** Different members have different paths. */
  lemma PathsDiffer(members: seq<Member>, root: string, tools: Tools, i: nat, j: nat)
    requires DestinationsDistinct(members, root, tools)
    requires i < j < |members| && !IsManifest(members[i]) && !IsManifest(members[j])
    ensures PathOf(members[i], root, tools) != PathOf(members[j], root, tools)
  {
    assert Folded(members[i], root, tools) != Folded(members[j], root, tools);
  }

  /** The extracted tree, node by node. */
  lemma {:induction false} ExtractedIs(members: seq<Member>, root: string, tools: Tools)
    requires DestinationsDistinct(members, root, tools)
    ensures forall p <- Extracted(members, root, tools) ::
              exists i :: 0 <= i < |members| && !IsManifest(members[i]) && PathOf(members[i], root, tools) == p
    ensures forall i :: 0 <= i < |members| && !IsManifest(members[i]) ==>
              && PathOf(members[i], root, tools) in Extracted(members, root, tools)
              && Extracted(members, root, tools)[PathOf(members[i], root, tools)] == NodeOf(members[i])
    decreases |members|
  {
    if members != [] {
      hide PathOf, NodeOf, Folded, IsManifest, DestinationsDistinct;
      var n := |members| - 1;
      var init := members[..n];
      assert forall k :: 0 <= k < n ==> init[k] == members[k];
      assert DestinationsDistinct(init, root, tools) by { DistinctInit(members, root, tools); }
      ExtractedIs(init, root, tools);
      forall p | p in Extracted(members, root, tools)
        ensures exists i :: 0 <= i < |members| && !IsManifest(members[i]) && PathOf(members[i], root, tools) == p
      {
        if p in Extracted(init, root, tools) {
          var i :| 0 <= i < n && !IsManifest(init[i]) && PathOf(init[i], root, tools) == p;
          assert members[i] == init[i];
        } else {
          assert !IsManifest(members[n]) && PathOf(members[n], root, tools) == p;
        }
      }
      forall i | 0 <= i < |members| && !IsManifest(members[i])
        ensures PathOf(members[i], root, tools) in Extracted(members, root, tools)
        ensures Extracted(members, root, tools)[PathOf(members[i], root, tools)] == NodeOf(members[i])
      {
        if i < n {
          assert members[i] == init[i];
          if !IsManifest(members[n]) { PathsDiffer(members, root, tools, i, n); }
        }
      }
    }
  }

  lemma DistinctInit(members: seq<Member>, root: string, tools: Tools)
    requires members != [] && DestinationsDistinct(members, root, tools)
    ensures DestinationsDistinct(members[..|members| - 1], root, tools)
  {
    hide Folded, IsManifest;
  }

  /** Following parents from any member leads to a root, which is a directory unless it is the member itself. */
  lemma {:induction false} ClimbToRoot(members: seq<Member>, root: string, tools: Tools, i: nat)
    requires Accepted(members, root, tools) && i < |members| && !IsManifest(members[i])
    ensures root + "/" in Names(members) || FileName(members[i]) == root
    decreases |PathOf(members[i], root, tools)|
  {
    hide Accepted, Folded, PathOf, IsManifest, MemberPath, ManifestOf;
    NodeFacts(members, root, tools, i);
    var path := PathOf(members[i], root, tools);
    if |path| > 1 {
      var j := ParentIsMember(members, root, tools, i);
      ClimbToRoot(members, root, tools, j);
      NodeFacts(members, root, tools, j);
      NamesOf(members);
      assert FileName(members[j]) == root ==> IsDirectoryName(root);
      RootIsPlain(path, root, tools.cases);
    } else {
      assert path == [root];
      NamesOf(members);
    }
  }

  lemma RootIsPlain(path: Path, root: string, cases: Cases)
    requires GoodPath(path, root, cases)
    ensures !IsDirectoryName(root)
  {
    assert root in path;
    assert '/' !in root;
  }

  /** No archive is accepted for an item named like the manifest. */
  lemma RootIsNotManifest(members: seq<Member>, root: string, tools: Tools)
    requires Accepted(members, root, tools)
    ensures root != MANIFEST
  {
    hide Folded, PathOf, MemberPath, ManifestOf, AllAccepted, DestinationsDistinct, DistinctNames;
    var name :| name in ManifestOf(members, tools).value;
    NamesOf(members);
    var i :| 0 <= i < |members| && FileName(members[i]) == name;
    ClimbToRoot(members, root, tools, i);
  }

  /** Some member stands for the root itself. */
  lemma RootIsMember(members: seq<Member>, root: string, tools: Tools) returns (i: nat)
    requires Accepted(members, root, tools)
    ensures i < |members| && !IsManifest(members[i]) && PathOf(members[i], root, tools) == [root]
  {
    RootIsNotManifest(members, root, tools);
    hide DistinctNames, DestinationsDistinct, ManifestOf, Folded;
    NamesOf(members);
    if root in Names(members) {
      i :| 0 <= i < |members| && FileName(members[i]) == root;
    } else {
      i :| 0 <= i < |members| && FileName(members[i]) == root + "/";
      assert IsDirectory(members[i]) && !IsDirectoryName(MANIFEST);
    }
    MemberIsPlain(members[i], root, tools);
    var path := PathOf(members[i], root, tools);
    assert root in path;
    RootPath(path, root, FileName(members[i]), IsDirectory(members[i]), tools.cases);
  }

  lemma RootPath(path: Path, root: string, name: string, directory: bool, cases: Cases)
    requires GoodPath(path, root, cases) && EntryName(path, directory) == name
    requires name == root || name == root + "/"
    requires directory <==> IsDirectoryName(name)
    ensures path == [root]
  {
    assert root in path;
    assert GoodPath([root], root, cases);
    JoinEnd([root]);
    NamesAreDistinct(path, directory, [root], name == root + "/", root, cases);
  }

  /** Every accepted archive has one root and is closed under parent directories. */
  lemma AcceptedIsTree(members: seq<Member>, root: string, tools: Tools)
    requires Accepted(members, root, tools)
    ensures IsTree(Extracted(members, root, tools), root)
    ensures forall p <- Extracted(members, root, tools) ::
              GoodPath(p, root, tools.cases) && !Extracted(members, root, tools)[p].Special?
  {
    hide Accepted, PathOf, NodeOf, GoodPath, IsManifest, DestinationsDistinct;
    var tree := Extracted(members, root, tools);
    Distinct(members, root, tools);
    ExtractedIs(members, root, tools);
    var r := RootIsMember(members, root, tools);
    forall p | p in tree
      ensures GoodPath(p, root, tools.cases) && !tree[p].Special? && p != [] && p[0] == root
      ensures |p| > 1 ==> Parent(p) in tree && tree[Parent(p)] == Directory
    {
      var i :| 0 <= i < |members| && !IsManifest(members[i]) && PathOf(members[i], root, tools) == p;
      NodeFacts(members, root, tools, i);
      if |p| > 1 {
        var j := ParentIsMember(members, root, tools, i);
        NodeFacts(members, root, tools, j);
      }
    }
  }

  lemma Distinct(members: seq<Member>, root: string, tools: Tools)
    requires Accepted(members, root, tools)
    ensures DestinationsDistinct(members, root, tools)
  {}

  /** No two paths of the tree. */
  ghost predicate CaseDistinct(tree: Tree, cases: Cases) {
    forall p, q :: p in tree && q in tree && p != q ==> cases.casefold(Join(p)) != cases.casefold(Join(q))
  }

  /** Every accepted archive unpacks to case-distinct destinations. */
  lemma AcceptedIsCaseDistinct(members: seq<Member>, root: string, tools: Tools)
    requires Accepted(members, root, tools)
    ensures CaseDistinct(Extracted(members, root, tools), tools.cases)
  {
    hide Accepted, PathOf, NodeOf, IsManifest, DestinationsDistinct, Folded;
    var tree := Extracted(members, root, tools);
    Distinct(members, root, tools);
    ExtractedIs(members, root, tools);
    forall p, q | p in tree && q in tree && p != q
      ensures tools.cases.casefold(Join(p)) != tools.cases.casefold(Join(q))
    {
      var i :| 0 <= i < |members| && !IsManifest(members[i]) && PathOf(members[i], root, tools) == p;
      var j :| 0 <= j < |members| && !IsManifest(members[j]) && PathOf(members[j], root, tools) == q;
      FoldedDiffers(members, root, tools, i, j);
    }
  }

  /** The member name of a node. */
  function NameIn(tree: Tree, p: Path): string
    requires p in tree
  {
    EntryName(p, tree[p] == Directory)
  }

  /** The manifest that describes a tree: no digest for a directory, the hash of a file's bytes. */
  ghost predicate Describes(manifest: Manifest, tree: Tree, tools: Tools) {
    && manifest.Keys == (set p <- tree :: EntryName(p, tree[p] == Directory))
    && forall p <- tree ::
         EntryName(p, tree[p] == Directory) in manifest
         && manifest[EntryName(p, tree[p] == Directory)]
            == if tree[p].Regular? then Sha(tools.sha256(tree[p].content)) else NoDigest
  }

  /** Every accepted archive matches its manifest exactly. */
  lemma AcceptedMatchesManifest(members: seq<Member>, root: string, tools: Tools)
    requires Accepted(members, root, tools)
    ensures Describes(ManifestOf(members, tools).value, Extracted(members, root, tools), tools)
  {
    hide PathOf, NodeOf, IsManifest, DestinationsDistinct, Folded, DistinctNames, AllAccepted, ManifestOf;
    var tree := Extracted(members, root, tools);
    ExtractedIs(members, root, tools);
    forall p | p in tree
      ensures var name := EntryName(p, tree[p] == Directory);
              name in ManifestOf(members, tools).value
              && ManifestOf(members, tools).value[name]
                 == if tree[p].Regular? then Sha(tools.sha256(tree[p].content)) else NoDigest
    {
      var i :| 0 <= i < |members| && !IsManifest(members[i]) && PathOf(members[i], root, tools) == p;
      NodeFacts(members, root, tools, i);
    }
    KeysAreNames(members, root, tools);
  }

  lemma FoldedDiffers(members: seq<Member>, root: string, tools: Tools, i: nat, j: nat)
    requires DestinationsDistinct(members, root, tools) && i < |members| && j < |members|
    requires !IsManifest(members[i]) && !IsManifest(members[j])
    requires PathOf(members[i], root, tools) != PathOf(members[j], root, tools)
    ensures tools.cases.casefold(Join(PathOf(members[i], root, tools)))
            != tools.cases.casefold(Join(PathOf(members[j], root, tools)))
  {
    assert Folded(members[i], root, tools) != Folded(members[j], root, tools);
  }

  lemma NodeFacts(members: seq<Member>, root: string, tools: Tools, i: nat)
    requires Accepted(members, root, tools) && i < |members| && !IsManifest(members[i])
    ensures var m := members[i];
            var p := PathOf(m, root, tools);
            && GoodPath(p, root, tools.cases) && p != [] && p[0] == root
            && !NodeOf(m).Special? && (NodeOf(m) == Directory <==> IsDirectory(m))
            && EntryName(p, NodeOf(m) == Directory) == FileName(m)
            && FileName(m) in ManifestOf(members, tools).value
            && ManifestOf(members, tools).value[FileName(m)]
               == if NodeOf(m).Regular? then Sha(tools.sha256(NodeOf(m).content)) else NoDigest
  {
    hide DistinctNames, DestinationsDistinct, ManifestOf;
    MemberIsPlain(members[i], root, tools);
  }

  lemma KeysAreNames(members: seq<Member>, root: string, tools: Tools)
    requires Accepted(members, root, tools)
    ensures var tree := Extracted(members, root, tools);
            ManifestOf(members, tools).value.Keys == set p <- tree :: EntryName(p, tree[p] == Directory)
  {
    hide DistinctNames, ManifestOf, Folded, PathOf, NodeOf, MemberPath, GoodPath, MemberAccepted;
    var tree, keys := Extracted(members, root, tools), ManifestOf(members, tools).value.Keys;
    ExtractedIs(members, root, tools);
    NamesOf(members);
    forall name ensures name in keys <==> exists p <- tree :: EntryName(p, tree[p] == Directory) == name {
      if name in keys {
        var i :| 0 <= i < |members| && FileName(members[i]) == name;
        NodeFacts(members, root, tools, i);
        assert PathOf(members[i], root, tools) in tree;
      }
      if p :| p in tree && EntryName(p, tree[p] == Directory) == name {
        var i :| 0 <= i < |members| && !IsManifest(members[i]) && PathOf(members[i], root, tools) == p;
        NodeFacts(members, root, tools, i);
      }
    }
  }

  // ----- packing -----

  /** What inventory lets through, but for protected names: a tree of good paths and plain nodes. */
  ghost predicate Packable(tree: Tree, root: string, tools: Tools) {
    && IsTree(tree, root) && root != MANIFEST
    && forall p <- tree :: GoodPath(p, root, tools.cases) && !tree[p].Special?
  }

  /** The order lists every node once. */
  ghost predicate Enumerates(order: seq<Path>, tree: Tree) {
    && (forall p :: p in order <==> p in tree)
    && (forall i, j :: 0 <= i < j < |order| ==> order[i] != order[j])
  }

  function EntryOf(p: Path, node: Node): Member {
    Member(EntryName(p, node == Directory), if node.Regular? then node.content else [])
  }

  function DigestOf(node: Node, tools: Tools): Digest {
    if node.Regular? then Sha(tools.sha256(node.content)) else NoDigest
  }

  function Entries(order: seq<Path>, tree: Tree): seq<Member>
    requires forall p <- order :: p in tree
  {
    seq(|order|, i requires 0 <= i < |order| => EntryOf(order[i], tree[order[i]]))
  }

  /** The manifest pack builds up, entry by entry. */
  function ManifestFor(order: seq<Path>, tree: Tree, tools: Tools): Manifest
    requires forall p <- order :: p in tree
    decreases |order|
  {
    if order == [] then map[]
    else
      var p := order[|order| - 1];
      assert forall q <- order[..|order| - 1] :: q in order;
      ManifestFor(order[..|order| - 1], tree, tools)[NameIn(tree, p) := DigestOf(tree[p], tools)]
  }

  /** The archive pack writes. */
  function Packed(order: seq<Path>, tree: Tree, tools: Tools): seq<Member>
    requires forall p <- order :: p in tree
  {
    Entries(order, tree) + [Member(MANIFEST, tools.dumps(ManifestFor(order, tree, tools)))]
  }

  lemma ManifestIsPlain()
    ensures !IsDirectoryName(MANIFEST) && UntilNul(MANIFEST) == MANIFEST && Split(MANIFEST) == [MANIFEST]
  {
    assert '/' !in MANIFEST && '\0' !in MANIFEST;
    SplitOne(MANIFEST);
    UntilNulWhole(MANIFEST);
  }

  lemma {:induction false} GoodNameHasNoNul(p: Path, cases: Cases)
    requires p != [] && forall part <- p :: GoodPart(part, cases)
    ensures '\0' !in Join(p)
    decreases |p|
  {
    assert p[0] in p;
    if |p| > 1 {
      assert forall part <- p[1..] :: part in p;
      GoodNameHasNoNul(p[1..], cases);
    }
  }

  /** An entry is read back as the node it was written for. */
  lemma EntryReadsBack(p: Path, node: Node, root: string, tools: Tools)
    requires GoodPath(p, root, tools.cases) && root != MANIFEST && !node.Special?
    ensures var m := EntryOf(p, node);
            && FileName(m) == m.origName == EntryName(p, node == Directory)
            && !IsManifest(m) && (IsDirectory(m) <==> node == Directory)
            && MemberPath(m.origName, root, IsDirectory(m), tools.cases) == Some(p)
            && PathOf(m, root, tools) == p && NodeOf(m) == node
  {
    var m := EntryOf(p, node);
    GoodNameHasNoNul(p, tools.cases);
    UntilNulWhole(m.origName);
    NameOfPath(p, root, node == Directory, tools.cases);
    ManifestIsPlain();
    SplitJoin(p);
  }

  /** Different nodes of a tree have different names. */
  ghost predicate NamesDiffer(tree: Tree) {
    forall p, q {:trigger NameIn(tree, p), NameIn(tree, q)} ::
      p in tree && q in tree && NameIn(tree, p) == NameIn(tree, q) ==> p == q
  }

  lemma GoodNamesDiffer(tree: Tree, root: string, tools: Tools)
    requires forall p <- tree :: GoodPath(p, root, tools.cases)
    ensures NamesDiffer(tree)
  {
    forall p, q | p in tree && q in tree && NameIn(tree, p) == NameIn(tree, q) ensures p == q {
      NamesAreDistinct(p, tree[p] == Directory, q, tree[q] == Directory, root, tools.cases);
    }
  }

  lemma {:induction false} ManifestForIs(order: seq<Path>, tree: Tree, tools: Tools)
    requires (forall p <- order :: p in tree) && NamesDiffer(tree)
    ensures forall p <- order :: NameIn(tree, p) in ManifestFor(order, tree, tools)
                                 && ManifestFor(order, tree, tools)[NameIn(tree, p)] == DigestOf(tree[p], tools)
    ensures forall name <- ManifestFor(order, tree, tools) :: exists p :: p in order && NameIn(tree, p) == name
    decreases |order|
  {
    if order != [] {
      hide NameIn, DigestOf;
      var n := |order| - 1;
      var init, last := order[..n], order[n];
      assert forall q <- init :: q in order;
      assert last in order && order == init + [last];
      ManifestForIs(init, tree, tools);
      forall p | p in order
        ensures NameIn(tree, p) in ManifestFor(order, tree, tools)
                && ManifestFor(order, tree, tools)[NameIn(tree, p)] == DigestOf(tree[p], tools)
      {
        if NameIn(tree, p) != NameIn(tree, last) { assert p in init; }
      }
      forall name | name in ManifestFor(order, tree, tools) ensures exists p :: p in order && NameIn(tree, p) == name {
        if name in ManifestFor(init, tree, tools) {
          var p :| p in init && NameIn(tree, p) == name;
        }
      }
    }
  }

  /** The manifest is found as the last member. */
  lemma {:induction false} ManifestIsLast(entries: seq<Member>, last: Member, tools: Tools)
    requires (forall m <- entries :: !IsManifest(m)) && IsManifest(last)
    ensures ManifestOf(entries + [last], tools) == tools.loads(last.content)
    decreases |entries|
  {
    var all := entries + [last];
    if entries != [] {
      assert all[0] == entries[0] && entries[0] in entries && all[1..] == entries[1..] + [last];
      ManifestIsLast(entries[1..], last, tools);
    } else {
      assert all[0] == last;
    }
  }

  /** The members of a packed tree: entry i is read as node i of the order, and the manifest comes last. */
  lemma PackedEntry(order: seq<Path>, tree: Tree, root: string, tools: Tools, i: nat)
    requires Packable(tree, root, tools) && Enumerates(order, tree) && i < |order|
    ensures var m := Packed(order, tree, tools)[i];
            && order[i] in tree && m == EntryOf(order[i], tree[order[i]])
            && FileName(m) == m.origName == NameIn(tree, order[i]) && !IsManifest(m)
            && PathOf(m, root, tools) == order[i] && NodeOf(m) == tree[order[i]]
  {
    assert order[i] in order && Packed(order, tree, tools)[i] == Entries(order, tree)[i];
    EntryReadsBack(order[i], tree[order[i]], root, tools);
  }

  lemma PackedNames(order: seq<Path>, tree: Tree, root: string, tools: Tools)
    requires Packable(tree, root, tools) && Enumerates(order, tree)
    ensures forall name :: name in Names(Packed(order, tree, tools)) <==>
              name == MANIFEST || exists p :: p in tree && NameIn(tree, p) == name
    ensures forall p <- tree :: NameIn(tree, p) != MANIFEST
    ensures DistinctNames(Packed(order, tree, tools))
  {
    hide Packed, Packable, NameIn, PathOf, NodeOf, EntryOf, FileName, Names;
    var members, n := Packed(order, tree, tools), |order|;
    PackedLast(order, tree, tools);
    GoodTree(tree, root, tools);
    NamesOf(members);
    forall i | 0 <= i < n ensures FileName(members[i]) == NameIn(tree, order[i]) != MANIFEST {
      PackedEntry(order, tree, root, tools, i);
    }
    forall p | p in tree ensures NameIn(tree, p) != MANIFEST && exists i :: 0 <= i < n && order[i] == p {
      assert p in order;
    }
    forall name ensures name in Names(members) <==> name == MANIFEST || exists p :: p in tree && NameIn(tree, p) == name {
      if name in Names(members) && name != MANIFEST {
        var i :| 0 <= i < |members| && FileName(members[i]) == name;
        assert i < n && order[i] in order;
      }
      if p :| p in tree && NameIn(tree, p) == name {
        var i :| 0 <= i < n && order[i] == p;
        assert FileName(members[i]) == name;
      }
      assert name == MANIFEST ==> FileName(members[n]) == name;
    }
    forall i, j | 0 <= i < j < |members| ensures FileName(members[i]) != FileName(members[j]) {
      assert order[i] in order;
      if j < n { assert order[j] in order; }
    }
  }

  lemma GoodTree(tree: Tree, root: string, tools: Tools)
    requires Packable(tree, root, tools)
    ensures NamesDiffer(tree)
  {
    GoodNamesDiffer(tree, root, tools);
  }

  lemma PackedLast(order: seq<Path>, tree: Tree, tools: Tools)
    requires forall p <- order :: p in tree
    ensures var members := Packed(order, tree, tools);
            && |members| == |order| + 1 && FileName(members[|order|]) == MANIFEST
            && members[|order|].content == tools.dumps(ManifestFor(order, tree, tools))
  {
    LastIsManifest(tools.dumps(ManifestFor(order, tree, tools)));
  }

  lemma PackedManifest(order: seq<Path>, tree: Tree, root: string, tools: Tools)
    requires Packable(tree, root, tools) && Enumerates(order, tree) && Sound(tools)
    ensures ManifestOf(Packed(order, tree, tools), tools) == Some(ManifestFor(order, tree, tools))
    ensures ManifestFor(order, tree, tools).Keys == Names(Packed(order, tree, tools)) - {MANIFEST}
  {
    hide Packable, NameIn, PathOf, NodeOf, EntryOf, FileName, Names, ManifestFor, ManifestOf, DigestOf;
    var members, entries := Packed(order, tree, tools), Entries(order, tree);
    var manifest := ManifestFor(order, tree, tools);
    PackedLast(order, tree, tools);
    forall m | m in entries ensures !IsManifest(m) {
      var i :| 0 <= i < |entries| && entries[i] == m;
      PackedEntry(order, tree, root, tools, i);
    }
    ManifestIsLast(entries, members[|order|], tools);
    GoodTree(tree, root, tools);
    ManifestForIs(order, tree, tools);
    PackedNames(order, tree, root, tools);
    forall name ensures name in manifest <==> name in Names(members) - {MANIFEST} {
      if name in manifest { var p :| p in order && NameIn(tree, p) == name; }
      if p :| p in tree && NameIn(tree, p) == name { assert p in order; }
    }
  }

  lemma PackedHeader(order: seq<Path>, tree: Tree, root: string, tools: Tools)
    requires Packable(tree, root, tools) && Enumerates(order, tree) && Sound(tools)
    ensures HeaderAccepted(Packed(order, tree, tools), root, tools)
  {
    hide NameIn, FileName, Names, ManifestFor, ManifestOf, Packed, GoodPath, DistinctNames;
    PackedManifest(order, tree, root, tools);
    PackedNames(order, tree, root, tools);
    OneRoot(tree, root, tools);
    assert NameIn(tree, [root]) in ManifestFor(order, tree, tools);
  }

  lemma LastIsManifest(content: bytes)
    ensures FileName(Member(MANIFEST, content)) == MANIFEST
  {
    ManifestIsPlain();
  }

  /** A tree's root has one name: with a slash if it is a directory, without if it is a file. */
  lemma OneRoot(tree: Tree, root: string, tools: Tools)
    requires Packable(tree, root, tools)
    ensures [root] in tree && root != MANIFEST && root + "/" != MANIFEST
    ensures NameIn(tree, [root]) == if tree[[root]] == Directory then root + "/" else root
    ensures forall p <- tree :: NameIn(tree, p) == root || NameIn(tree, p) == root + "/" ==> p == [root]
    ensures root != root + "/"
  {
    RootNames(root, tools.cases);
    forall p | p in tree && (NameIn(tree, p) == root || NameIn(tree, p) == root + "/") ensures p == [root] {
      NameOfPath(p, root, tree[p] == Directory, tools.cases);
      RootPath(p, root, NameIn(tree, p), tree[p] == Directory, tools.cases);
    }
  }

  lemma RootNames(root: string, cases: Cases)
    requires GoodPath([root], root, cases)
    ensures !IsDirectoryName(root) && IsDirectoryName(root + "/") && root + "/" != MANIFEST && root != root + "/"
    ensures EntryName([root], false) == root && EntryName([root], true) == root + "/"
  {
    assert root in [root];
    JoinEnd([root]);
    ManifestIsPlain();
  }

  lemma PackedMembers(order: seq<Path>, tree: Tree, root: string, tools: Tools)
    requires Packable(tree, root, tools) && Enumerates(order, tree)
    ensures var members := Packed(order, tree, tools);
            AllAccepted(members, Names(members), ManifestFor(order, tree, tools), root, tools)
  {
    hide MemberAccepted, ManifestFor, Packed, Names, Packable, FileName;
    var members := Packed(order, tree, tools);
    PackedLast(order, tree, tools);
    forall i | 0 <= i < |members| && !IsManifest(members[i])
      ensures MemberAccepted(members[i], Names(members), ManifestFor(order, tree, tools), root, tools)
    {
      PackedMember(order, tree, root, tools, i);
    }
  }

  lemma PackedMember(order: seq<Path>, tree: Tree, root: string, tools: Tools, i: nat)
    requires Packable(tree, root, tools) && Enumerates(order, tree) && i < |order|
    ensures MemberAccepted(Packed(order, tree, tools)[i], Names(Packed(order, tree, tools)),
                           ManifestFor(order, tree, tools), root, tools)
  {
    hide ManifestFor, Packed, Names, MemberPath, EntryName, GoodPath, FileName, IsDirectoryName;
    var p := order[i];
    PackedEntry(order, tree, root, tools, i);
    EntryReadsBack(p, tree[p], root, tools);
    GoodTree(tree, root, tools);
    ManifestForIs(order, tree, tools);
    assert p in order;
    PackedNames(order, tree, root, tools);
    if |p| > 1 { assert NameIn(tree, Parent(p)) == EntryName(Parent(p), true); }
  }

  /** The members of a packed tree stand for its nodes, in order, and the manifest for none. */
  lemma PackedNodes(order: seq<Path>, tree: Tree, root: string, tools: Tools)
    requires Packable(tree, root, tools) && Enumerates(order, tree)
    ensures var members := Packed(order, tree, tools);
            && |members| == |order| + 1 && IsManifest(members[|order|])
            && forall i :: 0 <= i < |order| ==>
                 order[i] in tree && !IsManifest(members[i])
                 && PathOf(members[i], root, tools) == order[i] && NodeOf(members[i]) == tree[order[i]]
  {
    hide Packable, Packed, Enumerates, PathOf, NodeOf, FileName;
    EnumeratedAreNodes(order, tree);
    PackedLast(order, tree, tools);
    forall i | 0 <= i < |order|
      ensures var m := Packed(order, tree, tools)[i];
              !IsManifest(m) && PathOf(m, root, tools) == order[i] && NodeOf(m) == tree[order[i]]
    {
      PackedEntry(order, tree, root, tools, i);
    }
  }

  lemma EnumeratedAreNodes(order: seq<Path>, tree: Tree)
    requires Enumerates(order, tree)
    ensures (forall p <- order :: p in tree) && forall i :: 0 <= i < |order| ==> order[i] in tree
    ensures forall p <- tree :: exists i :: 0 <= i < |order| && order[i] == p
    ensures forall i, j :: 0 <= i < j < |order| ==> order[i] != order[j]
  {
    forall p | p in tree ensures exists i :: 0 <= i < |order| && order[i] == p {
      assert p in order;
    }
    forall i | 0 <= i < |order| ensures order[i] in tree {
      assert order[i] in order;
    }
  }

  lemma PackedFolds(order: seq<Path>, tree: Tree, root: string, tools: Tools)
    requires Packable(tree, root, tools) && Enumerates(order, tree)
    ensures DestinationsDistinct(Packed(order, tree, tools), root, tools) <==> CaseDistinct(tree, tools.cases)
  {
    hide Packable, Enumerates, Packed, PathOf, NodeOf, IsManifest, Join;
    EnumeratedAreNodes(order, tree);
    var members := Packed(order, tree, tools);
    PackedNodes(order, tree, root, tools);
    if DestinationsDistinct(members, root, tools) {
      forall p, q | p in tree && q in tree && p != q
        ensures tools.cases.casefold(Join(p)) != tools.cases.casefold(Join(q))
      {
        var i :| 0 <= i < |order| && order[i] == p;
        var j :| 0 <= j < |order| && order[j] == q;
        FoldedDiffers(members, root, tools, i, j);
      }
    }
    if CaseDistinct(tree, tools.cases) {
      forall i, j | 0 <= i < j < |members| && !IsManifest(members[i]) && !IsManifest(members[j])
        ensures Folded(members[i], root, tools) != Folded(members[j], root, tools)
      {
        assert order[i] != order[j];
      }
    }
  }

  /** What pack writes is accepted if and only if no two of its paths are equal after case folding. */
  lemma PackedIsAccepted(order: seq<Path>, tree: Tree, root: string, tools: Tools)
    requires Packable(tree, root, tools) && Enumerates(order, tree) && Sound(tools)
    ensures Accepted(Packed(order, tree, tools), root, tools) <==> CaseDistinct(tree, tools.cases)
  {
    hide Packable, HeaderAccepted, AllAccepted, DestinationsDistinct, Packed, ManifestFor, CaseDistinct;
    PackedHeader(order, tree, root, tools);
    PackedManifest(order, tree, root, tools);
    PackedMembers(order, tree, root, tools);
    PackedFolds(order, tree, root, tools);
  }

  /** Then restoring gives the packed tree back: same paths, same empty directories, same bytes. */
  lemma RestoreUndoesPack(order: seq<Path>, tree: Tree, root: string, tools: Tools)
    requires Packable(tree, root, tools) && Enumerates(order, tree) && Sound(tools) && CaseDistinct(tree, tools.cases)
    ensures Extracted(Packed(order, tree, tools), root, tools) == tree
  {
    hide Packable, Enumerates, Packed, NodeOf, PathOf, IsManifest, DestinationsDistinct, Extracted, CaseDistinct, Sound;
    EnumeratedAreNodes(order, tree);
    var members := Packed(order, tree, tools);
    PackedFolds(order, tree, root, tools);
    ExtractedIs(members, root, tools);
    PackedNodes(order, tree, root, tools);
    var back := Extracted(members, root, tools);
    forall p | p in tree ensures p in back && back[p] == tree[p] {
      var i :| 0 <= i < |order| && order[i] == p;
      assert PathOf(members[i], root, tools) in back;
    }
    forall p | p in back ensures p in tree {
      var i :| 0 <= i < |members| && !IsManifest(members[i]) && PathOf(members[i], root, tools) == p;
      assert i < |order|;
    }
  }
}
