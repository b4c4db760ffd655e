/**
 Evidence archives: which ones read_archive of scripts/archive-evidence.py accepts, what it extracts from
 them, and what pack puts into them.
 */
module EvidenceArchive {
  import opened Bytes
  import opened ArchiveNames
  import opened Strings

  /** A node of the file tree; Special stands for everything evidence_stat and the mount check refuse. */
  datatype Node = Directory | Regular(content: bytes) | Special

  type Tree = map<Path, Node>

  datatype Digest = NoDigest | Sha(hex: string) | OtherValue

  type Manifest = map<string, Digest>

  /** A member as stored: zipfile shows the name up to its first NUL as the file name. */
  datatype Member = Member(origName: string, content: bytes)

  /** The libraries: str methods, SHA-256, JSON and ZIP. */
  datatype Tools = Tools(
    cases: Cases, sha256: bytes -> string, dumps: Manifest -> bytes, loads: bytes -> Option<Manifest>,
    zip: seq<Member> -> bytes, unzip: bytes -> Option<seq<Member>>)

  const MANIFEST := ".cockatrice-evidence-manifest.json"

  function FileName(m: Member): string { UntilNul(m.origName) }

  function UntilNul(s: string): string {
    if s == "" || s[0] == '\0' then "" else [s[0]] + UntilNul(s[1..])
  }

  /** What is assumed of the libraries: they read back what they have written. */
  ghost predicate Sound(tools: Tools) {
    && (forall m: Manifest :: tools.loads(tools.dumps(m)) == Some(m))
    && (forall ms: seq<Member> :: (forall m <- ms :: FileName(m) == m.origName) ==> tools.unzip(tools.zip(ms)) == Some(ms))
  }

  // ----- acceptance -----

  function Names(members: seq<Member>): set<string> {
    if members == [] then {} else Names(members[..|members| - 1]) + {FileName(members[|members| - 1])}
  }

  predicate DistinctNames(members: seq<Member>) {
    forall i, j :: 0 <= i < j < |members| ==> FileName(members[i]) != FileName(members[j])
  }

  function IsDirectory(m: Member): bool { IsDirectoryName(FileName(m)) }

  /** The manifest of an archive, if it has one that reads as a dictionary. */
  function ManifestOf(members: seq<Member>, tools: Tools): Option<Manifest> {
    if members == [] then None
    else if FileName(members[0]) == MANIFEST then tools.loads(members[0].content)
    else ManifestOf(members[1..], tools)
  }

  function PathOf(m: Member, root: string, tools: Tools): Path {
    var p := MemberPath(m.origName, root, IsDirectory(m), tools.cases);
    if p.Some? then p.value else []
  }

  function NodeOf(m: Member): Node {
    if IsDirectory(m) then Directory else Regular(m.content)
  }

  function Folded(m: Member, root: string, tools: Tools): string {
    tools.cases.casefold(Join(PathOf(m, root, tools)))
  }

  /** What read_archive demands of a single member other than the manifest. */
  predicate MemberAccepted(m: Member, names: set<string>, manifest: Manifest, root: string, tools: Tools) {
    && MemberPath(m.origName, root, IsDirectory(m), tools.cases).Some?
    && (|PathOf(m, root, tools)| > 1 ==> EntryName(Parent(PathOf(m, root, tools)), true) in names)
    && FileName(m) in manifest
    && (if IsDirectory(m) then manifest[FileName(m)] == NoDigest && m.content == []
        else manifest[FileName(m)] == Sha(tools.sha256(m.content)))
  }

  function Parent(p: Path): Path
    requires p != []
  {
    p[..|p| - 1]
  }

  /** The checks before the loop over the members. */
  predicate HeaderAccepted(members: seq<Member>, root: string, tools: Tools) {
    && DistinctNames(members) && MANIFEST in Names(members)
    && ManifestOf(members, tools).Some?
    && ManifestOf(members, tools).value != map[]
    && ManifestOf(members, tools).value.Keys == Names(members) - {MANIFEST}
    && (root in Names(members) <==> root + "/" !in Names(members))
  }

  predicate IsManifest(m: Member) { FileName(m) == MANIFEST }

  predicate AllAccepted(members: seq<Member>, names: set<string>, manifest: Manifest, root: string, tools: Tools) {
    forall i :: 0 <= i < |members| && !IsManifest(members[i]) ==> MemberAccepted(members[i], names, manifest, root, tools)
  }

  /** No two members whose destinations are equal after case folding. */
  predicate DestinationsDistinct(members: seq<Member>, root: string, tools: Tools) {
    forall i, j :: 0 <= i < j < |members| && !IsManifest(members[i]) && !IsManifest(members[j]) ==>
      Folded(members[i], root, tools) != Folded(members[j], root, tools)
  }

  predicate Accepted(members: seq<Member>, root: string, tools: Tools) {
    && HeaderAccepted(members, root, tools)
    && AllAccepted(members, Names(members), ManifestOf(members, tools).value, root, tools)
    && DestinationsDistinct(members, root, tools)
  }

  /** The tree the members are written out to. */
  function Extracted(members: seq<Member>, root: string, tools: Tools): Tree
    decreases |members|
  {
    if members == [] then map[]
    else
      var n := |members| - 1;
      var tree := Extracted(members[..n], root, tools);
      if IsManifest(members[n]) then tree else tree[PathOf(members[n], root, tools) := NodeOf(members[n])]
  }

  lemma {:induction false} NamesOf(members: seq<Member>)
    ensures forall name :: name in Names(members) <==> exists i :: 0 <= i < |members| && FileName(members[i]) == name
    decreases |members|
  {
    if members != [] {
      var n := |members| - 1;
      NamesOf(members[..n]);
      forall name ensures name in Names(members) <==> exists i :: 0 <= i < |members| && FileName(members[i]) == name {
        if name in Names(members[..n]) {
          var i :| 0 <= i < n && FileName(members[..n][i]) == name;
          assert FileName(members[i]) == name;
        }
        if i :| 0 <= i < |members| && FileName(members[i]) == name {
          if i < n { assert FileName(members[..n][i]) == name; }
        }
      }
    }
  }

  /** The folded destinations of the members so far. */
  function Destinations(members: seq<Member>, root: string, tools: Tools): set<string>
    decreases |members|
  {
    if members == [] then {}
    else
      var n := |members| - 1;
      var before := Destinations(members[..n], root, tools);
      if IsManifest(members[n]) then before else before + {Folded(members[n], root, tools)}
  }

  ghost predicate GoesTo(members: seq<Member>, i: nat, root: string, tools: Tools, destination: string)
    requires i < |members|
  {
    !IsManifest(members[i]) && Folded(members[i], root, tools) == destination
  }

  lemma {:induction false} DestinationsAre(members: seq<Member>, root: string, tools: Tools)
    ensures forall d :: d in Destinations(members, root, tools) <==>
              exists i :: 0 <= i < |members| && GoesTo(members, i, root, tools, d)
    decreases |members|
  {
    hide Folded, IsManifest;
    if members != [] {
      var n := |members| - 1;
      var init := members[..n];
      DestinationsAre(init, root, tools);
      forall d ensures d in Destinations(members, root, tools) <==>
                         exists i :: 0 <= i < |members| && GoesTo(members, i, root, tools, d) {
        if i :| 0 <= i < n && GoesTo(init, i, root, tools, d) {
          assert GoesTo(members, i, root, tools, d);
        }
        if i :| 0 <= i < |members| && GoesTo(members, i, root, tools, d) {
          assert i < n ==> GoesTo(init, i, root, tools, d);
        }
        assert GoesTo(members, n, root, tools, d) <==> !IsManifest(members[n]) && Folded(members[n], root, tools) == d;
      }
    }
  }

  lemma NoneYet(members: seq<Member>, names: set<string>, manifest: Manifest, root: string, tools: Tools)
    ensures AllAccepted(members[..0], names, manifest, root, tools) && DestinationsDistinct(members[..0], root, tools)
  {}

  lemma AcceptedPrefix(members: seq<Member>, i: nat, names: set<string>, manifest: Manifest, root: string, tools: Tools)
    requires i <= |members|
    ensures AllAccepted(members, names, manifest, root, tools) ==> AllAccepted(members[..i], names, manifest, root, tools)
    ensures DestinationsDistinct(members, root, tools) ==> DestinationsDistinct(members[..i], root, tools)
  {
    hide MemberAccepted, Folded, IsManifest;
  }

  /** One turn of the loop over the members. */
  lemma OneMoreMember(members: seq<Member>, i: nat, names: set<string>, manifest: Manifest, root: string, tools: Tools)
    requires i < |members|
    ensures members[..i + 1][..i] == members[..i]
    ensures AllAccepted(members[..i + 1], names, manifest, root, tools) <==>
              && AllAccepted(members[..i], names, manifest, root, tools)
              && (IsManifest(members[i]) || MemberAccepted(members[i], names, manifest, root, tools))
    ensures DestinationsDistinct(members[..i + 1], root, tools) <==>
              && DestinationsDistinct(members[..i], root, tools)
              && (IsManifest(members[i]) || Folded(members[i], root, tools) !in Destinations(members[..i], root, tools))
  {
    hide MemberAccepted, Folded, IsManifest;
    var a, b := members[..i], members[..i + 1];
    assert b[..i] == a && b[i] == members[i] && forall k :: 0 <= k < i ==> a[k] == b[k];
    DestinationsAre(a, root, tools);
    assert forall k :: 0 <= k < i && !IsManifest(a[k]) ==> GoesTo(a, k, root, tools, Folded(a[k], root, tools));
    if !IsManifest(members[i]) {
      if Folded(members[i], root, tools) in Destinations(a, root, tools) {
        var k :| 0 <= k < i && GoesTo(a, k, root, tools, Folded(members[i], root, tools));
        assert Folded(b[k], root, tools) == Folded(b[i], root, tools);
      }
    }
  }

  /** read_archive: the header, then every member, with its destination folded and its hash compared. */
  method ReadArchive(members: seq<Member>, root: string, tools: Tools) returns (ok: bool, tree: Tree)
    ensures ok == Accepted(members, root, tools)
    ensures ok ==> tree == Extracted(members, root, tools)
  {
    hide MemberAccepted, Folded, PathOf, NodeOf, IsManifest, AllAccepted, DestinationsDistinct;
    tree := map[];
    if !HeaderAccepted(members, root, tools) {
      return false, tree;
    }
    var names, manifest := Names(members), ManifestOf(members, tools).value;
    var destinations: set<string> := {};
    NoneYet(members, names, manifest, root, tools);
    for i := 0 to |members|
      invariant AllAccepted(members[..i], names, manifest, root, tools)
      invariant DestinationsDistinct(members[..i], root, tools)
      invariant destinations == Destinations(members[..i], root, tools)
      invariant tree == Extracted(members[..i], root, tools)
    {
      var m := members[i];
      OneMoreMember(members, i, names, manifest, root, tools);
      if !IsManifest(m) {
        if !MemberAccepted(m, names, manifest, root, tools) {
          AcceptedPrefix(members, i + 1, names, manifest, root, tools);
          return false, tree;
        }
        var folded := Folded(m, root, tools);
        if folded in destinations {
          AcceptedPrefix(members, i + 1, names, manifest, root, tools);
          return false, tree;
        }
        destinations := destinations + {folded};
        tree := tree[PathOf(m, root, tools) := NodeOf(m)];
      }
    }
    assert members[..|members|] == members;
    return true, tree;
  }

  // ----- what every accepted archive is like -----

  /** A rooted tree: every node below the root has its parent directory. */
  ghost predicate IsTree(tree: Tree, root: string) {
    && [root] in tree
    && (forall p <- tree :: p != [] && p[0] == root)
    && (forall p <- tree :: |p| > 1 ==> Parent(p) in tree && tree[Parent(p)] == Directory)
  }

  lemma {:induction false} UntilNulWhole(s: string)
    ensures '\0' !in s ==> UntilNul(s) == s
    decreases |s|
  {
    if s != "" {
      assert s == [s[0]] + s[1..];
      UntilNulWhole(s[1..]);
    }
  }

  /** Control characters of a string are control characters of its parts. */
  lemma {:induction false} SplitCharacters(s: string, c: char)
    requires c in s && c != '/'
    ensures exists part <- Split(s) :: c in part
    decreases |s|
  {
    var rest := Split(s[1..]);
    var parts := Split(s);
    if s[0] == c {
      assert parts[0] in parts && c in parts[0];
    } else {
      assert s == [s[0]] + s[1..];
      SplitCharacters(s[1..], c);
      var part :| part in rest && c in part;
      var i :| 0 <= i < |rest| && rest[i] == part;
      if s[0] == '/' {
        assert parts[i + 1] == part;
      } else if i == 0 {
        assert parts[0] == [s[0]] + part && parts[0] in parts;
      } else {
        assert parts[i] == part;
      }
    }
  }

  lemma PartsHaveNoNul(s: string, cases: Cases)
    requires forall part <- Split(s) :: GoodPart(part, cases)
    ensures '\0' !in s
  {
    if '\0' in s {
      SplitCharacters(s, '\0');
    }
  }
}
