/** The names of archive members and the paths they stand for: member_path of scripts/archive-evidence.py. */
module ArchiveNames {

  import opened Strings

  type Path = seq<string>

  /** str.upper, str.lower and str.casefold. */
  datatype Cases = Cases(upper: string -> string, lower: string -> string, casefold: string -> string)

  const WINDOWS_DEVICES: set<string> :=
    {"CON", "PRN", "AUX", "NUL", "CONIN$", "CONOUT$",
     "COM1", "COM2", "COM3", "COM4", "COM5", "COM6", "COM7", "COM8", "COM9",
     "COM\U{00B9}", "COM\U{00B2}", "COM\U{00B3}",
     "LPT1", "LPT2", "LPT3", "LPT4", "LPT5", "LPT6", "LPT7", "LPT8", "LPT9",
     "LPT\U{00B9}", "LPT\U{00B2}", "LPT\U{00B3}"}

  // ----- member_path -----

  function Stem(part: string): string {
    if part == "" || part[0] == '.' then "" else [part[0]] + Stem(part[1..])
  }

  predicate BadCharacter(c: char) {
    c in "<>:\"\\|?*" || c < ' '
  }

  predicate GoodPart(part: string, cases: Cases) {
    && part != "" && part != "." && part != ".."
    && part[|part| - 1] != ' ' && part[|part| - 1] != '.'
    && cases.upper(Stem(part)) !in WINDOWS_DEVICES
    && forall c <- part :: !BadCharacter(c)
  }

  function RemoveSlash(name: string): string {
    if name != "" && name[|name| - 1] == '/' then name[..|name| - 1] else name
  }

  /** The path a member name stands for, or none if the name is invalid. */
  function MemberPath(name: string, root: string, directory: bool, cases: Cases): Option<Path> {
    var parts := Split(if directory then RemoveSlash(name) else name);
    if parts[0] != root || !(forall part <- parts :: GoodPart(part, cases)) then None else Some(parts)
  }

  /** The name under which a node is packed. */
  function EntryName(path: Path, directory: bool): string {
    if directory then Join(path) + "/" else Join(path)
  }

  predicate GoodPath(path: Path, root: string, cases: Cases) {
    path != [] && path[0] == root && forall part <- path :: GoodPart(part, cases) && '/' !in part
  }

  lemma {:induction false} JoinEnd(path: Path)
    requires path != [] && forall part <- path :: part != "" && '/' !in part
    ensures Join(path) != "" && Join(path)[|Join(path)| - 1] != '/'
    decreases |path|
  {
    assert path[0] in path;
    if |path| > 1 {
      assert forall part <- path[1..] :: part in path;
      JoinEnd(path[1..]);
    }
  }

  /** Packing a good path and reading its name back is the identity. */
  lemma NameOfPath(path: Path, root: string, directory: bool, cases: Cases)
    requires GoodPath(path, root, cases)
    ensures MemberPath(EntryName(path, directory), root, directory, cases) == Some(path)
    ensures IsDirectoryName(EntryName(path, directory)) <==> directory
  {
    SplitJoin(path);
    JoinEnd(path);
    if directory { assert RemoveSlash(Join(path) + "/") == Join(path); }
  }

  /** What a valid name stands for is a good path with that very name. */
  lemma PathOfName(name: string, root: string, cases: Cases)
    requires MemberPath(name, root, IsDirectoryName(name), cases).Some?
    ensures var path := MemberPath(name, root, IsDirectoryName(name), cases).value;
            GoodPath(path, root, cases) && EntryName(path, IsDirectoryName(name)) == name
  {
    JoinSplit(if IsDirectoryName(name) then RemoveSlash(name) else name);
  }

  predicate IsDirectoryName(name: string) {
    name != "" && name[|name| - 1] == '/'
  }

  /** Different nodes have different names. */
  lemma NamesAreDistinct(p: Path, d: bool, p': Path, d': bool, root: string, cases: Cases)
    requires GoodPath(p, root, cases) && GoodPath(p', root, cases) && EntryName(p, d) == EntryName(p', d')
    ensures p == p' && d == d'
  {
    NameOfPath(p, root, d, cases);
    NameOfPath(p', root, d', cases);
  }
}
