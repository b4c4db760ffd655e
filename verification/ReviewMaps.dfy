/** map_scaffold of scripts/authoring-batch.py: drafting a review map from a tree of typed definitions. */
module ReviewMaps {
  import opened Strings
  import opened JsonPointers

  // ----- the nodes of a tree and their pointers -----

  function Arity(v: Json): nat {
    match v
    case Object(members) => |members|
    case Array(elements) => |elements|
    case _ => 0
  }

  function Child(v: Json, i: nat): Json
    requires i < Arity(v)
  {
    match v
    case Object(members) => members[i].value
    case Array(elements) => elements[i]
  }

  function ChildPointer(v: Json, i: nat, pointer: string): string
    requires i < Arity(v)
  {
    match v
    case Object(members) => pointer + "/" + Escape(members[i].key)
    case Array(_) => pointer + "/" + Decimal(i)
  }

  /** A node and the pointer emitted for it. */
  datatype Site = Site(pointer: string, value: Json)

  /** The nodes of a tree, each before its children. */
  function Sites(v: Json, pointer: string): (sites: seq<Site>)
    ensures sites != []
    decreases v, 1, 0
  {
    [Site(pointer, v)] + ChildSites(v, Arity(v), pointer)
  }

  /** The nodes below the first n children. */
  function ChildSites(v: Json, n: nat, pointer: string): seq<Site>
    requires n <= Arity(v)
    decreases v, 0, n
  {
    if n == 0 then []
    else ChildSites(v, n - 1, pointer) + Sites(Child(v, n - 1), ChildPointer(v, n - 1, pointer))
  }

  // ----- what walk takes from a node -----

  function Get(v: Json, key: string): Option<Json> {
    match v
    case Object(members) =>
      var i := KeyIndex(members, key);
      if i < |members| then Some(members[i].value) else None
    case _ => None
  }

  /** dict.get: a missing key reads as null. */
  function GetOrNull(v: Json, key: string): Json { Get(v, key).GetOr(Other("null")) }

  /** The OracleLines of a node's presentation, if it has any. */
  function OracleLines(v: Json): Option<Json> {
    match Get(v, "presentation")
    case None => None
    case Some(presentation) => Get(presentation, "OracleLines")
  }

  predicate Increasing(numbers: seq<Json>)
    requires forall n <- numbers :: n.Int?
  {
    forall i, j :: 0 <= i < j < |numbers| ==> numbers[i].number < numbers[j].number
  }

  /** A non-empty list of existing line numbers, in strictly increasing order. */
  predicate ValidLines(lines: Json, count: nat) {
    && lines.Array? && lines.elements != []
    && (forall n <- lines.elements :: n.Int? && 1 <= n.number <= count)
    && Increasing(lines.elements)
  }

  predicate SiteValid(v: Json, count: nat) {
    OracleLines(v).Some? ==> ValidLines(OracleLines(v).value, count)
  }

  predicate AllValid(sites: seq<Site>, count: nat) {
    forall s <- sites :: SiteValid(s.value, count)
  }

  /** Does the node claim that line? */
  predicate Claims(v: Json, line: int) {
    && OracleLines(v).Some? && OracleLines(v).value.Array? && Int(line) in OracleLines(v).value.elements
  }

  function Pointers(sites: seq<Site>): seq<string> {
    seq(|sites|, i requires 0 <= i < |sites| => sites[i].pointer)
  }

  /** The pointers of the nodes that claim a line. */
  function Claimants(sites: seq<Site>, line: int): seq<string> {
    if sites == [] then []
    else
      var last := sites[|sites| - 1];
      Claimants(sites[..|sites| - 1], line) + (if Claims(last.value, line) then [last.pointer] else [])
  }

  /** The tokens a member creates. */
  function TokensOf(member: Entry): set<string> {
    var child := member.value;
    (if member.key in {"CreateTokens", "CreateAttackingTokens"} && Get(child, "token").Some? && Get(child, "token").value.Text?
     then {Get(child, "token").value.text} else {})
    + (if member.key == "CreateTokenBatch" && Get(child, "tokens").Some? && Get(child, "tokens").value.Array?
       then set t | t in Get(child, "tokens").value.elements && t.Text? :: t.text else {})
  }

  function TokensAt(v: Json, n: nat): set<string>
    requires n <= Arity(v)
  {
    if n == 0 || !v.Object? then {} else TokensAt(v, n - 1) + TokensOf(v.members[n - 1])
  }

  function TokensIn(sites: seq<Site>): set<string> {
    if sites == [] then {}
    else TokensIn(sites[..|sites| - 1]) + TokensAt(sites[|sites| - 1].value, Arity(sites[|sites| - 1].value))
  }

  lemma {:induction false} ClaimantsConcat(a: seq<Site>, b: seq<Site>, line: int)
    ensures Claimants(a + b, line) == Claimants(a, line) + Claimants(b, line)
    decreases |b|
  {
    if b == [] {
      assert a + b == a;
    } else {
      var n := |b| - 1;
      assert (a + b)[..|a + b| - 1] == a + b[..n];
      ClaimantsConcat(a, b[..n], line);
    }
  }

  lemma {:induction false} TokensConcat(a: seq<Site>, b: seq<Site>)
    ensures TokensIn(a + b) == TokensIn(a) + TokensIn(b)
    decreases |b|
  {
    if b == [] {
      assert a + b == a;
    } else {
      var n := |b| - 1;
      assert (a + b)[..|a + b| - 1] == a + b[..n];
      TokensConcat(a, b[..n]);
    }
  }

  // ----- map_scaffold -----

  datatype Span = Span(faceId: Json, start: int, end: int, typedPaths: seq<Json>)

  /** An external face: its name, and how many non-blank lines its text has. */
  datatype SourceFace = SourceFace(name: Json, lines: nat)

  /** Python's truth value of a JSON value. */
  predicate Truthy(v: Json) {
    match v
    case Object(members) => members != []
    case Array(elements) => elements != []
    case Text(text) => text != ""
    case Int(number) => number != 0
    case Other(spelling) => spelling !in {"null", "false", "0.0", "-0.0"}
  }

  function FacePointer(i: nat): string { "/faces/" + Decimal(i) }

  function FaceId(face: Json): Json { GetOrNull(face, "face_id") }

  function Faces(typed: Json): seq<Json> {
    match Get(typed, "faces") case Some(Array(elements)) => elements case _ => []
  }

  predicate FaceValid(face: Json, source: SourceFace, i: nat) {
    && GetOrNull(face, "name") == source.name && Truthy(FaceId(face))
    && AllValid(Sites(face, FacePointer(i)), source.lines)
  }

  function AsTexts(pointers: seq<string>): seq<Json> {
    seq(|pointers|, i requires 0 <= i < |pointers| => Text(pointers[i]))
  }

  /** One span for each of the first n lines of a face. */
  function FaceSpans(face: Json, i: nat, n: nat): (spans: seq<Span>)
    ensures |spans| == n
  {
    if n == 0 then []
    else FaceSpans(face, i, n - 1) + [Span(FaceId(face), n, n, AsTexts(Claimants(Sites(face, FacePointer(i)), n)))]
  }

  function DraftedSpans(faces: seq<Json>, sources: seq<SourceFace>): seq<Span>
    requires |faces| == |sources|
  {
    if faces == [] then []
    else
      var k := |faces| - 1;
      DraftedSpans(faces[..k], sources[..k]) + FaceSpans(faces[k], k, sources[k].lines)
  }

  function AllSites(faces: seq<Json>): seq<Site> {
    if faces == [] then []
    else AllSites(faces[..|faces| - 1]) + Sites(faces[|faces| - 1], FacePointer(|faces| - 1))
  }

  /** What map_scaffold accepts. */
  predicate Draftable(typed: Json, name: Json, identified: bool, sources: seq<SourceFace>) {
    && GetOrNull(typed, "name") == name && identified
    && Faces(typed) != [] && |Faces(typed)| == |sources|
    && forall i :: 0 <= i < |sources| ==> FaceValid(Faces(typed)[i], sources[i], i)
  }

  class Scaffold {
    var catalogue: seq<string>
    var byLine: map<int, seq<string>>
    var tokens: set<string>
    var spans: seq<Span>

    constructor ()
      ensures catalogue == [] && byLine == map[] && tokens == {} && spans == []
    {
      catalogue, byLine, tokens, spans := [], map[], {}, [];
    }

    /** The lines of a face are numbered from one. */
    ghost predicate HasLines(count: nat)
      reads this
    {
      forall n :: n in byLine <==> 1 <= n <= count
    }

    /** What the walk over these nodes has put into the catalogue and under the lines, since the given state. */
    ghost predicate Listed(was: seq<string>, wasByLine: map<int, seq<string>>, sites: seq<Site>)
      reads this
    {
      && catalogue == was + Pointers(sites)
      && byLine.Keys == wasByLine.Keys
      && (forall n <- byLine :: n in wasByLine && byLine[n] == wasByLine[n] + Claimants(sites, n))
    }

    lemma ListedMore(middle: seq<string>, middleByLine: map<int, seq<string>>, was: seq<string>,
                     wasByLine: map<int, seq<string>>, a: seq<Site>, b: seq<Site>)
      requires Listed(middle, middleByLine, b)
      requires middle == was + Pointers(a) && middleByLine.Keys == wasByLine.Keys
      requires forall n <- middleByLine :: n in wasByLine && middleByLine[n] == wasByLine[n] + Claimants(a, n)
      ensures Listed(was, wasByLine, a + b)
    {
      hide Claims;
      forall n | n in byLine ensures n in wasByLine && byLine[n] == wasByLine[n] + Claimants(a + b, n) {
        ClaimantsConcat(a, b, n);
      }
    }

    /** The line numbers of one node: refused, or recorded. */
    method Record(v: Json, pointer: string, count: nat) returns (ok: bool)
      requires HasLines(count)
      modifies `byLine
      ensures HasLines(count)
      ensures ok == SiteValid(v, count)
      ensures ok ==> byLine.Keys == old(byLine).Keys
      ensures ok ==> forall n <- byLine :: byLine[n] == old(byLine)[n] + Claimants([Site(pointer, v)], n)
    {
      var lines := OracleLines(v);
      if lines.None? { return true; }
      if !ValidLines(lines.value, count) { return false; }
      var numbers := lines.value.elements;
      for i := 0 to |numbers|
        invariant HasLines(count)
        invariant byLine.Keys == old(byLine).Keys
        invariant forall n <- byLine :: byLine[n] == old(byLine)[n] + if Int(n) in numbers[..i] then [pointer] else []
      {
        var number := numbers[i].number;
        assert numbers[i] in numbers && numbers[i] == Int(number);
        assert Int(number) !in numbers[..i];
        assert numbers[..i + 1] == numbers[..i] + [numbers[i]];
        byLine := byLine[number := byLine[number] + [pointer]];
      }
      assert numbers[..|numbers|] == numbers;
      return true;
    }

    /** walk: the node itself, then its children in order. */
    method Walk(v: Json, pointer: string, count: nat) returns (ok: bool)
      requires HasLines(count)
      modifies `catalogue, `byLine, `tokens
      ensures HasLines(count)
      ensures ok == AllValid(Sites(v, pointer), count)
      ensures ok ==> Listed(old(catalogue), old(byLine), Sites(v, pointer))
      ensures ok ==> tokens == old(tokens) + TokensIn(Sites(v, pointer))
      decreases v
    {
      hide SiteValid, TokensOf, Child, ChildPointer, AllValid, TokensIn, TokensAt, Claimants, Sites, ChildSites;
      ghost var here := [Site(pointer, v)];
      SitesStep(v, pointer, count);
      catalogue := catalogue + [pointer];
      ok := Record(v, pointer, count);
      if !ok { return; }
      ListedOne(v, pointer, old(catalogue), old(byLine));
      for i := 0 to Arity(v)
        invariant HasLines(count)
        invariant AllValid(ChildSites(v, i, pointer), count)
        invariant Listed(old(catalogue), old(byLine), here + ChildSites(v, i, pointer))
        invariant tokens == old(tokens) + TokensAt(v, i) + TokensIn(ChildSites(v, i, pointer))
      {
        ChildStep(v, i, pointer, count);
        if v.Object? {
          tokens := tokens + TokensOf(v.members[i]);
        }
        ghost var middle, middleByLine := catalogue, byLine;
        ghost var before := here + ChildSites(v, i, pointer);
        ChildIsSmaller(v, i);
        ok := Walk(Child(v, i), ChildPointer(v, i, pointer), count);
        if !ok {
          InvalidBelow(v, i, pointer, count);
          return;
        }
        ghost var added := Sites(Child(v, i), ChildPointer(v, i, pointer));
        ListedMore(middle, middleByLine, old(catalogue), old(byLine), before, added);
        assert before + added == here + ChildSites(v, i + 1, pointer);
      }
    }

    /** Spans for the lines of one face, from what the walk has put under them. */
    method AppendSpans(face: Json, i: nat, count: nat)
      requires HasLines(count)
      requires forall n <- byLine :: byLine[n] == Claimants(Sites(face, FacePointer(i)), n)
      modifies `spans
      ensures spans == old(spans) + FaceSpans(face, i, count)
    {
      hide Claimants, Sites;
      for n := 0 to count
        invariant spans == old(spans) + FaceSpans(face, i, n)
      {
        spans := spans + [Span(FaceId(face), n + 1, n + 1, AsTexts(byLine[n + 1]))];
      }
    }

    /** An empty list for every line. */
    method StartLines(count: nat)
      modifies `byLine
      ensures HasLines(count) && forall n <- byLine :: byLine[n] == []
    {
      byLine := map[];
      for n := 0 to count
        invariant HasLines(n) && forall k <- byLine :: byLine[k] == []
      {
        byLine := byLine[n + 1 := []];
      }
    }

    method DraftFace(face: Json, source: SourceFace, i: nat) returns (ok: bool)
      modifies this
      ensures ok == FaceValid(face, source, i)
      ensures ok ==> spans == old(spans) + FaceSpans(face, i, source.lines)
      ensures ok ==> catalogue == old(catalogue) + Pointers(Sites(face, FacePointer(i)))
      ensures ok ==> tokens == old(tokens) + TokensIn(Sites(face, FacePointer(i)))
    {
      hide Sites, Claimants, AllValid, Get, FaceSpans, FacePointer, Truthy;
      if GetOrNull(face, "name") != source.name || !Truthy(FaceId(face)) { return false; }
      StartLines(source.lines);
      ok := Walk(face, FacePointer(i), source.lines);
      if !ok { return; }
      assert forall n <- byLine :: byLine[n] == [] + Claimants(Sites(face, FacePointer(i)), n);
      AppendSpans(face, i, source.lines);
    }

    /** map_scaffold: refuses, or drafts the spans of every face and lists every pointer and token. */
    method Draft(typed: Json, name: Json, identified: bool, sources: seq<SourceFace>) returns (ok: bool)
      modifies this
      ensures ok == Draftable(typed, name, identified, sources)
      ensures ok ==> spans == DraftedSpans(Faces(typed), sources)
      ensures ok ==> catalogue == Pointers(AllSites(Faces(typed)))
      ensures ok ==> tokens == TokensIn(AllSites(Faces(typed)))
    {
      hide Sites, Get, FaceSpans, FacePointer, FaceValid, Faces, Pointers, TokensIn, AllSites, DraftedSpans;
      if GetOrNull(typed, "name") != name || !identified { return false; }
      var faces := Faces(typed);
      if faces == [] || |faces| != |sources| { return false; }
      catalogue, tokens, spans := [], {}, [];
      NoFacesYet(faces, sources);
      for i := 0 to |faces|
        invariant forall k :: 0 <= k < i ==> FaceValid(faces[k], sources[k], k)
        invariant spans == DraftedSpans(faces[..i], sources[..i])
        invariant catalogue == Pointers(AllSites(faces[..i])) && tokens == TokensIn(AllSites(faces[..i]))
      {
        ok := DraftFace(faces[i], sources[i], i);
        if !ok { return; }
        OneMoreFace(faces, sources, i);
      }
      assert faces[..|faces|] == faces && sources[..|sources|] == sources;
      return true;
    }

    lemma ListedOne(v: Json, pointer: string, was: seq<string>, wasByLine: map<int, seq<string>>)
      requires catalogue == was + [pointer] && byLine.Keys == wasByLine.Keys
      requires forall n <- byLine :: byLine[n] == wasByLine[n] + Claimants([Site(pointer, v)], n)
      ensures Listed(was, wasByLine, [Site(pointer, v)] + ChildSites(v, 0, pointer))
    {
      assert [Site(pointer, v)] + ChildSites(v, 0, pointer) == [Site(pointer, v)];
    }
  }

  lemma NoFacesYet(faces: seq<Json>, sources: seq<SourceFace>)
    requires |faces| == |sources|
    ensures DraftedSpans(faces[..0], sources[..0]) == [] && Pointers(AllSites(faces[..0])) == []
    ensures TokensIn(AllSites(faces[..0])) == {}
  {}

  lemma OneMoreFace(faces: seq<Json>, sources: seq<SourceFace>, i: nat)
    requires i < |faces| == |sources|
    ensures DraftedSpans(faces[..i + 1], sources[..i + 1])
            == DraftedSpans(faces[..i], sources[..i]) + FaceSpans(faces[i], i, sources[i].lines)
    ensures Pointers(AllSites(faces[..i + 1]))
            == Pointers(AllSites(faces[..i])) + Pointers(Sites(faces[i], FacePointer(i)))
    ensures TokensIn(AllSites(faces[..i + 1])) == TokensIn(AllSites(faces[..i])) + TokensIn(Sites(faces[i], FacePointer(i)))
  {
    hide Sites, FaceSpans, TokensIn;
    assert faces[..i + 1][..i] == faces[..i] && sources[..i + 1][..i] == sources[..i];
    TokensConcat(AllSites(faces[..i]), Sites(faces[i], FacePointer(i)));
  }

  lemma ChildIsSmaller(v: Json, i: nat)
    requires i < Arity(v)
    ensures Child(v, i) < v
  {}

  /** The nodes of a tree: what is said of all of them is said of the root and of those below it. */
  lemma SitesStep(v: Json, pointer: string, count: nat)
    ensures Sites(v, pointer) == [Site(pointer, v)] + ChildSites(v, Arity(v), pointer)
    ensures AllValid(Sites(v, pointer), count) <==> SiteValid(v, count) && AllValid(ChildSites(v, Arity(v), pointer), count)
    ensures TokensIn(Sites(v, pointer)) == TokensAt(v, Arity(v)) + TokensIn(ChildSites(v, Arity(v), pointer))
    ensures AllValid(ChildSites(v, 0, pointer), count)
    ensures TokensAt(v, 0) == {} && TokensIn(ChildSites(v, 0, pointer)) == {}
  {
    hide SiteValid, TokensOf;
    AllValidConcat([Site(pointer, v)], ChildSites(v, Arity(v), pointer), count);
    TokensConcat([Site(pointer, v)], ChildSites(v, Arity(v), pointer));
    TokensOfOne(v, pointer);
    assert [Site(pointer, v)][0].value == v;
  }

  /** One more child. */
  lemma ChildStep(v: Json, i: nat, pointer: string, count: nat)
    requires i < Arity(v)
    ensures var added := Sites(Child(v, i), ChildPointer(v, i, pointer));
            && ChildSites(v, i + 1, pointer) == ChildSites(v, i, pointer) + added
            && (AllValid(ChildSites(v, i + 1, pointer), count) <==>
                  AllValid(ChildSites(v, i, pointer), count) && AllValid(added, count))
            && TokensIn(ChildSites(v, i + 1, pointer)) == TokensIn(ChildSites(v, i, pointer)) + TokensIn(added)
    ensures TokensAt(v, i + 1) == TokensAt(v, i) + if v.Object? then TokensOf(v.members[i]) else {}
  {
    hide SiteValid, TokensOf, Child, ChildPointer, Sites;
    var added := Sites(Child(v, i), ChildPointer(v, i, pointer));
    AllValidConcat(ChildSites(v, i, pointer), added, count);
    TokensConcat(ChildSites(v, i, pointer), added);
  }

  lemma AllValidConcat(a: seq<Site>, b: seq<Site>, count: nat)
    ensures AllValid(a + b, count) <==> AllValid(a, count) && AllValid(b, count)
  {
    hide SiteValid;
    assert forall s :: s in a + b <==> s in a || s in b;
  }

  lemma TokensOfOne(v: Json, pointer: string)
    ensures TokensIn([Site(pointer, v)]) == TokensAt(v, Arity(v))
  {
    assert [Site(pointer, v)][..0] == [];
  }

  /** An invalid node below a child is one below the whole. */
  lemma {:induction false} InvalidBelow(v: Json, i: nat, pointer: string, count: nat)
    requires i < Arity(v) && !AllValid(Sites(Child(v, i), ChildPointer(v, i, pointer)), count)
    ensures !AllValid(Sites(v, pointer), count)
  {
    hide SiteValid, Child, ChildPointer;
    var s :| s in Sites(Child(v, i), ChildPointer(v, i, pointer)) && !SiteValid(s.value, count);
    SitesBelow(v, i, pointer, Arity(v), s);
    assert s in Sites(v, pointer);
  }

  lemma {:induction false} SitesBelow(v: Json, i: nat, pointer: string, n: nat, s: Site)
    requires i < n <= Arity(v) && s in Sites(Child(v, i), ChildPointer(v, i, pointer))
    ensures s in ChildSites(v, n, pointer)
    decreases n
  {
    hide Child, ChildPointer, Sites;
    if i < n - 1 { SitesBelow(v, i, pointer, n - 1, s); }
  }
}
