/**
 What map_scaffold drafts, validate_maps accepts: every emitted pointer resolves to the node it was emitted
 for, no two are equal, and the drafted spans partition the source lines unless two faces share an id.
 */
module ReviewMapTheorems {
  import opened Strings
  import opened JsonPointers
  import opened ReviewMaps
  import opened ReviewMapChecks

  // ----- pointers resolve -----

  /** The part of a child's pointer after its parent's. */
  function Part(v: Json, i: nat): string
    requires i < Arity(v)
  {
    match v
    case Object(members) => Escape(members[i].key)
    case Array(_) => Decimal(i)
  }

  lemma DigitsAreDigits(s: string)
    requires AllDecimalDigits(s)
    ensures '/' !in s && '~' !in s
  {}

  lemma FirstIndex(members: seq<Entry>, i: nat)
    requires DistinctKeys(members) && i < |members|
    ensures KeyIndex(members, members[i].key) == i
  {
    var k := KeyIndex(members, members[i].key);
    assert forall m :: 0 <= m < k ==> members[m].key != members[i].key;
    assert k <= i;
  }

  /** Each part leads from the node to the child it was written for. */
  lemma PartLeadsToChild(v: Json, i: nat, pointer: string)
    requires IsJson(v) && i < Arity(v)
    ensures ChildPointer(v, i, pointer) == pointer + "/" + Part(v, i) && '/' !in Part(v, i)
    ensures Step(v, Unescape(Part(v, i))) == Some(Child(v, i)) && IsJson(Child(v, i))
  {
    match v
    case Object(members) =>
      EscapeHasNoSlash(members[i].key);
      UnescapeEscape(members[i].key);
      FirstIndex(members, i);
    case Array(elements) =>
      DecimalReadsBack(i);
      DigitsAreDigits(Decimal(i));
      NothingToUnescape(Decimal(i), '1', '/');
      NothingToUnescape(Decimal(i), '0', '~');
  }

  ghost predicate ResolvesTo(typed: Json, s: Site) {
    IsPointer(s.pointer) && Resolve(typed, s.pointer) == Some(s.value)
  }

  /** Every pointer emitted below a node resolves to the node it was emitted for. */
  lemma {:induction false} SitesResolve(typed: Json, v: Json, pointer: string)
    requires IsJson(v) && ResolvesTo(typed, Site(pointer, v))
    ensures forall s <- Sites(v, pointer) :: ResolvesTo(typed, s)
    decreases v, 1, 0
  {
    hide ResolvesTo;
    ChildSitesResolve(typed, v, Arity(v), pointer);
  }

  lemma {:induction false} ChildSitesResolve(typed: Json, v: Json, n: nat, pointer: string)
    requires IsJson(v) && ResolvesTo(typed, Site(pointer, v)) && n <= Arity(v)
    ensures forall s <- ChildSites(v, n, pointer) :: ResolvesTo(typed, s)
    decreases v, 0, n
  {
    if n > 0 {
      hide Sites, Step, Part, Resolve, IsJson, ChildPointer, Child;
      ChildSitesResolve(typed, v, n - 1, pointer);
      PartLeadsToChild(v, n - 1, pointer);
      ResolveLonger(typed, pointer, Part(v, n - 1));
      ChildIsSmaller(v, n - 1);
      SitesResolve(typed, Child(v, n - 1), ChildPointer(v, n - 1, pointer));
    }
  }

  lemma FacesMember(typed: Json)
    requires Faces(typed) != [] && IsJson(typed)
    ensures Step(typed, "faces") == Some(Array(Faces(typed))) && IsJson(Array(Faces(typed)))
  {}

  lemma FaceResolves(typed: Json, i: nat)
    requires IsJson(typed) && i < |Faces(typed)|
    ensures ResolvesTo(typed, Site(FacePointer(i), Faces(typed)[i])) && IsJson(Faces(typed)[i])
  {
    hide Step, Resolve, Faces, IsJson;
    var faces := Array(Faces(typed));
    FacesMember(typed);
    Whole(typed);
    NothingToUnescape("faces", '1', '/');
    NothingToUnescape("faces", '0', '~');
    ResolveLonger(typed, "", "faces");
    assert "" + "/" + "faces" == "/faces";
    PartLeadsToChild(faces, i, "/faces");
    ResolveLonger(typed, "/faces", Part(faces, i));
    assert FacePointer(i) == "/faces" + "/" + Decimal(i);
  }

  lemma Whole(typed: Json)
    ensures Resolve(typed, "") == Some(typed)
  {
    assert Split("")[1..] == [];
  }

  /** Every pointer map_scaffold emits is resolved by validate_maps to the very node it was emitted for. */
  lemma {:induction false} EmittedPointersResolve(typed: Json, n: nat)
    requires IsJson(typed) && n <= |Faces(typed)|
    ensures forall s <- AllSites(Faces(typed)[..n]) :: ResolvesTo(typed, s)
    decreases n
  {
    if n > 0 {
      hide ResolvesTo, Sites, IsJson, Faces, FacePointer, Resolve;
      EmittedPointersResolve(typed, n - 1);
      FaceResolves(typed, n - 1);
      SitesResolve(typed, Faces(typed)[n - 1], FacePointer(n - 1));
      assert Faces(typed)[..n][..n - 1] == Faces(typed)[..n - 1];
    }
  }

  // ----- pointers are distinct -----

  ghost predicate DistinctPointers(sites: seq<Site>) {
    forall i, j :: 0 <= i < j < |sites| ==> sites[i].pointer != sites[j].pointer
  }

  /** The pointer continues the given one. */
  predicate Continues(s: Site, pointer: string) { Split(pointer) <= Split(s.pointer) }

  /** The pointer continues the given one with that part. */
  predicate ContinuesWith(s: Site, pointer: string, part: string) {
    Split(pointer) + [part] <= Split(s.pointer)
  }

  lemma {:induction false} SitesContinue(v: Json, pointer: string)
    requires IsJson(v)
    ensures forall s <- Sites(v, pointer) :: Continues(s, pointer)
    decreases v, 1, 0
  {
    ChildSitesContinue(v, Arity(v), pointer);
  }

  lemma {:induction false} ChildSitesContinue(v: Json, n: nat, pointer: string)
    requires IsJson(v) && n <= Arity(v)
    ensures forall s <- ChildSites(v, n, pointer) ::
              Continues(s, pointer) && exists k :: 0 <= k < n && ContinuesWith(s, pointer, Part(v, k))
    decreases v, 0, n
  {
    if n > 0 {
      hide Sites, Step, Part, IsJson, ChildPointer, Child;
      ChildSitesContinue(v, n - 1, pointer);
      PartLeadsToChild(v, n - 1, pointer);
      SplitLast(pointer, Part(v, n - 1));
      ChildIsSmaller(v, n - 1);
      var below := Sites(Child(v, n - 1), ChildPointer(v, n - 1, pointer));
      SitesContinue(Child(v, n - 1), ChildPointer(v, n - 1, pointer));
      forall s | s in below ensures Continues(s, pointer) && ContinuesWith(s, pointer, Part(v, n - 1)) {
        Shorter(s, pointer, Part(v, n - 1));
      }
    }
  }

  lemma Shorter(s: Site, pointer: string, part: string)
    requires ContinuesWith(s, pointer, part)
    ensures Continues(s, pointer)
  {
    assert Split(pointer) <= Split(pointer) + [part];
  }

  lemma PartsDiffer(v: Json, i: nat, j: nat)
    requires IsJson(v) && i < j < Arity(v)
    ensures Part(v, i) != Part(v, j)
  {
    match v
    case Object(members) =>
      UnescapeEscape(members[i].key);
      UnescapeEscape(members[j].key);
    case Array(_) =>
      DecimalReadsBack(i);
      DecimalReadsBack(j);
  }

  lemma ApartAt(s: Site, t: Site, pointer: string, a: string, b: string)
    requires ContinuesWith(s, pointer, a) && ContinuesWith(t, pointer, b) && a != b
    ensures s.pointer != t.pointer
  {
    var n := |Split(pointer)|;
    assert (Split(pointer) + [a])[n] == a && (Split(pointer) + [b])[n] == b;
  }

  lemma DistinctConcat(a: seq<Site>, b: seq<Site>)
    requires DistinctPointers(a) && DistinctPointers(b)
    requires forall s, t :: s in a && t in b ==> s.pointer != t.pointer
    ensures DistinctPointers(a + b)
  {
    var all := a + b;
    forall i, j | 0 <= i < j < |all| ensures all[i].pointer != all[j].pointer {
      if i < |a| { assert all[i] in a; } else { assert all[i] == b[i - |a|]; }
      if j < |a| { assert all[j] == a[j]; } else { assert all[j] == b[j - |a|] && all[j] in b; }
    }
  }

  /** No two pointers emitted below a node are equal. */
  lemma {:induction false} SitesDistinct(v: Json, pointer: string)
    requires IsJson(v)
    ensures DistinctPointers(Sites(v, pointer))
    decreases v, 1, 0
  {
    hide Sites, Part, IsJson;
    ChildSitesDistinct(v, Arity(v), pointer);
    ChildSitesContinue(v, Arity(v), pointer);
    var here, below := [Site(pointer, v)], ChildSites(v, Arity(v), pointer);
    forall t | t in below ensures t.pointer != pointer {
      var k :| 0 <= k < Arity(v) && ContinuesWith(t, pointer, Part(v, k));
      assert |Split(t.pointer)| > |Split(pointer)|;
    }
    DistinctConcat(here, below);
    SitesAre(v, pointer);
  }

  lemma SitesAre(v: Json, pointer: string)
    ensures Sites(v, pointer) == [Site(pointer, v)] + ChildSites(v, Arity(v), pointer)
  {}

  lemma ChildSitesAre(v: Json, n: nat, pointer: string)
    requires n <= Arity(v)
    ensures ChildSites(v, n, pointer) ==
            if n == 0 then [] else ChildSites(v, n - 1, pointer) + Sites(Child(v, n - 1), ChildPointer(v, n - 1, pointer))
  {}

  lemma NoneDistinct()
    ensures DistinctPointers([])
  {}

  lemma {:induction false} ChildSitesDistinct(v: Json, n: nat, pointer: string)
    requires IsJson(v) && n <= Arity(v)
    ensures DistinctPointers(ChildSites(v, n, pointer))
    decreases v, 0, n
  {
    hide *;
    ChildSitesAre(v, n, pointer);
    NoneDistinct();
    if n > 0 {
      var before, added := ChildSites(v, n - 1, pointer), Sites(Child(v, n - 1), ChildPointer(v, n - 1, pointer));
      PartLeadsToChild(v, n - 1, pointer);
      ChildIsSmaller(v, n - 1);
      ChildSitesDistinct(v, n - 1, pointer);
      SitesDistinct(Child(v, n - 1), ChildPointer(v, n - 1, pointer));
      forall s, t | s in before && t in added ensures s.pointer != t.pointer {
        ChildrenApart(v, n - 1, pointer, s, t);
      }
      DistinctConcat(before, added);
    }
  }

  /** A node below an earlier child has another pointer than one below child n. */
  lemma ChildrenApart(v: Json, n: nat, pointer: string, s: Site, t: Site)
    requires IsJson(v) && n < Arity(v)
    requires s in ChildSites(v, n, pointer) && t in Sites(Child(v, n), ChildPointer(v, n, pointer))
    ensures s.pointer != t.pointer
  {
    hide Sites, ChildSites, Part, IsJson, Child, ChildPointer, ContinuesWith, Continues;
    ChildSitesContinue(v, n, pointer);
    var k :| 0 <= k < n && ContinuesWith(s, pointer, Part(v, k));
    BelowChild(v, n, pointer, t);
    PartsDiffer(v, k, n);
    ApartAt(s, t, pointer, Part(v, k), Part(v, n));
  }

  lemma BelowChild(v: Json, i: nat, pointer: string, t: Site)
    requires IsJson(v) && i < Arity(v) && t in Sites(Child(v, i), ChildPointer(v, i, pointer))
    ensures ContinuesWith(t, pointer, Part(v, i))
  {
    hide Sites, Part, IsJson, Child, ChildPointer, Step;
    PartLeadsToChild(v, i, pointer);
    SitesContinue(Child(v, i), ChildPointer(v, i, pointer));
    SplitLast(pointer, Part(v, i));
  }

  /** The pointers of all faces are those below the children of the list of faces. */
  lemma {:induction false} FacesAreChildren(faces: seq<Json>, n: nat)
    requires n <= |faces|
    ensures AllSites(faces[..n]) == ChildSites(Array(faces), n, "/faces")
    decreases n
  {
    hide Sites, Decimal;
    if n > 0 {
      FacesAreChildren(faces, n - 1);
      assert faces[..n][..n - 1] == faces[..n - 1];
      assert "/faces" + "/" + Decimal(n - 1) == FacePointer(n - 1);
    }
  }

  /** No two pointers in the catalogue are equal. */
  lemma EmittedPointersDiffer(typed: Json)
    requires IsJson(typed) && Faces(typed) != []
    ensures DistinctPointers(AllSites(Faces(typed)))
  {
    hide Step, Sites, IsJson, AllSites, ChildSites, Faces;
    var faces := Faces(typed);
    FacesMember(typed);
    FacesAreChildren(faces, |faces|);
    assert faces[..|faces|] == faces;
    ChildSitesDistinct(Array(faces), |faces|, "/faces");
  }

  // ----- the drafted spans -----

  /** The source lines of a card: which line numbers each face has. */
  function Expected(sources: seq<SourceFace>): set<(int, int)> {
    if sources == [] then {}
    else
      var k := |sources| - 1;
      Expected(sources[..k]) + set n: int | 1 <= n <= sources[k].lines :: (k, n)
  }

  lemma {:induction false} ExpectedIs(sources: seq<SourceFace>)
    ensures forall f, l :: (f, l) in Expected(sources) <==> 0 <= f < |sources| && 1 <= l <= sources[f].lines
    decreases |sources|
  {
    if sources != [] {
      ExpectedIs(sources[..|sources| - 1]);
    }
  }

  function Ids(faces: seq<Json>): seq<Json> {
    seq(|faces|, i requires 0 <= i < |faces| => FaceId(faces[i]))
  }

  /** No face with a line has the id of an earlier face. */
  ghost predicate NoEarlierTwin(ids: seq<Json>, sources: seq<SourceFace>)
    requires |ids| == |sources|
  {
    forall i, j :: 0 <= i < j < |ids| && sources[j].lines >= 1 ==> ids[i] != ids[j]
  }

  lemma CoveredConcat(a: seq<Span>, b: seq<Span>, ids: seq<Json>, face: int, line: int)
    ensures CoveredBy(a + b, |a + b|, ids, face, line)
            <==> CoveredBy(a, |a|, ids, face, line) || CoveredBy(b, |b|, ids, face, line)
  {
    hide Covers;
    if CoveredBy(a, |a|, ids, face, line) {
      var k :| 0 <= k < |a| && Covers(a[k], ids, face, line);
      assert (a + b)[k] == a[k];
    }
    if CoveredBy(b, |b|, ids, face, line) {
      var k :| 0 <= k < |b| && Covers(b[k], ids, face, line);
      assert (a + b)[|a| + k] == b[k];
    }
  }

  lemma OverlapConcat(a: seq<Span>, b: seq<Span>, ids: seq<Json>)
    requires NoOverlap(a, |a|, ids) && NoOverlap(b, |b|, ids)
    requires forall f, l :: !(CoveredBy(a, |a|, ids, f, l) && CoveredBy(b, |b|, ids, f, l))
    ensures NoOverlap(a + b, |a + b|, ids)
  {
    hide Covers;
    var all := a + b;
    forall i, j, f, l | 0 <= i < j < |all| && Covers(all[i], ids, f, l) ensures !Covers(all[j], ids, f, l) {
      if j >= |a| && i < |a| {
        assert all[i] == a[i] && all[j] == b[j - |a|];
        assert CoveredBy(a, |a|, ids, f, l);
      } else if i >= |a| {
        assert all[i] == b[i - |a|] && all[j] == b[j - |a|];
      } else {
        assert all[i] == a[i] && all[j] == a[j];
      }
    }
  }

  /** The spans of one face cover its lines, each once. */
  lemma {:induction false} FaceSpansCover(face: Json, i: nat, n: nat, ids: seq<Json>)
    ensures forall f, l ::
              CoveredBy(FaceSpans(face, i, n), n, ids, f, l) <==> f == IndexOf(ids, FaceId(face)) && 1 <= l <= n
    ensures NoOverlap(FaceSpans(face, i, n), n, ids)
    decreases n
  {
    if n > 0 {
      hide IndexOf, Claimants, Sites;
      FaceSpansCover(face, i, n - 1, ids);
      var before, last := FaceSpans(face, i, n - 1), FaceSpans(face, i, n)[n - 1];
      forall f, l ensures CoveredBy([last], 1, ids, f, l) <==> f == IndexOf(ids, FaceId(face)) && l == n {
        assert Covers([last][0], ids, f, l) <==> f == IndexOf(ids, FaceId(face)) && l == n;
      }
      assert FaceSpans(face, i, n) == before + [last];
      forall f, l
        ensures CoveredBy(FaceSpans(face, i, n), n, ids, f, l)
                <==> CoveredBy(before, n - 1, ids, f, l) || CoveredBy([last], 1, ids, f, l)
      {
        CoveredConcat(before, [last], ids, f, l);
      }
      OverlapConcat(before, [last], ids);
    }
  }

  /** Some face among the first k, with a line of that number, whose id is found at face f. */
  ghost predicate Claimed(ids: seq<Json>, sources: seq<SourceFace>, k: nat, f: int, l: int)
    requires k <= |ids| == |sources|
  {
    exists i :: 0 <= i < k && IndexOf(ids, ids[i]) == f && 1 <= l <= sources[i].lines
  }

  lemma {:induction false} DraftCovers(faces: seq<Json>, sources: seq<SourceFace>, k: nat)
    requires |faces| == |sources| && k <= |faces|
    ensures var spans := DraftedSpans(faces[..k], sources[..k]);
            && (forall f, l :: CoveredBy(spans, |spans|, Ids(faces), f, l) <==> Claimed(Ids(faces), sources, k, f, l))
            && (NoEarlierTwin(Ids(faces), sources) ==> NoOverlap(spans, |spans|, Ids(faces)))
    decreases k
  {
    hide IndexOf, FaceSpans, CoveredBy, NoOverlap;
    var ids := Ids(faces);
    if k == 0 {
      assert DraftedSpans(faces[..0], sources[..0]) == [];
      NothingCovered([], ids);
    } else {
      DraftCovers(faces, sources, k - 1);
      assert faces[..k][..k - 1] == faces[..k - 1] && sources[..k][..k - 1] == sources[..k - 1];
      var before, added := DraftedSpans(faces[..k - 1], sources[..k - 1]), FaceSpans(faces[k - 1], k - 1, sources[k - 1].lines);
      FaceSpansCover(faces[k - 1], k - 1, sources[k - 1].lines, ids);
      forall f, l ensures CoveredBy(before + added, |before + added|, ids, f, l) <==> Claimed(ids, sources, k, f, l) {
        CoveredConcat(before, added, ids, f, l);
        ClaimedStep(ids, sources, k, f, l);
      }
      if NoEarlierTwin(ids, sources) {
        forall f, l ensures !(CoveredBy(before, |before|, ids, f, l) && CoveredBy(added, |added|, ids, f, l)) {
          ClaimedOnce(ids, sources, k, f, l);
        }
        OverlapConcat(before, added, ids);
      }
    }
  }

  lemma ClaimedStep(ids: seq<Json>, sources: seq<SourceFace>, k: nat, f: int, l: int)
    requires 0 < k <= |ids| == |sources|
    ensures Claimed(ids, sources, k, f, l)
            <==> Claimed(ids, sources, k - 1, f, l) || (IndexOf(ids, ids[k - 1]) == f && 1 <= l <= sources[k - 1].lines)
  {
    hide IndexOf;
    if Claimed(ids, sources, k - 1, f, l) {
      var i :| 0 <= i < k - 1 && IndexOf(ids, ids[i]) == f && 1 <= l <= sources[i].lines;
      assert 0 <= i < k;
    }
  }

  lemma ClaimedOnce(ids: seq<Json>, sources: seq<SourceFace>, k: nat, f: int, l: int)
    requires 0 < k <= |ids| == |sources| && NoEarlierTwin(ids, sources)
    ensures !(Claimed(ids, sources, k - 1, f, l) && IndexOf(ids, ids[k - 1]) == f && 1 <= l <= sources[k - 1].lines)
  {
    hide IndexOf;
    forall i | 0 <= i < k - 1 && IndexOf(ids, ids[i]) == f
      ensures IndexOf(ids, ids[k - 1]) != f || sources[k - 1].lines < 1
    {
      assert IndexOf(ids, ids[k - 1]) == f ==> ids[i] == ids[f] == ids[k - 1];
    }
  }

  /** The drafted spans partition the source lines if and only if no face with a line repeats an earlier id. */
  lemma DraftPartitions(faces: seq<Json>, sources: seq<SourceFace>)
    requires |faces| == |sources|
    ensures ExactPartition(DraftedSpans(faces, sources), Ids(faces), Expected(sources))
            <==> NoEarlierTwin(Ids(faces), sources)
  {
    hide IndexOf, CoveredBy, NoOverlap, Expected, DraftedSpans;
    var ids, spans, expected := Ids(faces), DraftedSpans(faces, sources), Expected(sources);
    assert faces[..|faces|] == faces && sources[..|sources|] == sources;
    DraftCovers(faces, sources, |faces|);
    ExpectedIs(sources);
    if NoEarlierTwin(ids, sources) {
      forall f, l ensures (f, l) in expected <==> Claimed(ids, sources, |ids|, f, l) {
        if 0 <= f < |ids| && 1 <= l <= sources[f].lines { FirstOccurrence(ids, sources, f); }
        if Claimed(ids, sources, |ids|, f, l) {
          var i :| 0 <= i < |ids| && IndexOf(ids, ids[i]) == f && 1 <= l <= sources[i].lines;
          FirstOccurrence(ids, sources, i);
        }
      }
    }
    if ExactPartition(spans, ids, expected) {
      forall i, j | 0 <= i < j < |ids| && sources[j].lines >= 1 ensures ids[i] != ids[j] {
        assert (j, 1) in expected;
        assert Claimed(ids, sources, |ids|, j, 1);
      }
    }
  }

  lemma FirstOccurrence(ids: seq<Json>, sources: seq<SourceFace>, j: nat)
    requires j < |ids| == |sources| && NoEarlierTwin(ids, sources) && sources[j].lines >= 1
    ensures IndexOf(ids, ids[j]) == j
  {
    hide IndexOf;
    assert IndexOf(ids, ids[j]) <= j;
  }

  // ----- drafts are accepted -----

  /** Some node of the face claims that line. */
  predicate LineClaimed(face: Json, i: nat, n: int) { Claimants(Sites(face, FacePointer(i)), n) != [] }

  /** Every line of each of the first k faces is claimed. */
  ghost predicate AllLinesClaimed(faces: seq<Json>, sources: seq<SourceFace>, k: nat)
    requires k <= |faces| == |sources|
  {
    forall i, n :: 0 <= i < k && 1 <= n <= sources[i].lines ==> LineClaimed(faces[i], i, n)
  }

  lemma {:induction false} ClaimantsAreSites(sites: seq<Site>, line: int)
    ensures forall pointer <- Claimants(sites, line) :: exists s <- sites :: s.pointer == pointer && Claims(s.value, line)
    decreases |sites|
  {
    if sites != [] {
      hide Claims;
      var n := |sites| - 1;
      ClaimantsAreSites(sites[..n], line);
      forall pointer | pointer in Claimants(sites, line)
        ensures exists s <- sites :: s.pointer == pointer && Claims(s.value, line)
      {
        if pointer in Claimants(sites[..n], line) {
          var s :| s in sites[..n] && s.pointer == pointer && Claims(s.value, line);
          assert s in sites;
        } else {
          assert sites[n] in sites;
        }
      }
    }
  }

  /** A drafted span is valid if and only if its line is claimed. */
  lemma SpanOfLine(typed: Json, i: nat, n: int)
    requires IsJson(typed) && i < |Faces(typed)|
    ensures var paths := Claimants(Sites(Faces(typed)[i], FacePointer(i)), n);
            SpanValid(Span(FaceId(Faces(typed)[i]), n, n, AsTexts(paths)), Ids(Faces(typed)), typed) <==> paths != []
  {
    hide Faces, Sites, Claimants, Resolve, IsPointer, IsJson, FacePointer, FaceId;
    var face := Faces(typed)[i];
    var sites := Sites(face, FacePointer(i));
    var paths := Claimants(sites, n);
    assert Ids(Faces(typed))[i] == FaceId(face);
    FaceResolves(typed, i);
    SitesResolve(typed, face, FacePointer(i));
    ClaimantsAreSites(sites, n);
    forall pointer | pointer in AsTexts(paths) ensures Resolves(typed, pointer) {
      assert pointer.text in paths;
      var s :| s in sites && s.pointer == pointer.text;
      assert ResolvesTo(typed, s);
    }
  }

  ghost predicate SpansValid(spans: seq<Span>, typed: Json) {
    forall span <- spans :: SpanValid(span, Ids(Faces(typed)), typed)
  }

  lemma SpansValidConcat(a: seq<Span>, b: seq<Span>, typed: Json)
    ensures SpansValid(a + b, typed) <==> SpansValid(a, typed) && SpansValid(b, typed)
  {
    hide SpanValid, Faces, Ids;
    assert forall span <- a + b :: span in a || span in b;
    assert forall span <- a :: span in a + b;
    assert forall span <- b :: span in a + b;
  }

  lemma FewSpansValid(span: Span, typed: Json)
    ensures SpansValid([], typed) && (SpansValid([span], typed) <==> SpanValid(span, Ids(Faces(typed)), typed))
  {
    hide SpanValid;
    assert span in [span];
  }

  function LineSpan(face: Json, i: nat, n: int): Span {
    Span(FaceId(face), n, n, AsTexts(Claimants(Sites(face, FacePointer(i)), n)))
  }

  lemma OneMoreLine(face: Json, i: nat, n: nat)
    requires n > 0
    ensures FaceSpans(face, i, n) == FaceSpans(face, i, n - 1) + [LineSpan(face, i, n)]
  {}

  lemma LineSpanValid(typed: Json, i: nat, n: int)
    requires IsJson(typed) && i < |Faces(typed)|
    ensures SpansValid([LineSpan(Faces(typed)[i], i, n)], typed) <==> LineClaimed(Faces(typed)[i], i, n)
  {
    hide SpanValid, SpansValid, Faces, Sites, Claimants, IsJson, FacePointer, FaceId, Ids;
    SpanOfLine(typed, i, n);
    FewSpansValid(LineSpan(Faces(typed)[i], i, n), typed);
  }

  lemma {:induction false} FaceSpansValid(typed: Json, i: nat, n: nat)
    requires IsJson(typed) && i < |Faces(typed)|
    ensures SpansValid(FaceSpans(Faces(typed)[i], i, n), typed)
            <==> forall k :: 1 <= k <= n ==> LineClaimed(Faces(typed)[i], i, k)
    decreases n
  {
    hide SpansValid, Faces, LineClaimed, IsJson, LineSpan;
    if n > 0 {
      FaceSpansValid(typed, i, n - 1);
      OneMoreLine(Faces(typed)[i], i, n);
      LineSpanValid(typed, i, n);
      SpansValidConcat(FaceSpans(Faces(typed)[i], i, n - 1), [LineSpan(Faces(typed)[i], i, n)], typed);
    } else {
      FewSpansValid(Span(Other("null"), 0, 0, []), typed);
    }
  }

  lemma {:induction false} DraftedSpansValid(typed: Json, sources: seq<SourceFace>, k: nat)
    requires IsJson(typed) && |Faces(typed)| == |sources| && k <= |sources|
    ensures SpansValid(DraftedSpans(Faces(typed)[..k], sources[..k]), typed)
            <==> AllLinesClaimed(Faces(typed), sources, k)
    decreases k
  {
    hide SpanValid, SpansValid, Faces, LineClaimed, IsJson, FaceId, Ids, FaceSpans;
    var faces := Faces(typed);
    if k > 0 {
      DraftedSpansValid(typed, sources, k - 1);
      FaceSpansValid(typed, k - 1, sources[k - 1].lines);
      assert faces[..k][..k - 1] == faces[..k - 1] && sources[..k][..k - 1] == sources[..k - 1];
      SpansValidConcat(DraftedSpans(faces[..k - 1], sources[..k - 1]),
                       FaceSpans(faces[k - 1], k - 1, sources[k - 1].lines), typed);
    } else {
      assert faces[..0] == [] && sources[..0] == [];
      FewSpansValid(Span(Other("null"), 0, 0, []), typed);
    }
  }

  /**
   The draft passes the validator, against the very tree it was drafted from, if and only if every line was
   claimed and no face with a line repeats the id of an earlier one.
   */
  lemma DraftIsAccepted(typed: Json, sources: seq<SourceFace>)
    requires IsJson(typed) && |Faces(typed)| == |sources|
    ensures MapAccepted(DraftedSpans(Faces(typed), sources), Ids(Faces(typed)), Expected(sources), typed)
            <==> AllLinesClaimed(Faces(typed), sources, |sources|) && NoEarlierTwin(Ids(Faces(typed)), sources)
  {
    hide SpanValid, Faces, LineClaimed, IsJson, FaceId, Ids, FaceSpans, ExactPartition, DraftedSpans, Expected;
    assert Faces(typed)[..|sources|] == Faces(typed) && sources[..|sources|] == sources;
    DraftedSpansValid(typed, sources, |sources|);
    DraftPartitions(Faces(typed), sources);
  }
}
