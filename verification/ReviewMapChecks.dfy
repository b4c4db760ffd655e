/** validate_maps of scripts/authoring-batch.py: a review map must cover every source line exactly once. */
module ReviewMapChecks {
  import opened Strings
  import opened JsonPointers
  import opened ReviewMaps

  /** Does the span cover that line of that face? */
  predicate Covers(span: Span, ids: seq<Json>, face: int, line: int) {
    face == IndexOf(ids, span.faceId) && span.start <= line <= span.end
  }

  /** list.index, or the length. */
  function IndexOf(ids: seq<Json>, id: Json): (i: nat)
    ensures i <= |ids| && (i < |ids| <==> id in ids) && (i < |ids| ==> ids[i] == id)
    ensures forall k :: 0 <= k < i ==> ids[k] != id
  {
    if ids == [] || ids[0] == id then 0 else 1 + IndexOf(ids[1..], id)
  }

  predicate Resolves(typed: Json, pointer: Json) {
    pointer.Text? && IsPointer(pointer.text) && Resolve(typed, pointer.text).Some?
  }

  /** The demands on a span by itself. */
  predicate SpanValid(span: Span, ids: seq<Json>, typed: Json) {
    && span.faceId in ids && span.start <= span.end && span.typedPaths != []
    && forall pointer <- span.typedPaths :: Resolves(typed, pointer)
  }

  /** Does one of the first n spans cover it? */
  ghost predicate CoveredBy(spans: seq<Span>, n: nat, ids: seq<Json>, face: int, line: int)
    requires n <= |spans|
  {
    exists k :: 0 <= k < n && Covers(spans[k], ids, face, line)
  }

  /** No line is covered by two of the first n spans. */
  ghost predicate NoOverlap(spans: seq<Span>, n: nat, ids: seq<Json>)
    requires n <= |spans|
  {
    forall i, j, face, line :: 0 <= i < j < n && Covers(spans[i], ids, face, line) ==> !Covers(spans[j], ids, face, line)
  }

  /** The spans cover exactly the expected lines, and none of them twice. */
  ghost predicate ExactPartition(spans: seq<Span>, ids: seq<Json>, expected: set<(int, int)>) {
    && (forall face, line :: (face, line) in expected <==> CoveredBy(spans, |spans|, ids, face, line))
    && NoOverlap(spans, |spans|, ids)
  }

  ghost predicate MapAccepted(spans: seq<Span>, ids: seq<Json>, expected: set<(int, int)>, typed: Json) {
    (forall span <- spans :: SpanValid(span, ids, typed)) && ExactPartition(spans, ids, expected)
  }

  predicate Free(face: int, line: int, expected: set<(int, int)>, covered: set<(int, int)>) {
    (face, line) in expected && (face, line) !in covered
  }

  /** The inner loop over the lines of a span. */
  method CoverSpan(span: Span, ids: seq<Json>, expected: set<(int, int)>, covered: set<(int, int)>)
    returns (ok: bool, next: set<(int, int)>)
    requires span.start <= span.end
    ensures ok <==> forall line :: span.start <= line <= span.end ==> Free(IndexOf(ids, span.faceId), line, expected, covered)
    ensures ok ==> forall face, line :: (face, line) in next <==> (face, line) in covered || Covers(span, ids, face, line)
  {
    var face := IndexOf(ids, span.faceId);
    next := covered;
    for line := span.start to span.end + 1
      invariant forall l :: span.start <= l < line ==> Free(face, l, expected, covered)
      invariant forall f, l :: (f, l) in next <==> (f, l) in covered || (f == face && span.start <= l < line)
    {
      if (face, line) !in expected || (face, line) in next {
        assert span.start <= line <= span.end && !Free(IndexOf(ids, span.faceId), line, expected, covered);
        return false, next;
      }
      next := next + {(face, line)};
    }
    return true, next;
  }

  method PathsResolve(paths: seq<Json>, typed: Json) returns (ok: bool)
    ensures ok <==> forall pointer <- paths :: Resolves(typed, pointer)
  {
    hide Resolve, IsPointer;
    for i := 0 to |paths|
      invariant forall pointer <- paths[..i] :: Resolves(typed, pointer)
    {
      assert paths[i] in paths;
      if !paths[i].Text? { return false; }
      var node := ResolvePointer(typed, paths[i].text);
      if node.None? { return false; }
      assert paths[..i + 1] == paths[..i] + [paths[i]];
    }
    assert paths[..|paths|] == paths;
    return true;
  }

  /** validate_maps on one map: it accepts exactly the maps whose spans are valid and partition the lines. */
  method ValidateMap(spans: seq<Span>, ids: seq<Json>, expected: set<(int, int)>, typed: Json) returns (ok: bool)
    ensures ok <==> MapAccepted(spans, ids, expected, typed)
  {
    hide Covers, Resolves, CoveredBy, NoOverlap;
    var covered: set<(int, int)> := {};
    NothingCovered(spans, ids);
    for i := 0 to |spans|
      invariant forall k :: 0 <= k < i ==> SpanValid(spans[k], ids, typed)
      invariant forall face, line :: (face, line) in covered <==> CoveredBy(spans, i, ids, face, line)
      invariant covered <= expected && NoOverlap(spans, i, ids)
    {
      var span := spans[i];
      assert span in spans;
      if span.faceId !in ids || span.start > span.end || span.typedPaths == [] { return false; }
      var fits, next := CoverSpan(span, ids, expected, covered);
      if !fits {
        SpanDoesNotFit(spans, i, ids, expected, covered);
        return false;
      }
      var resolved := PathsResolve(span.typedPaths, typed);
      if !resolved { return false; }
      SpanFits(spans, i, ids, expected, covered, next);
      covered := next;
    }
    EndOfSpans(spans, ids, expected, typed, covered);
    return covered == expected;
  }

  lemma NothingCovered(spans: seq<Span>, ids: seq<Json>)
    ensures NoOverlap(spans, 0, ids) && forall face, line :: !CoveredBy(spans, 0, ids, face, line)
  {}

  lemma EndOfSpans(spans: seq<Span>, ids: seq<Json>, expected: set<(int, int)>, typed: Json, covered: set<(int, int)>)
    requires covered <= expected && NoOverlap(spans, |spans|, ids)
    requires forall face, line :: (face, line) in covered <==> CoveredBy(spans, |spans|, ids, face, line)
    ensures covered == expected <==> ExactPartition(spans, ids, expected)
  {
    hide CoveredBy, NoOverlap;
    if ExactPartition(spans, ids, expected) {
      forall key | key in expected ensures key in covered {
        assert (key.0, key.1) in expected;
        assert CoveredBy(spans, |spans|, ids, key.0, key.1);
      }
    }
  }

  lemma SpanDoesNotFit(spans: seq<Span>, i: nat, ids: seq<Json>, expected: set<(int, int)>, covered: set<(int, int)>)
    requires i < |spans|
    requires forall face, line :: (face, line) in covered <==> CoveredBy(spans, i, ids, face, line)
    requires exists line :: spans[i].start <= line <= spans[i].end && !Free(IndexOf(ids, spans[i].faceId), line, expected, covered)
    ensures !ExactPartition(spans, ids, expected)
  {
    var face := IndexOf(ids, spans[i].faceId);
    var line :| spans[i].start <= line <= spans[i].end && !Free(face, line, expected, covered);
    assert Covers(spans[i], ids, face, line);
    assert CoveredBy(spans, |spans|, ids, face, line);
  }

  lemma SpanFits(spans: seq<Span>, i: nat, ids: seq<Json>, expected: set<(int, int)>, covered: set<(int, int)>,
                 next: set<(int, int)>)
    requires i < |spans| && NoOverlap(spans, i, ids) && covered <= expected
    requires forall face, line :: (face, line) in covered <==> CoveredBy(spans, i, ids, face, line)
    requires forall line :: spans[i].start <= line <= spans[i].end ==> Free(IndexOf(ids, spans[i].faceId), line, expected, covered)
    requires forall face, line :: (face, line) in next <==> (face, line) in covered || Covers(spans[i], ids, face, line)
    ensures forall face, line :: (face, line) in next <==> CoveredBy(spans, i + 1, ids, face, line)
    ensures next <= expected && NoOverlap(spans, i + 1, ids)
  {
    hide IndexOf;
    forall face, line ensures CoveredBy(spans, i + 1, ids, face, line)
                              <==> CoveredBy(spans, i, ids, face, line) || Covers(spans[i], ids, face, line) {
      if CoveredBy(spans, i, ids, face, line) {
        var k :| 0 <= k < i && Covers(spans[k], ids, face, line);
        assert 0 <= k < i + 1;
      }
    }
    forall key | key in next ensures key in expected {
      assert key == (key.0, key.1);
      if key !in covered {
        assert Covers(spans[i], ids, key.0, key.1);
        assert Free(key.0, key.1, expected, covered);
      }
    }
    forall k, face, line | 0 <= k < i && Covers(spans[k], ids, face, line) ensures !Covers(spans[i], ids, face, line) {
      assert CoveredBy(spans, i, ids, face, line);
      assert !Free(face, line, expected, covered);
    }
  }
}
