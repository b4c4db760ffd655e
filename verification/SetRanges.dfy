/**
 What scanSetRanges is to return, as a simple reader of the syntax tree: no cursors, no bounds and no
 budgets, only the members of three levels of objects with the offsets at which their values stand.
 */
module SetRanges {
  import opened Bytes
  import opened JsonGrammar
  import opened JsonReader
  import opened JsonTheorems

  const MAX_NESTING_DEPTH: nat := 1024

  datatype SetRange = SetRange(
    start: int, length: nat, cardCount: nat, code: units, name: units, setType: units, releaseDate: units)

  /** A member and the offset of its value in the document. */
  datatype Placed = Placed(member: Member, at: nat)

  const DATA_KEY: units := [0x64, 0x61, 0x74, 0x61]
  const CODE_KEY: units := [0x63, 0x6F, 0x64, 0x65]
  const NAME_KEY: units := [0x6E, 0x61, 0x6D, 0x65]
  const TYPE_KEY: units := [0x74, 0x79, 0x70, 0x65]
  const RELEASE_DATE_KEY: units := [0x72, 0x65, 0x6C, 0x65, 0x61, 0x73, 0x65, 0x44, 0x61, 0x74, 0x65]
  const CARDS_KEY: units := [0x63, 0x61, 0x72, 0x64, 0x73]

  function PlaceFrom(ms: Members, p: nat): seq<Placed> {
    var first := [Placed(ms.head, ValueAt(p, ms.head))];
    if ms.MoreMembers? then first + PlaceFrom(ms.tail, p + |MemberText(ms.head)| + 1) else first
  }

  /** The members of the value that stands at offset at; none unless it is an object. */
  function MembersOf(v: Value, at: nat): seq<Placed> {
    if v.Object? then PlaceFrom(v.members, at + 1) else []
  }

  function ElementCount(es: Elements): nat {
    if es.MoreElements? then 1 + ElementCount(es.tail) else 1
  }

  function Count(v: Value): nat {
    if v.Array? then ElementCount(v.elements) else 0
  }

  // ----- one set -----

  function WithField(r: SetRange, m: Member, utf8: Utf8Decoder): SetRange {
    var key := Decode(m.key, utf8);
    if key == CARDS_KEY then
      if IsArray(m.value) then r.(cardCount := Count(m.value)) else r
    else if !m.value.Str? then r
    else
      var text := Decode(m.value.items, utf8);
      if key == CODE_KEY then r.(code := text)
      else if key == NAME_KEY then r.(name := text)
      else if key == TYPE_KEY then r.(setType := text)
      else if key == RELEASE_DATE_KEY then r.(releaseDate := text)
      else r
  }

  function WithFields(r: SetRange, fields: seq<Placed>, utf8: Utf8Decoder): SetRange
    decreases |fields|
  {
    if fields == [] then r else WithFields(WithField(r, fields[0].member, utf8), fields[1..], utf8)
  }

  function FreshRange(entry: Placed, utf8: Utf8Decoder): SetRange {
    SetRange(entry.at, |Text(entry.member.value)|, 0, Decode(entry.member.key, utf8), [], [], [])
  }

  /** The range of a set: its slice, its key as default code, and what its members say. */
  function RangeOf(entry: Placed, utf8: Utf8Decoder): SetRange {
    WithFields(FreshRange(entry, utf8), MembersOf(entry.member.value, entry.at), utf8)
  }

  // ----- a "data" object, and the document -----

  function RangesOf(sets: seq<Placed>, utf8: Utf8Decoder): seq<SetRange>
    decreases |sets|
  {
    if sets == [] then [] else [RangeOf(sets[0], utf8)] + RangesOf(sets[1..], utf8)
  }

  predicate IsData(m: Placed, utf8: Utf8Decoder) {
    Decode(m.member.key, utf8) == DATA_KEY
  }

  predicate AllObjects(sets: seq<Placed>) {
    forall i :: 0 <= i < |sets| ==> IsObject(sets[i].member.value)
  }

  predicate IsObjectOfObjects(v: Value, at: nat) {
    IsObject(v) && AllObjects(MembersOf(v, at))
  }

  /** Every member called "data" is an object of objects. */
  predicate DataWellShaped(members: seq<Placed>, utf8: Utf8Decoder) {
    forall i :: 0 <= i < |members| && IsData(members[i], utf8) ==>
      IsObjectOfObjects(members[i].member.value, members[i].at)
  }

  predicate HasData(members: seq<Placed>, utf8: Utf8Decoder) {
    exists i :: 0 <= i < |members| && IsData(members[i], utf8)
  }

  /** The ranges of every "data" member, in document order. */
  function AllRanges(members: seq<Placed>, utf8: Utf8Decoder): seq<SetRange>
    decreases |members|
  {
    if members == [] then []
    else
      DataRanges(members[0], utf8) + AllRanges(members[1..], utf8)
  }

  datatype Document = Document(before: bytes, root: Value, after: bytes)

  /** The document is one object, nested at most 1024 deep, between optional whitespace. */
  ghost predicate IsDocument(json: bytes, d: Document) {
    && json == d.before + (Text(d.root) + d.after)
    && AllWhitespace(d.before) && AllWhitespace(d.after)
    && WellFormed(d.root) && IsObject(d.root) && Depth(d.root) <= MAX_NESTING_DEPTH
  }

  function TopMembers(d: Document): seq<Placed> {
    MembersOf(d.root, |d.before|)
  }

  ghost predicate IsImportable(d: Document, utf8: Utf8Decoder) {
    && HasData(TopMembers(d), utf8)
    && DataWellShaped(TopMembers(d), utf8)
    && AllRanges(TopMembers(d), utf8) != []
  }

  ghost predicate Accepts(json: bytes, utf8: Utf8Decoder) {
    exists d :: IsDocument(json, d) && IsImportable(d, utf8)
  }

  // ----- members appended one at a time -----

  lemma {:induction false} WithFieldsAppend(r: SetRange, fields: seq<Placed>, m: Placed, utf8: Utf8Decoder)
    ensures WithFields(r, fields + [m], utf8) == WithField(WithFields(r, fields, utf8), m.member, utf8)
    decreases |fields|
  {
    if fields != [] {
      assert (fields + [m])[1..] == fields[1..] + [m];
      WithFieldsAppend(WithField(r, fields[0].member, utf8), fields[1..], m, utf8);
    }
  }

  lemma {:induction false} RangesOfAppend(sets: seq<Placed>, m: Placed, utf8: Utf8Decoder)
    ensures RangesOf(sets + [m], utf8) == RangesOf(sets, utf8) + [RangeOf(m, utf8)]
    decreases |sets|
  {
    if sets != [] {
      assert (sets + [m])[1..] == sets[1..] + [m];
      RangesOfAppend(sets[1..], m, utf8);
    }
  }

  /** The ranges one top-level member contributes. */
  function DataRanges(m: Placed, utf8: Utf8Decoder): seq<SetRange> {
    if IsData(m, utf8) then RangesOf(MembersOf(m.member.value, m.at), utf8) else []
  }

  lemma {:induction false} AllRangesAppend(members: seq<Placed>, m: Placed, utf8: Utf8Decoder)
    ensures AllRanges(members + [m], utf8) == AllRanges(members, utf8) + DataRanges(m, utf8)
    decreases |members|
  {
    if members != [] {
      assert (members + [m])[1..] == members[1..] + [m];
      AllRangesAppend(members[1..], m, utf8);
    }
  }

  // ----- documents and the reader -----

  /** The parts of a document, each at its place. */
  lemma DocumentPlaces(json: bytes, d: Document)
    requires IsDocument(json, d)
    ensures var n, w := |json|, |d.before|;
            var q := w + |Text(d.root)|;
            && At(json, 0, n, d.before) && At(json, w, n, Text(d.root)) && At(json, q, n, d.after)
            && w < q && q + |d.after| == n && json[w] == LBRACE
  {
    hide At, WellFormed, Depth, Text;
    var n, w := |json|, |d.before|;
    AtIsSlice(json, 0, n, json);
    AtConcat(json, 0, n, d.before, Text(d.root) + d.after);
    AtConcat(json, w, n, Text(d.root), d.after);
    ObjectText(d.root);
    AtByte(json, w, n, Text(d.root), 0);
  }

  lemma BlanksDelimit(s: bytes, q: nat, end: nat, blanks: bytes)
    requires AllWhitespace(blanks) && At(s, q, end, blanks) && q + |blanks| == end
    ensures WsEnd(s, q, end) == end && Delimited(s, q, end)
  {
    hide At, WsEnd;
    AtIsSlice(s, q, end, blanks);
    WsRun(s, q, end, blanks);
    if blanks != [] { AtByte(s, q, end, blanks, 0); }
  }

  /** A document is what the reader finds between two runs of whitespace. */
  lemma DocumentIsRead(json: bytes, d: Document)
    requires IsDocument(json, d)
    ensures var w := |d.before|;
            && WsEnd(json, 0, |json|) == w < |json| && json[w] == LBRACE
            && ReadValue(json, w, |json|, MAX_NESTING_DEPTH) == Read(d.root, w + |Text(d.root)|)
            && WsEnd(json, w + |Text(d.root)|, |json|) == |json|
  {
    hide At, ReadValue, WellFormed, Depth, WsEnd, Stops, Text, AllWhitespace, Delimited, IsWhitespace;
    var n, w := |json|, |d.before|;
    var q := w + |Text(d.root)|;
    DocumentPlaces(json, d);
    BlanksEnd(json, w, d.before);
    BlanksDelimit(json, q, n, d.after);
    DelimitedStops(d.root, json, q, n);
    ReadValueComplete(json, w, n, MAX_NESTING_DEPTH, d.root);
  }

  lemma BlanksEnd(json: bytes, w: nat, blanks: bytes)
    requires AllWhitespace(blanks) && At(json, 0, |json|, blanks) && w == |blanks| < |json| && json[w] == LBRACE
    ensures WsEnd(json, 0, |json|) == w
  {
    hide At, WsEnd, AllWhitespace;
    WsRun(json, 0, |json|, blanks);
  }

  lemma ObjectText(v: Value)
    requires IsObject(v)
    ensures |Text(v)| > 0 && Text(v)[0] == LBRACE
  {}

  lemma WsSlice(s: bytes, p: nat, end: nat)
    requires p <= end <= |s|
    ensures AllWhitespace(s[p..WsEnd(s, p, end)])
  {}

  lemma ReadIsDocument(json: bytes, w: nat, v: Value, q: nat)
    requires w <= |json| && WsEnd(json, 0, |json|) == w
    requires ReadValue(json, w, |json|, MAX_NESTING_DEPTH) == Read(v, q) && IsObject(v)
    requires q <= |json| && WsEnd(json, q, |json|) == |json|
    ensures IsDocument(json, Document(json[..w], v, json[q..]))
  {
    hide ReadValue, WellFormed, Depth, Text, Stops, WsEnd, AllWhitespace, IsObject;
    ReadValueSound(json, w, |json|, MAX_NESTING_DEPTH);
    WsSlice(json, 0, |json|);
    WsSlice(json, q, |json|);
    assert json[0..w] == json[..w] && json[q..|json|] == json[q..];
    assert json == json[..w] + (json[w..q] + json[q..]);
  }

  /** A document has one reading. */
  lemma DocumentIsUnique(json: bytes, d: Document, d': Document)
    requires IsDocument(json, d) && IsDocument(json, d')
    ensures d == d'
  {
    hide ReadValue, WellFormed, Depth;
    DocumentIsRead(json, d);
    DocumentIsRead(json, d');
    assert d.before == json[..|d.before|] && d'.before == json[..|d'.before|];
    var q := |d.before| + |Text(d.root)|;
    assert d.after == json[q..] && d'.after == json[q..];
  }
}