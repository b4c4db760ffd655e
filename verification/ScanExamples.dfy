/** The documents that are reported most often: one that is accepted, and one that is refused for want of data. */
module ScanExamples {
  import opened Bytes
  import opened JsonGrammar
  import opened JsonTheorems
  import opened SetRanges
  import opened ScanOffers
  import opened ScanProgress
  import opened SetScanner
  import opened ScanReports
  import opened JsonStrings

  const ZERO: Value := Numeral(Number(false, [0x30], NoFraction, NoExponent))
  const DATA_BYTES: bytes := [0x64, 0x61, 0x74, 0x61]
  const DATA_ITEMS: seq<Item> := Raws(DATA_BYTES)

  /** That many zeros, with these blanks after the last. */
  function Zeros(k: nat, after: bytes): Elements
    requires k >= 1
  {
    if k == 1 then LastElement(Element([], ZERO, after)) else MoreElements(Element([], ZERO, []), Zeros(k - 1, after))
  }

  /** An object of one member. */
  function Only(key: seq<Item>, v: Value): Value { Object(LastMember(Member([], key, [], [], v, []))) }

  /** Every other offset. */
  function Run(a: nat, k: nat): seq<nat> { seq(k, (i: nat) => a + 2 * i) }

  lemma ZeroIs()
    ensures WellFormed(ZERO) && Depth(ZERO) == 0 && |Text(ZERO)| == 1 && forall p :: Offers(ZERO, p) == []
  {
    assert AllDigits([0x30]);
  }

  lemma {:induction false} ZerosAre(k: nat, after: bytes, p: nat)
    requires k >= 1 && AllWhitespace(after)
    ensures WellFormedElements(Zeros(k, after)) && ElementsDepth(Zeros(k, after)) == 0
    ensures |ElementsText(Zeros(k, after))| == 2 * k + |after|
    ensures ElementsOffers(Zeros(k, after), p) == Run(p + 1, k)
    decreases k
  {
    hide Text, Depth, Offers, WellFormed, ElementOffers, ElementLength;
    ZeroIs();
    OneZero(after, p);
    OneZero([], p);
    if k > 1 {
      ZerosAre(k - 1, after, p + 2);
      assert Run(p + 1, k) == [p + 1] + Run(p + 3, k - 1);
    } else {
      assert Run(p + 1, 1) == [p + 1] + [];
    }
  }

  lemma OneZero(after: bytes, p: nat)
    ensures ElementOffers(Element([], ZERO, after), p) == [p + 1] && ElementLength(Element([], ZERO, after)) == 1 + |after|
  {
    hide Text, Offers;
    ZeroIs();
    assert [] + [p + 1] == [p + 1];
  }

  lemma OnlyIs(key: seq<Item>, v: Value, at: nat)
    requires WellFormed(v) && AreItems(key)
    ensures WellFormed(Only(key, v)) && Depth(Only(key, v)) == 1 + Depth(v)
    ensures |Text(Only(key, v))| == |StringText(key)| + |Text(v)| + 3
    ensures var m := Placed(Member([], key, [], [], v, []), at + |StringText(key)| + 2);
            && MembersOf(Only(key, v), at) == [m]
            && Offers(Only(key, v), at) == Offers(v, m.at) + [m.at + |Text(v)|]
  {
    hide Text, Depth, Offers, WellFormed, StringText;
    OnlyShape(key, v);
    OnlyOffers(key, v, at);
  }

  lemma OnlyShape(key: seq<Item>, v: Value)
    requires WellFormed(v) && AreItems(key)
    ensures WellFormed(Only(key, v)) && Depth(Only(key, v)) == 1 + Depth(v)
    ensures |Text(Only(key, v))| == |StringText(key)| + |Text(v)| + 3
  {
    hide StringText;
    var m := Member([], key, [], [], v, []);
    assert AllWhitespace([]) && WellFormedMember(m);
    assert |MemberText(m)| == |StringText(key)| + 1 + |Text(v)|;
    assert |MembersText(LastMember(m))| == |MemberText(m)| + 1;
  }

  lemma OnlyOffers(key: seq<Item>, v: Value, at: nat)
    ensures Offers(Only(key, v), at)
            == Offers(v, at + |StringText(key)| + 2) + [at + |StringText(key)| + 2 + |Text(v)|]
  {
    hide Text, StringText;
    var m := Member([], key, [], [], v, []);
    assert ValueAt(at + 1, m) == at + |StringText(key)| + 2;
    assert MemberOffers(m, at + 1) + [] == MemberOffers(m, at + 1);
  }

  // ----- what is reported -----

  lemma OneMoreOffset(a: nat, k: nat)
    requires k > 0
    ensures Run(a, k) == Run(a, k - 1) + [a + 2 * (k - 1)]
    ensures k > 1 ==> Run(a, k - 1) != [] && Run(a, k - 1)[|Run(a, k - 1)| - 1] == a + 2 * (k - 2)
  {}

  lemma EveryOtherIsDue(before: seq<nat>, offset: nat, size: nat)
    requires 200 <= size < 300 && offset <= size && Previous(before, |before|) + 2 <= offset
    ensures ReportedAfter(before, offset, size) == before + [offset]
  {}

  lemma {:induction false} RunReported(a: nat, k: nat, size: nat)
    requires 200 <= size < 300 && a >= 2 && a + 2 * k <= size + 2
    ensures Filtered(Run(a, k), size) == Run(a, k)
    decreases k
  {
    if k > 0 {
      hide Run, Filtered, ReportedAfter;
      RunReported(a, k - 1, size);
      OneMoreOffset(a, k);
      FilteredAppend(Run(a, k - 1), a + 2 * (k - 1), size);
      RunIsShort(a);
      EveryOtherIsDue(Run(a, k - 1), a + 2 * (k - 1), size);
    }
  }

  lemma RunIsShort(a: nat)
    ensures Run(a, 0) == []
  {}

  /** Offsets that have been passed are not reported again. */
  lemma {:induction false} PassedOffers(offers: seq<nat>, again: seq<nat>, size: nat)
    requires var r := Filtered(offers, size);
             r != [] && forall offset <- again :: offset <= r[|r| - 1] && offset < size
    ensures Filtered(offers + again, size) == Filtered(offers, size)
    decreases |again|
  {
    if again == [] {
      assert offers + again == offers;
    } else {
      var n := |again| - 1;
      assert offers + again == (offers + again[..n]) + [again[n]];
      assert again[n] in again && forall offset <- again[..n] :: offset in again;
      PassedOffers(offers, again[..n], size);
      FilteredAppend(offers + again[..n], again[n], size);
    }
  }

  // ----- a refused document with 146 reports -----

  function Refused(): Value { Only([], Array(Zeros(146, []))) }

  lemma ArrayIs(k: nat, after: bytes, at: nat)
    requires k >= 1 && AllWhitespace(after)
    ensures var v := Array(Zeros(k, after));
            && WellFormed(v) && Depth(v) == 1 && |Text(v)| == 2 * k + |after| + 1 && Offers(v, at) == Run(at + 2, k)
  {
    hide Zeros, Run, WellFormedElements, ElementsDepth, ElementsText, ElementsOffers;
    ZerosAre(k, after, at + 1);
  }

  lemma EmptyKey(utf8: Utf8Decoder)
    ensures Decode([], utf8) == [] && |StringText([])| == 2 && DATA_KEY != [] && CARDS_KEY != []
  {}

  lemma RefusedWith146Reports(utf8: Utf8Decoder) returns (json: bytes, d: Document)
    ensures IsDocument(json, d) && Diagnosis(d, utf8).MissingData?
    ensures |Filtered(DocumentOffers(json, d, utf8), |json|)| == 146
  {
    hide Text, Depth, Offers, WellFormed, Zeros, Run, Filtered, Decode, StringText, Only;
    var v := Array(Zeros(146, []));
    json, d := Text(Refused()), Document([], Refused(), []);
    ArrayIs(146, [], 4);
    EmptyKey(utf8);
    OnlyIs([], v, 0);
    assert json == [] + (json + []);
    var members := TopMembers(d);
    assert members[..0] == [];
    assert WalkOffers(members, utf8) == Run(6, 146);
    assert DocumentOffers(json, d, utf8) == Run(6, 146);
    RunReported(6, 146, 298);
    RunLength(6, 146);
  }

  lemma RunLength(a: nat, k: nat)
    ensures |Run(a, k)| == k && forall x <- Run(a, k) :: a <= x < a + 2 * k
  {}

  // ----- an accepted document with 142 reports -----

  function Field(): Value { Array(Zeros(139, [0x20])) }

  function Set(): Value { Only([], Field()) }

  function Sets(): Value { Only([], Set()) }

  function Imported(): Value { Only(DATA_ITEMS, Sets()) }

  lemma {:induction false} RawsText(b: bytes)
    ensures |BodyText(Raws(b))| == |b| + 1
    decreases |b|
  {
    if b != [] {
      RawsText(b[1..]);
      assert Raws(b)[1..] == Raws(b[1..]);
    }
  }

  lemma DataKey(utf8: Utf8Decoder)
    requires utf8(DATA_BYTES) == DATA_KEY
    ensures Decode(DATA_ITEMS, utf8) == DATA_KEY && |StringText(DATA_ITEMS)| == 6 && AreItems(DATA_ITEMS)
  {
    hide Raws, BodyText, AreItems;
    RawsText(DATA_BYTES);
    RawsAreItems(DATA_BYTES);
    RunGrows(DATA_BYTES, [], [], utf8);
    assert DATA_ITEMS + [] == DATA_ITEMS && [] + DATA_BYTES == DATA_BYTES;
  }

  lemma ImportedIs(utf8: Utf8Decoder)
    requires utf8(DATA_BYTES) == DATA_KEY
    ensures WellFormed(Imported()) && Depth(Imported()) == 4 && |Text(Imported())| == 299 && IsObject(Imported())
    ensures MembersOf(Imported(), 0) == [Placed(Member([], DATA_ITEMS, [], [], Sets(), []), 8)]
    ensures MembersOf(Sets(), 8) == [Placed(Member([], [], [], [], Set(), []), 12)]
    ensures MembersOf(Set(), 12) == [Placed(Member([], [], [], [], Field(), []), 16)]
    ensures Offers(Field(), 16) == Run(18, 139) && Offers(Set(), 12) == Run(18, 139) + [296]
    ensures Offers(Sets(), 8) == Run(18, 139) + [296] + [297]
  {
    hide Text, Depth, Offers, WellFormed, Zeros, Run, Decode, StringText, Only, MembersOf;
    assert AllWhitespace([0x20]);
    ArrayIs(139, [0x20], 16);
    EmptyKey(utf8);
    DataKey(utf8);
    OnlyIs([], Field(), 12);
    OnlyIs([], Set(), 8);
    OnlyIs(DATA_ITEMS, Sets(), 0);
    OnlyIsObject(DATA_ITEMS, Sets());
  }

  lemma OnlyIsObject(key: seq<Item>, v: Value)
    ensures IsObject(Only(key, v))
  {}

  lemma AcceptedWith142Reports(utf8: Utf8Decoder) returns (json: bytes, d: Document)
    requires utf8(DATA_BYTES) == DATA_KEY
    ensures IsDocument(json, d) && Diagnosis(d, utf8).NoError?
    ensures |Filtered(DocumentOffers(json, d, utf8), |json|)| == 142
  {
    hide Text, Depth, Offers, WellFormed, Zeros, Run, Filtered, Decode, StringText, Only, MembersOf, WalkOffers, Diagnosis;
    json, d := Text(Imported()), Document([], Imported(), []);
    ImportedIs(utf8);
    assert json == [] + (json + []);
    ImportedIsAccepted(d, utf8);
    ImportedOffers(utf8);
    ImportedReports();
  }

  lemma ImportedIsAccepted(d: Document, utf8: Utf8Decoder)
    requires utf8(DATA_BYTES) == DATA_KEY && d == Document([], Imported(), [])
    ensures Diagnosis(d, utf8).NoError?
  {
    hide Text, Depth, Offers, WellFormed, Zeros, Run, Decode, StringText, Only, MembersOf, RangeOf;
    ImportedIs(utf8);
    DataKey(utf8);
    OnlyIsObject([], Field());
    OnlyIsObject([], Set());
    var members := TopMembers(d);
    assert IsData(members[0], utf8);
    assert AllRanges(members, utf8) == DataRanges(members[0], utf8) + AllRanges(members[1..], utf8);
    assert RangesOf(MembersOf(Sets(), 8), utf8) != [];
  }

  lemma ImportedOffers(utf8: Utf8Decoder)
    requires utf8(DATA_BYTES) == DATA_KEY
    ensures WalkOffers(MembersOf(Imported(), 0), utf8)
            == (Run(18, 139) + [296] + [297]) + (Run(18, 139) + [296] + Run(18, 139))
  {
    hide Text, Depth, Offers, WellFormed, Zeros, Run, Decode, StringText, Only, MembersOf;
    ImportedIs(utf8);
    DataKey(utf8);
    EmptyKey(utf8);
    var fields, sets, members := MembersOf(Set(), 12), MembersOf(Sets(), 8), MembersOf(Imported(), 0);
    assert fields[..0] == [] && sets[..0] == [] && members[..0] == [];
    assert FieldsOffers(fields, utf8) == Run(18, 139);
    assert SetsOffers(sets, utf8) == Run(18, 139) + [296] + Run(18, 139);
  }

  lemma ImportedReports()
    ensures |Filtered((Run(18, 139) + [296] + [297]) + (Run(18, 139) + [296] + Run(18, 139)) + [299], 299)| == 142
  {
    hide Filtered, Run;
    var first, again := Run(18, 139) + [296] + [297], Run(18, 139) + [296] + Run(18, 139);
    RunReported(18, 139, 299);
    RunEnds(18, 139);
    FilteredAppend(Run(18, 139), 296, 299);
    FilteredAppend(Run(18, 139) + [296], 297, 299);
    assert Filtered(first, 299) == first;
    RunLength(18, 139);
    PassedOffers(first, again, 299);
    FilteredAppend(first + again, 299, 299);
  }

  lemma RunEnds(a: nat, k: nat)
    requires k > 0
    ensures |Run(a, k)| == k && Run(a, k)[k - 1] == a + 2 * (k - 1)
  {}
}
