/**
 How often progress is reported for a document: at most 142 times for one that the scanner accepts and 146
 times for one that it walks and then refuses, and there are documents with that many reports.
 */
module ScanReports {
  import opened Bytes
  import opened JsonGrammar
  import opened JsonTheorems
  import opened SetRanges
  import opened ScanOffers
  import opened ScanProgress
  import opened ScanTheorems
  import opened SetScanner

  // ----- every offset is the end of a nested value -----

  /** The values inside a value. */
  function Inner(v: Value): nat {
    match v
    case Object(ms) => InnerMembers(ms)
    case Array(es) => InnerElements(es)
    case _ => 0
  }

  function InnerMembers(ms: Members): nat {
    Inner(ms.head.value) + 1 + if ms.MoreMembers? then InnerMembers(ms.tail) else 0
  }

  function InnerElements(es: Elements): nat {
    Inner(es.head.value) + 1 + if es.MoreElements? then InnerElements(es.tail) else 0
  }

  /** Skipping a value offers one offset for each value inside it. */
  lemma {:induction false} OffersAreInner(v: Value, p: nat)
    ensures |Offers(v, p)| == Inner(v)
    decreases v, 1
  {
    match v
    case Object(ms) => MembersOffersAreInner(ms, p + 1);
    case Array(es) => ElementsOffersAreInner(es, p + 1);
    case _ =>
  }

  lemma {:induction false} MembersOffersAreInner(ms: Members, p: nat)
    ensures |MembersOffers(ms, p)| == InnerMembers(ms)
    decreases ms, 0
  {
    hide MemberText, ValueAt, Text;
    OffersAreInner(ms.head.value, ValueAt(p, ms.head));
    if ms.MoreMembers? { MembersOffersAreInner(ms.tail, p + |MemberText(ms.head)| + 1); }
  }

  lemma {:induction false} ElementsOffersAreInner(es: Elements, p: nat)
    ensures |ElementsOffers(es, p)| == InnerElements(es)
    decreases es, 0
  {
    hide Text, ElementLength;
    OffersAreInner(es.head.value, p + |es.head.before|);
    if es.MoreElements? { ElementsOffersAreInner(es.tail, p + ElementLength(es.head) + 1); }
  }

  /** What skipping the top-level values offers: every other walk offers nothing new. */
  function FirstOffers(members: seq<Placed>): seq<nat>
    decreases |members|
  {
    if members == [] then []
    else FirstOffers(members[..|members| - 1]) + Offers(members[|members| - 1].member.value, members[|members| - 1].at)
  }

  ghost predicate Within(a: seq<nat>, b: seq<nat>) { forall offset <- a :: offset in b }

  lemma WithinConcat(a: seq<nat>, b: seq<nat>, c: seq<nat>)
    requires Within(a, c) && Within(b, c)
    ensures Within(a + b, c)
  {}

  lemma WithinEither(a: seq<nat>, b: seq<nat>, c: seq<nat>)
    requires Within(a, b) || Within(a, c)
    ensures Within(a, b + c)
  {}

  /** What a member's value offers, its object offers. */
  lemma {:induction false} MemberOffersWithin(ms: Members, p: nat, i: nat)
    requires i < |PlaceFrom(ms, p)|
    ensures var m := PlaceFrom(ms, p)[i]; Within(Offers(m.member.value, m.at), MembersOffers(ms, p))
    decreases ms
  {
    hide MemberText, ValueAt, Text, Offers;
    if i > 0 {
      var q := p + |MemberText(ms.head)| + 1;
      MemberOffersWithin(ms.tail, q, i - 1);
      var m := PlaceFrom(ms.tail, q)[i - 1];
      assert PlaceFrom(ms, p)[i] == m;
      WithinEither(Offers(m.member.value, m.at), MemberOffers(ms.head, p), MembersOffers(ms.tail, q));
    }
  }

  lemma MembersOffersWithin(v: Value, at: nat)
    ensures AllWithin(MembersOf(v, at), Offers(v, at))
  {
    hide Within, MembersOffers, PlaceFrom;
    if v.Object? {
      forall i | 0 <= i < |MembersOf(v, at)|
        ensures var m := MembersOf(v, at)[i]; Within(Offers(m.member.value, m.at), Offers(v, at))
      {
        MemberOffersWithin(v.members, at + 1, i);
      }
    }
  }

  ghost predicate AllWithin(members: seq<Placed>, all: seq<nat>) {
    forall i :: 0 <= i < |members| ==> Within(Offers(members[i].member.value, members[i].at), all)
  }

  lemma AllButLastWithin(members: seq<Placed>, all: seq<nat>)
    requires members != [] && AllWithin(members, all)
    ensures AllWithin(members[..|members| - 1], all)
    ensures var m := members[|members| - 1]; Within(Offers(m.member.value, m.at), all)
  {
    hide Within, Offers;
  }

  lemma {:induction false} FieldsWithin(fields: seq<Placed>, utf8: Utf8Decoder, all: seq<nat>)
    requires AllWithin(fields, all)
    ensures Within(FieldsOffers(fields, utf8), all)
    decreases |fields|
  {
    if fields != [] {
      hide Within, Offers, AllWithin;
      var n := |fields| - 1;
      var m := fields[n];
      AllButLastWithin(fields, all);
      FieldsWithin(fields[..n], utf8, all);
      NothingWithin(all);
      WithinConcat(Offers(m.member.value, m.at), CountOffers(m, utf8), all);
      WithinConcat(FieldsOffers(fields[..n], utf8), FieldOffers(m, utf8), all);
    } else {
      NothingWithin(all);
    }
  }

  lemma NothingWithin(all: seq<nat>)
    ensures Within([], all)
  {}

  lemma WithinTrans(a: seq<nat>, b: seq<nat>, c: seq<nat>)
    requires Within(a, b) && Within(b, c)
    ensures Within(a, c)
  {}

  lemma SetWithin(m: Placed, utf8: Utf8Decoder, all: seq<nat>)
    requires Within(Offers(m.member.value, m.at), all)
    ensures Within(SetOffers(m, utf8), all)
  {
    hide Within, Offers, MembersOf, FieldsOffers, AllWithin;
    var own := Offers(m.member.value, m.at);
    MembersOffersWithin(m.member.value, m.at);
    FieldsWithin(MembersOf(m.member.value, m.at), utf8, own);
    WithinTrans(FieldsOffers(MembersOf(m.member.value, m.at), utf8), own, all);
    WithinConcat(own, FieldsOffers(MembersOf(m.member.value, m.at), utf8), all);
  }

  lemma {:induction false} SetsWithin(sets: seq<Placed>, utf8: Utf8Decoder, all: seq<nat>)
    requires AllWithin(sets, all)
    ensures Within(SetsOffers(sets, utf8), all)
    decreases |sets|
  {
    if sets != [] {
      hide Within, Offers, SetOffers, AllWithin;
      var n := |sets| - 1;
      AllButLastWithin(sets, all);
      SetsWithin(sets[..n], utf8, all);
      SetWithin(sets[n], utf8, all);
      WithinConcat(SetsOffers(sets[..n], utf8), SetOffers(sets[n], utf8), all);
    } else {
      NothingWithin(all);
    }
  }

  lemma TopWithin(m: Placed, utf8: Utf8Decoder)
    ensures Within(TopOffers(m, utf8), Offers(m.member.value, m.at))
  {
    hide Within, Offers, MembersOf, SetsOffers, IsData, AllWithin;
    var own := Offers(m.member.value, m.at);
    var again := if IsData(m, utf8) then SetsOffers(MembersOf(m.member.value, m.at), utf8) else [];
    MembersOffersWithin(m.member.value, m.at);
    SetsWithin(MembersOf(m.member.value, m.at), utf8, own);
    NothingWithin(own);
    WithinItself(own);
    WithinConcat(own, again, own);
  }

  lemma WithinItself(a: seq<nat>)
    ensures Within(a, a)
  {}

  /** Bytes are walked up to four times, but no later walk offers an offset that the first does not. */
  lemma {:induction false} LaterWalksOfferNothingNew(members: seq<Placed>, utf8: Utf8Decoder)
    ensures Within(WalkOffers(members, utf8), FirstOffers(members))
    decreases |members|
  {
    if members != [] {
      hide Within, TopOffers, Offers;
      var n := |members| - 1;
      var before, own := FirstOffers(members[..n]), Offers(members[n].member.value, members[n].at);
      LaterWalksOfferNothingNew(members[..n], utf8);
      TopWithin(members[n], utf8);
      WithinEither(WalkOffers(members[..n], utf8), before, own);
      WithinEither(TopOffers(members[n], utf8), before, own);
      WithinConcat(WalkOffers(members[..n], utf8), TopOffers(members[n], utf8), before + own);
    } else {
      NothingWithin(FirstOffers(members));
    }
  }

  /** The values inside the top-level values. */
  function InnerOf(members: seq<Placed>): nat
    decreases |members|
  {
    if members == [] then 0 else InnerOf(members[..|members| - 1]) + Inner(members[|members| - 1].member.value)
  }

  lemma {:induction false} FirstOffersAreInner(members: seq<Placed>)
    ensures |FirstOffers(members)| == InnerOf(members)
    decreases |members|
  {
    if members != [] {
      var n := |members| - 1;
      FirstOffersAreInner(members[..n]);
      OffersAreInner(members[n].member.value, members[n].at);
    }
  }

  // ----- a strictly increasing sequence of offsets from a list is no longer than the list -----

  function Elements(s: seq<nat>): set<nat> { set x | x in s }

  lemma {:induction false} FewElements(s: seq<nat>)
    ensures |Elements(s)| <= |s|
    decreases |s|
  {
    if s != [] {
      var n := |s| - 1;
      FewElements(s[..n]);
      assert Elements(s) == Elements(s[..n]) + {s[n]};
    }
  }

  lemma {:induction false} SpacedIncreases(offsets: seq<nat>, size: nat, step: nat, fine: nat, i: nat, j: nat)
    requires Spaced(offsets, size, step, fine) && i < j < |offsets|
    ensures offsets[i] < offsets[j]
    decreases j
  {
    assert Throttled(offsets, j, size, step, fine);
    if i < j - 1 { SpacedIncreases(offsets, size, step, fine, i, j - 1); }
  }

  lemma {:induction false} DistinctElements(s: seq<nat>)
    requires forall i, j :: 0 <= i < j < |s| ==> s[i] != s[j]
    ensures |Elements(s)| == |s|
    decreases |s|
  {
    if s != [] {
      var n := |s| - 1;
      DistinctElements(s[..n]);
      assert s[n] !in Elements(s[..n]);
      assert Elements(s) == Elements(s[..n]) + {s[n]};
    }
  }

  lemma NoMoreThanOffered(offsets: seq<nat>, offers: seq<nat>, size: nat, step: nat, fine: nat)
    requires Spaced(offsets, size, step, fine) && Within(offsets, offers)
    ensures |offsets| <= |offers|
  {
    forall i, j | 0 <= i < j < |offsets| ensures offsets[i] != offsets[j] {
      SpacedIncreases(offsets, size, step, fine, i, j);
    }
    DistinctElements(offsets);
    FewElements(offers);
    Included(offsets, offers);
  }

  lemma Included(a: seq<nat>, b: seq<nat>)
    requires Within(a, b)
    ensures |Elements(a)| <= |Elements(b)|
  {
    assert Elements(a) <= Elements(b);
    Fewer(Elements(a), Elements(b));
  }

  lemma {:induction false} Fewer(a: set<nat>, b: set<nat>)
    requires a <= b
    ensures |a| <= |b|
    decreases a
  {
    if a != {} {
      var x :| x in a;
      Fewer(a - {x}, b - {x});
    }
  }

  // ----- a nested value takes at least two bytes -----

  lemma MemberTextLength(m: Member)
    ensures |MemberText(m)| >= |StringText(m.key)| + 1 + |Text(m.value)| && |StringText(m.key)| >= 2
  {
    hide Text;
  }

  lemma {:induction false} ValueLong(v: Value)
    requires WellFormed(v)
    ensures |Text(v)| >= 2 * Inner(v) + 1
    decreases v, 1
  {
    match v
    case Object(ms) => MembersLong(ms);
    case Array(es) => ElementsLong(es);
    case _ => FirstByte(v);
  }

  lemma {:induction false} MembersLong(ms: Members)
    requires WellFormedMembers(ms)
    ensures |MembersText(ms)| >= 2 * InnerMembers(ms) + 3
    decreases ms, 0
  {
    hide MemberText, StringText;
    MemberTextLength(ms.head);
    ValueLong(ms.head.value);
    if ms.MoreMembers? { MembersLong(ms.tail); }
  }

  lemma {:induction false} ElementsLong(es: Elements)
    requires WellFormedElements(es)
    ensures |ElementsText(es)| >= 2 * InnerElements(es)
    decreases es, 0
  {
    ValueLong(es.head.value);
    if es.MoreElements? { ElementsLong(es.tail); }
  }

  lemma {:induction false} InnerOfCons(m: Placed, rest: seq<Placed>)
    ensures InnerOf([m] + rest) == Inner(m.member.value) + InnerOf(rest)
    decreases |rest|
  {
    var all := [m] + rest;
    if rest == [] {
      assert all == [m] && all[..0] == [];
    } else {
      assert all[..|all| - 1] == [m] + rest[..|rest| - 1] && all[|all| - 1] == rest[|rest| - 1];
      InnerOfCons(m, rest[..|rest| - 1]);
    }
  }

  /** A document's members take five bytes more than two for each nested value. */
  lemma {:induction false} TopLong(ms: Members, p: nat)
    requires WellFormedMembers(ms)
    ensures |MembersText(ms)| >= 2 * InnerOf(PlaceFrom(ms, p)) + 5
    decreases ms
  {
    hide MemberText, StringText, Text, Inner, InnerOf, ValueAt;
    var m := Placed(ms.head, ValueAt(p, ms.head));
    MemberTextLength(ms.head);
    ValueLong(ms.head.value);
    if ms.MoreMembers? {
      var q := p + |MemberText(ms.head)| + 1;
      TopLong(ms.tail, q);
      InnerOfCons(m, PlaceFrom(ms.tail, q));
    } else {
      InnerOfCons(m, []);
      NoneInside();
      assert [m] + [] == [m];
    }
  }

  lemma NoneInside()
    ensures InnerOf([]) == 0
  {}

  // ----- what an accepted document has besides -----

  /** Decoding never makes more code units than there are bytes, as UTF-8 does not. */
  ghost predicate NeverLonger(utf8: Utf8Decoder) { forall b :: |utf8(b)| <= |b| }

  lemma {:induction false} KeyLong(items: seq<Item>, run: bytes, utf8: Utf8Decoder)
    requires NeverLonger(utf8)
    ensures |DecodeFrom(items, run, utf8)| <= |run| + |BodyText(items)| - 1
    decreases |items|
  {
    assert |Flush(run, utf8)| <= |run|;
    if items != [] {
      KeyLong(items[1..], if items[0].Raw? then run + [items[0].b] else [], utf8);
      assert |EscapeMeaning(items[0])| <= |ItemText(items[0])|;
    }
  }

  lemma ObjectLong(v: Value)
    requires WellFormed(v) && IsObject(v)
    ensures |Text(v)| >= 2 * Inner(v) + 2 && (Inner(v) >= 1 ==> |Text(v)| >= 2 * Inner(v) + 4)
  {
    if v.Object? { MembersLong(v.members); }
  }

  lemma {:induction false} SetsLong(ms: Members, p: nat)
    requires WellFormedMembers(ms) && AllObjects(PlaceFrom(ms, p))
    ensures |MembersText(ms)| >= 2 * InnerMembers(ms) + 4
    ensures InnerMembers(ms) >= 2 ==> |MembersText(ms)| >= 2 * InnerMembers(ms) + 6
    decreases ms
  {
    hide MemberText, StringText, Text, Inner, IsObject, ValueAt;
    assert PlaceFrom(ms, p)[0] == Placed(ms.head, ValueAt(p, ms.head));
    MemberTextLength(ms.head);
    ObjectLong(ms.head.value);
    if ms.MoreMembers? {
      var q := p + |MemberText(ms.head)| + 1;
      assert forall i :: 0 <= i < |PlaceFrom(ms.tail, q)| ==> PlaceFrom(ms, p)[i + 1] == PlaceFrom(ms.tail, q)[i];
      SetsLong(ms.tail, q);
    }
  }

  lemma DataLong(v: Value, at: nat)
    requires WellFormed(v) && IsObjectOfObjects(v, at) && MembersOf(v, at) != []
    ensures |Text(v)| >= 2 * Inner(v) + 5 && (Inner(v) >= 2 ==> |Text(v)| >= 2 * Inner(v) + 7)
  {
    hide PlaceFrom, MembersText, InnerMembers;
    SetsLong(v.members, at + 1);
  }

  lemma DataKeyLong(m: Placed, utf8: Utf8Decoder)
    requires NeverLonger(utf8) && IsData(m, utf8)
    ensures |StringText(m.member.key)| >= 6
  {
    KeyLong(m.member.key, [], utf8);
  }

  /** The member that brings the first set. */
  lemma DataMemberLong(m: Placed, utf8: Utf8Decoder)
    requires NeverLonger(utf8) && WellFormed(m.member.value) && DataRanges(m, utf8) != []
    requires IsObjectOfObjects(m.member.value, m.at)
    ensures var n := Inner(m.member.value);
            && |MemberText(m.member)| >= 2 * n + 12 && (n >= 2 ==> |MemberText(m.member)| >= 2 * n + 14)
  {
    hide MemberText, StringText, Text, Inner, MembersOf;
    MemberTextLength(m.member);
    DataKeyLong(m, utf8);
    DataLong(m.member.value, m.at);
  }

  lemma {:induction false} AcceptedLong(ms: Members, p: nat, utf8: Utf8Decoder)
    requires WellFormedMembers(ms) && NeverLonger(utf8)
    requires DataWellShaped(PlaceFrom(ms, p), utf8) && AllRanges(PlaceFrom(ms, p), utf8) != []
    ensures var f := InnerOf(PlaceFrom(ms, p));
            |MembersText(ms)| >= 2 * f + 13 && (f >= 2 ==> |MembersText(ms)| >= 2 * f + 15)
    decreases ms
  {
    hide MemberText, StringText, Text, Inner, InnerOf, ValueAt, DataRanges, IsData, IsObjectOfObjects;
    var m := Placed(ms.head, ValueAt(p, ms.head));
    var q := p + |MemberText(ms.head)| + 1;
    var places := PlaceFrom(ms, p);
    var rest := if ms.MoreMembers? then PlaceFrom(ms.tail, q) else [];
    assert places == [m] + rest && places[0] == m && places[1..] == rest;
    InnerOfCons(m, rest);
    NoneInside();
    MemberTextLength(ms.head);
    ValueLong(ms.head.value);
    if DataRanges(m, utf8) != [] {
      RangesAreOfData(m, utf8);
      DataMemberLong(m, utf8);
      if ms.MoreMembers? { TopLong(ms.tail, q); }
    } else {
      assert AllRanges(rest, utf8) != [];
      assert forall i :: 0 <= i < |rest| ==> places[i + 1] == rest[i];
      AcceptedLong(ms.tail, q, utf8);
    }
  }

  lemma RangesAreOfData(m: Placed, utf8: Utf8Decoder)
    requires DataRanges(m, utf8) != []
    ensures IsData(m, utf8)
  {}

  // ----- at most 146 reports, 142 of an accepted document -----

  lemma LongDocuments(offsets: seq<nat>, size: nat)
    requires size >= 300 && Spaced(offsets, size, StepOf(size), FineStep(StepOf(size)))
    ensures |offsets| <= 142
  {
    Steps(size);
    CountFewer(offsets, size, StepOf(size), FineStep(StepOf(size)));
  }

  lemma CountFewer(offsets: seq<nat>, size: nat, step: nat, fine: nat)
    requires Spaced(offsets, size, step, fine) && 3 <= step < 32 * fine && size < 100 * step + 100
    requires step < 32 ==> fine == 1
    ensures |offsets| <= 142
  {
    var k := CoarsePart(offsets, size, step, fine);
    if k > 0 { FewCoarse(size, step, k); }
    var n := |offsets|;
    if n > k + 1 {
      assert Throttled(offsets, n - 1, size, step, fine);
      FinePart(offsets, size, step, fine, k, n - 2);
      FineCount(step, fine, n - 2 - k);
      if step < 32 { TimesIsProduct(n - 2 - k, 1); }
    }
  }

  lemma FewCoarse(size: nat, step: nat, k: nat)
    requires step >= 3 && Times(k, step) < size - step && size < 100 * step + 100
    ensures k <= 132 && (step >= 4 ==> k <= 123) && (step >= 10 ==> k <= 108)
  {
    if k >= 109 { TimesAtLeast(k, 109, step); }
    if k >= 124 { TimesAtLeast(k, 124, step); }
    if k >= 133 { TimesAtLeast(k, 133, step); }
    TimesIsProduct(109, step);
    TimesIsProduct(124, step);
    TimesIsProduct(133, step);
  }

  lemma DocumentLength(json: bytes, d: Document, utf8: Utf8Decoder)
    requires IsDocument(json, d)
    ensures var f := InnerOf(TopMembers(d));
            && (f > 0 ==> |json| >= 2 * f + 6)
            && (NeverLonger(utf8) && Diagnosis(d, utf8).NoError? ==>
                  |json| >= 2 * f + 14 && (f >= 2 ==> |json| >= 2 * f + 16))
  {
    hide MembersText, InnerOf, DataWellShaped, AllRanges, HasData, PlaceFrom;
    NoneInside();
    if d.root.Object? {
      TopLong(d.root.members, |d.before| + 1);
      if NeverLonger(utf8) && Diagnosis(d, utf8).NoError? {
        AcceptedLong(d.root.members, |d.before| + 1, utf8);
      }
    } else {
      NoRanges(utf8);
    }
  }

  lemma NoRanges(utf8: Utf8Decoder)
    ensures AllRanges([], utf8) == []
  {}

  ghost predicate AtMostAt(offers: seq<nat>, bound: nat) { forall offset <- offers :: offset <= bound }

  lemma {:induction false} OffersInside(v: Value, p: nat)
    ensures AtMostAt(Offers(v, p), p + |Text(v)|)
    decreases v, 1
  {
    match v
    case Object(ms) => MembersOffersInside(ms, p + 1);
    case Array(es) => ElementsOffersInside(es, p + 1);
    case _ =>
  }

  lemma {:induction false} MembersOffersInside(ms: Members, p: nat)
    ensures AtMostAt(MembersOffers(ms, p), p + |MembersText(ms)|)
    decreases ms, 0
  {
    hide Text, StringText;
    OffersInside(ms.head.value, ValueAt(p, ms.head));
    if ms.MoreMembers? { MembersOffersInside(ms.tail, p + |MemberText(ms.head)| + 1); }
  }

  lemma {:induction false} ElementsOffersInside(es: Elements, p: nat)
    ensures AtMostAt(ElementsOffers(es, p), p + |ElementsText(es)|)
    decreases es, 0
  {
    hide Text;
    OffersInside(es.head.value, p + |es.head.before|);
    if es.MoreElements? { ElementsOffersInside(es.tail, p + ElementLength(es.head) + 1); }
  }

  lemma {:induction false} FirstOffersInside(members: seq<Placed>, s: bytes, lo: nat, hi: nat)
    requires StandInOrder(members, s, lo, hi)
    ensures AtMostAt(FirstOffers(members), hi)
    decreases |members|
  {
    if members != [] {
      hide Offers, Text, WellFormed, At, Depth;
      var n := |members| - 1;
      OffersInside(members[n].member.value, members[n].at);
      assert StandsIn(members[n], s, lo, hi);
      FirstOffersInside(members[..n], s, lo, hi);
    }
  }

  /** No offset is offered past the end of the document. */
  lemma WalkOffersInside(json: bytes, d: Document, utf8: Utf8Decoder)
    requires IsDocument(json, d)
    ensures forall offset <- DocumentOffers(json, d, utf8) :: offset <= |json|
  {
    hide At, Text, WellFormed, Depth, MembersOf, WalkOffers, FirstOffers, Diagnosis, StandInOrder;
    DocumentPlaces(json, d);
    MembersInOrder(d.root, json, |d.before|, |json|);
    FirstOffersInside(TopMembers(d), json, |d.before|, |d.before| + |Text(d.root)|);
    LaterWalksOfferNothingNew(TopMembers(d), utf8);
  }

  /** The reports of a walk are among the ends of nested values, and the end of the bytes. */
  lemma ReportsAreInner(json: bytes, d: Document, utf8: Utf8Decoder)
    requires IsDocument(json, d)
    ensures |Filtered(DocumentOffers(json, d, utf8), |json|)|
            <= InnerOf(TopMembers(d)) + if Diagnosis(d, utf8).NoError? then 1 else 0
  {
    hide IsDocument, Diagnosis, WalkOffers, FirstOffers, Within, InnerOf, Filtered;
    var members, size := TopMembers(d), |json|;
    var last := if Diagnosis(d, utf8).NoError? then [size] else [];
    var offers, reports := DocumentOffers(json, d, utf8), Filtered(DocumentOffers(json, d, utf8), size);
    WalkOffersInside(json, d, utf8);
    FilteredIsSpaced(offers, size);
    LaterWalksOfferNothingNew(members, utf8);
    WithinItself(last);
    WithinEither(WalkOffers(members, utf8), FirstOffers(members), last);
    WithinEither(last, FirstOffers(members), last);
    WithinConcat(WalkOffers(members, utf8), last, FirstOffers(members) + last);
    FilteredWithin(reports, offers);
    WithinTrans(reports, offers, FirstOffers(members) + last);
    NoMoreThanOffered(reports, FirstOffers(members) + last, size, StepOf(size), FineStep(StepOf(size)));
    FirstOffersAreInner(members);
  }

  lemma FilteredWithin(reports: seq<nat>, offers: seq<nat>)
    requires forall offset <- reports :: offset in offers
    ensures Within(reports, offers)
  {}

  lemma ReportsSpaced(json: bytes, d: Document, utf8: Utf8Decoder)
    requires IsDocument(json, d)
    ensures Spaced(Filtered(DocumentOffers(json, d, utf8), |json|), |json|, StepOf(|json|), FineStep(StepOf(|json|)))
  {
    hide IsDocument, DocumentOffers, Filtered, Spaced;
    WalkOffersInside(json, d, utf8);
    FilteredIsSpaced(DocumentOffers(json, d, utf8), |json|);
  }

  /** A scan that succeeds reports at most 142 times. */
  lemma AtMost142Reports(json: bytes, d: Document, utf8: Utf8Decoder)
    requires IsDocument(json, d) && Diagnosis(d, utf8).NoError? && NeverLonger(utf8)
    ensures |Filtered(DocumentOffers(json, d, utf8), |json|)| <= 142
  {
    hide IsDocument, DocumentOffers, Filtered, Spaced, InnerOf, TopMembers, Diagnosis;
    if |json| >= 300 {
      ReportsSpaced(json, d, utf8);
      LongDocuments(Filtered(DocumentOffers(json, d, utf8), |json|), |json|);
    } else {
      ReportsAreInner(json, d, utf8);
      DocumentLength(json, d, utf8);
    }
  }

  /** A walk of a whole document that is then refused reports at most 146 times. */
  lemma AtMost146Reports(json: bytes, d: Document, utf8: Utf8Decoder)
    requires IsDocument(json, d) && !Diagnosis(d, utf8).NoError?
    ensures |Filtered(DocumentOffers(json, d, utf8), |json|)| <= 146
  {
    hide IsDocument, DocumentOffers, Filtered, Spaced, InnerOf, TopMembers, Diagnosis;
    if |json| >= 300 {
      ReportsSpaced(json, d, utf8);
      LongDocuments(Filtered(DocumentOffers(json, d, utf8), |json|), |json|);
    } else {
      ReportsAreInner(json, d, utf8);
      DocumentLength(json, d, utf8);
    }
  }
}
