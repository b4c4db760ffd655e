/** What holds of the collected database after any sequence of imported sets. */
module CardImportTheorems {
  import opened Bytes
  import opened SplitCards
  import opened CardImport
  import CardColors

  /** A set with its card list, as the importer meets it. */
  datatype Batch = Batch(set_: CurrentSet, cards: seq<SourceCard>)

  const NOTHING := Database(map[], map[], map[])

  function ImportedAll(batches: seq<Batch>, st: Settings): Database
    decreases |batches|
  {
    if batches == [] then NOTHING
    else
      var n := |batches| - 1;
      ImportedSet(ImportedAll(batches[..n], st), batches[n].cards, batches[n].set_, st)
  }

  // ----- the colours of a split card -----

  lemma {:induction false} MergedColorsAreUnion(key: string, faces: seq<Properties>)
    requires key == "colors" || key == "coloridentity"
    ensures forall c :: c in MergedValue(key, faces) <==> exists i :: 0 <= i < |faces| && c in Get(faces[i], key)
    decreases |faces|
  {
    if faces != [] {
      var n := |faces| - 1;
      MergedColorsAreUnion(key, faces[..n]);
      forall c ensures c in MergedValue(key, faces) <==> exists i :: 0 <= i < |faces| && c in Get(faces[i], key) {
        MergeValueMembers(key, MergedValue(key, faces[..n]), Get(faces[n], key), c);
        if c in MergedValue(key, faces[..n]) {
          var i :| 0 <= i < n && c in Get(faces[..n][i], key);
          assert c in Get(faces[i], key);
        }
        if i :| 0 <= i < |faces| && c in Get(faces[i], key) {
          if i < n { assert c in Get(faces[..n][i], key); }
        }
      }
    }
  }

  lemma MergeValueMembers(key: string, original: string, other: string, c: char)
    requires key == "colors" || key == "coloridentity"
    ensures c in MergeValue(key, original, other) <==> c in original || c in other
  {}

  ghost predicate SortsColors(sortColors: string -> string) {
    forall s :: CardColors.MaySortTo(s, sortColors(s))
  }

  /** Where a split card is new, its colours are the union of its faces' colours, each once, in WUBRG order. */
  lemma SplitCardColors(db: Database, g: Group, set_: CurrentSet, st: Settings, key: string, colors: set<char>)
    requires g.parts != [] && NormalizeCardName(g.name) !in db.cards && SortsColors(st.sortColors)
    requires key == "colors" || key == "coloridentity"
    requires forall c :: c in colors <==> exists i :: 0 <= i < |g.parts| && c in Get(g.parts[i].properties, key)
    requires forall c :: c in colors ==> CardColors.IsColor(c)
    ensures var cards := WithGroup(db, g, set_, st).cards;
            && NormalizeCardName(g.name) in cards
            && Get(cards[NormalizeCardName(g.name)].properties, key) == CardColors.InOrder(colors)
  {
    var faces := PartProperties(g.parts);
    var merged := MergedProperties(faces);
    var s := Get(merged, key);
    MergedPropertyIsFold(faces, key);
    MergedColorsAreUnion(key, faces);
    forall c ensures c in s <==> c in colors {
      if c in s { var i :| 0 <= i < |faces| && c in Get(faces[i], key); assert c in Get(g.parts[i].properties, key); }
      if c in colors { var i :| 0 <= i < |g.parts| && c in Get(g.parts[i].properties, key); assert c in Get(faces[i], key); }
    }
    assert CardColors.Chars(s) == colors;
    assert CardColors.AreColors(s);
    ReducedColors(merged, st, key);
    var name := NormalizeCardName(g.name);
    var cards := AddedCard(db.cards, g.name, JoinedText(Texts(g.parts)), merged, MergedPrinting(g.parts), st);
    assert cards[name].properties == NewProperties(merged, st);
    FacesKeepProperties(cards, g.name, g.parts);
  }

  lemma ReducedColors(p: Properties, st: Settings, key: string)
    requires SortsColors(st.sortColors) && (key == "colors" || key == "coloridentity")
    requires CardColors.AreColors(Get(p, key))
    ensures Get(NewProperties(p, st), key) == CardColors.InOrder(CardColors.Chars(Get(p, key)))
  {
    hide CardColors.Unique, CardColors.InOrder, CardColors.Chars, CardColors.AreColors, CardColors.MaySortTo;
    var s := Get(p, key);
    if |s| <= 1 {
      ShortIsInOrder(s);
    } else {
      CardColors.SortAndReduceColors(s, st.sortColors(s));
    }
  }

  lemma ShortIsInOrder(s: string)
    requires CardColors.AreColors(s) && |s| <= 1
    ensures s == CardColors.InOrder(CardColors.Chars(s))
  {
    CardColors.IncreasingIsInOrder(s, CardColors.Chars(s), 0);
  }

  lemma {:induction false} FacesKeepProperties(cards: map<string, Card>, name: string, parts: seq<Part>)
    ensures WithFaces(cards, name, parts).Keys == cards.Keys
    ensures forall k <- cards :: WithFaces(cards, name, parts)[k].properties == cards[k].properties
    decreases |parts|
  {
    if parts != [] { FacesKeepProperties(cards, name, parts[..|parts| - 1]); }
  }

  // ----- the main type of a split card -----

  /** The faces of a split card as they are queued. */
  function PartsOf(cards: seq<SourceCard>, set_: CurrentSet, st: Settings): seq<Part> {
    seq(|cards|, i requires 0 <= i < |cards| => PartOf(cards[i], set_, st))
  }

  /** No property read from the cards' own fields is called "maintype". */
  predicate NoMainTypeYet(cards: seq<SourceCard>) {
    forall i :: 0 <= i < |cards| ==> "maintype" !in cards[i].properties
  }

  predicate NoEmptyType(cards: seq<SourceCard>) {
    forall i :: 0 <= i < |cards| ==> "" !in cards[i].types
  }

  /** The types of all faces in order; a face whose main type is empty is passed over. */
  function TypesOf(cards: seq<SourceCard>): seq<string>
    decreases |cards|
  {
    if cards == [] then []
    else
      var n := |cards| - 1;
      TypesOf(cards[..n]) + if GetMainCardType(cards[n].types) == "" then [] else cards[n].types
  }

  function AllTypes(cards: seq<SourceCard>): seq<string>
    decreases |cards|
  {
    if cards == [] then [] else AllTypes(cards[..|cards| - 1]) + cards[|cards| - 1].types
  }

  lemma {:induction false} TypesOfAll(cards: seq<SourceCard>)
    requires NoEmptyType(cards)
    ensures TypesOf(cards) == AllTypes(cards)
    decreases |cards|
  {
    if cards != [] {
      hide GetMainCardType;
      var n := |cards| - 1;
      TypesOfAll(cards[..n]);
      NamedMainType(cards[n].types);
      assert AllTypes(cards[..n]) + [] == AllTypes(cards[..n]);
    }
  }

  lemma NamedMainType(types: seq<string>)
    requires "" !in types
    ensures GetMainCardType(types) == "" <==> types == []
  {
    if types != [] { MainTypeIsMember(types); }
  }

  lemma FaceMainType(c: SourceCard, set_: CurrentSet, st: Settings)
    requires "maintype" !in c.properties
    ensures Get(PartOf(c, set_, st).properties, "maintype") == GetMainCardType(c.types)
  {
    hide GetMainCardType, Concat, MatchingText;
  }

  /** The fold over the faces takes in one more face. */
  lemma MergedOneMore(cards: seq<SourceCard>, set_: CurrentSet, st: Settings)
    requires cards != [] && NoMainTypeYet(cards)
    ensures var n := |cards| - 1;
            MergedValue("maintype", PartProperties(PartsOf(cards, set_, st))) ==
              MergeValue("maintype", MergedValue("maintype", PartProperties(PartsOf(cards[..n], set_, st))),
                         GetMainCardType(cards[n].types))
  {
    hide PartOf, GetMainCardType, MergeValue;
    var n := |cards| - 1;
    var faces := PartProperties(PartsOf(cards, set_, st));
    assert faces[..n] == PartProperties(PartsOf(cards[..n], set_, st));
    FaceMainType(cards[n], set_, st);
  }

  lemma {:induction false} MergedTypes(cards: seq<SourceCard>, set_: CurrentSet, st: Settings)
    requires NoMainTypeYet(cards)
    ensures MergedValue("maintype", PartProperties(PartsOf(cards, set_, st))) == GetMainCardType(TypesOf(cards))
    ensures TypesOf(cards) != [] ==> GetMainCardType(TypesOf(cards)) != ""
    decreases |cards|
  {
    if cards != [] {
      hide MergedValue, MergeValue, PartProperties, PartsOf, GetMainCardType;
      var n := |cards| - 1;
      MergedTypes(cards[..n], set_, st);
      MergedOneMore(cards, set_, st);
      OneMoreFace(TypesOf(cards[..n]), cards[n].types);
    } else {
      assert PartProperties(PartsOf(cards, set_, st)) == [];
    }
  }

  lemma OneMoreFace(before: seq<string>, types: seq<string>)
    requires before != [] ==> GetMainCardType(before) != ""
    ensures var known := if GetMainCardType(types) == "" then [] else types;
            && MergeValue("maintype", GetMainCardType(before), GetMainCardType(types)) == GetMainCardType(before + known)
            && (before + known != [] ==> GetMainCardType(before + known) != "")
  {
    hide FirstKnown;
    NoTypes();
    assert before + [] == before && [] + types == types;
    if before != [] && GetMainCardType(types) != "" {
      MainTypeConcat(before, types);
    }
  }

  lemma NoTypes()
    ensures GetMainCardType([]) == ""
  {}

  /** The main type of a split card is the one getMainCardType picks from its faces' types, in order. */
  lemma SplitCardMainType(cards: seq<SourceCard>, set_: CurrentSet, st: Settings)
    requires NoMainTypeYet(cards)
    ensures var merged := Get(MergedProperties(PartProperties(PartsOf(cards, set_, st))), "maintype");
            merged == GetMainCardType(TypesOf(cards)) && (NoEmptyType(cards) ==> merged == GetMainCardType(AllTypes(cards)))
  {
    hide PartsOf, GetMainCardType, NoMainTypeYet, NoEmptyType, TypesOf, AllTypes, MergedProperties, MergedValue;
    MergedPropertyIsFold(PartProperties(PartsOf(cards, set_, st)), "maintype");
    MergedTypes(cards, set_, st);
    if NoEmptyType(cards) { TypesOfAll(cards); }
  }

  // ----- the kept translation -----

  datatype Offering = Offering(key: string, entry: Entry)

  function OfferedAll(entries: map<string, Entry>, offers: seq<Offering>): map<string, Entry>
    decreases |offers|
  {
    if offers == [] then entries
    else
      var n := |offers| - 1;
      Offered(OfferedAll(entries, offers[..n]), offers[n].key, offers[n].entry)
  }

  /** Offer i is the first of those with its key that have the lowest priority value. */
  ghost predicate FirstOfLowest(offers: seq<Offering>, i: nat)
    requires i < |offers|
  {
    && (forall j :: 0 <= j < |offers| && offers[j].key == offers[i].key ==>
          offers[i].entry.priority <= offers[j].entry.priority)
    && (forall j :: 0 <= j < i && offers[j].key == offers[i].key ==>
          offers[i].entry.priority < offers[j].entry.priority)
  }

  /** The offer that is kept for a key, or -1. */
  function Kept(offers: seq<Offering>, key: string): (i: int)
    ensures -1 <= i < |offers|
    ensures i >= 0 ==> offers[i].key == key
    decreases |offers|
  {
    if offers == [] then -1
    else
      var n := |offers| - 1;
      var i := Kept(offers[..n], key);
      if offers[n].key == key && (i < 0 || offers[n].entry.priority < offers[i].entry.priority) then n else i
  }

  lemma {:induction false} KeptBeats(offers: seq<Offering>, key: string, j: nat)
    requires j < |offers| && offers[j].key == key
    ensures var i := Kept(offers, key);
            && i >= 0 && offers[i].entry.priority <= offers[j].entry.priority
            && (j < i ==> offers[i].entry.priority < offers[j].entry.priority)
    decreases |offers|
  {
    if j < |offers| - 1 { KeptBeats(offers[..|offers| - 1], key, j); }
  }

  lemma {:induction false} KeptIsStored(offers: seq<Offering>, key: string)
    ensures var m := OfferedAll(map[], offers);
            && (key in m <==> Kept(offers, key) >= 0)
            && (key in m ==> m[key] == offers[Kept(offers, key)].entry)
    decreases |offers|
  {
    if offers != [] { KeptIsStored(offers[..|offers| - 1], key); }
  }

  /** Of any sequence of offers, the kept entry is the first of lowest priority value. */
  lemma KeptIsFirstOfLowest(offers: seq<Offering>, key: string)
    ensures key in OfferedAll(map[], offers) <==> exists i :: 0 <= i < |offers| && offers[i].key == key
    ensures key in OfferedAll(map[], offers) ==>
              exists i :: 0 <= i < |offers| && offers[i].key == key && FirstOfLowest(offers, i)
                          && OfferedAll(map[], offers)[key] == offers[i].entry
  {
    KeptIsStored(offers, key);
    var i := Kept(offers, key);
    forall j | 0 <= j < |offers| && offers[j].key == key
      ensures i >= 0 && offers[i].entry.priority <= offers[j].entry.priority
      ensures j < i ==> offers[i].entry.priority < offers[j].entry.priority
    {
      KeptBeats(offers, key, j);
    }
  }

  /** The key under which card i of a set is translated. */
  function OfferKey(b: Batch, i: nat): string
    requires i < |b.cards|
  {
    var c := b.cards[i];
    NormalizeCardName(if IsSplit(c) then c.name else CardName(c, b.set_, NamesBefore(b, i)))
  }

  /** What card i of a set offers. */
  function CardOffers(b: Batch, i: nat, st: Settings): seq<Offering>
    requires i < |b.cards|
  {
    var c := b.cards[i];
    var offer := Offer(c, b.set_, !IsSplit(c), st);
    if IsToken(c) || offer == [] then [] else [Offering(OfferKey(b, i), offer[0])]
  }

  function FirstOffers(b: Batch, n: nat, st: Settings): seq<Offering>
    requires n <= |b.cards|
  {
    if n == 0 then [] else FirstOffers(b, n - 1, st) + CardOffers(b, n - 1, st)
  }

  /** Everything offered for translation, in the order the cards are met. */
  function AllOffers(batches: seq<Batch>, st: Settings): seq<Offering>
    decreases |batches|
  {
    if batches == [] then []
    else
      var n := |batches| - 1;
      AllOffers(batches[..n], st) + FirstOffers(batches[n], |batches[n].cards|, st)
  }

  lemma {:induction false} OfferedConcat(entries: map<string, Entry>, a: seq<Offering>, b: seq<Offering>)
    ensures OfferedAll(entries, a + b) == OfferedAll(OfferedAll(entries, a), b)
    decreases |b|
  {
    if b == [] {
      assert a + b == a;
    } else {
      assert (a + b)[..|a + b| - 1] == a + b[..|b| - 1];
      OfferedConcat(entries, a, b[..|b| - 1]);
    }
  }

  // ----- the pass over a set, card by card -----

  /** The face names met before card i. */
  function NamesBefore(b: Batch, i: nat): set<string>
    requires i <= |b.cards|
  {
    if i == 0 then {}
    else if IsToken(b.cards[i - 1]) then NamesBefore(b, i - 1)
    else NamesBefore(b, i - 1) + {FaceNameOf(b.cards[i - 1])}
  }

  /** The keys of the groups opened before card i. */
  function OpenBefore(b: Batch, i: nat): set<string>
    requires i <= |b.cards|
  {
    if i == 0 then {}
    else if IsSplit(b.cards[i - 1]) then OpenBefore(b, i - 1) + {b.cards[i - 1].name + b.cards[i - 1].number}
    else OpenBefore(b, i - 1)
  }

  /** A face that joins a group another face has opened. */
  predicate Joins(b: Batch, i: nat)
    requires i < |b.cards|
  {
    IsSplit(b.cards[i]) && b.cards[i].name + b.cards[i].number in OpenBefore(b, i)
  }

  /** The key of the card that card i brings into the database: none for tokens and for joining faces. */
  function OwnKeys(b: Batch, n: nat): set<string>
    requires n <= |b.cards|
  {
    if n == 0 then {}
    else if IsToken(b.cards[n - 1]) || Joins(b, n - 1) then OwnKeys(b, n - 1)
    else OwnKeys(b, n - 1) + {OfferKey(b, n - 1)}
  }

  function AllOwnKeys(batches: seq<Batch>): set<string>
    decreases |batches|
  {
    if batches == [] then {}
    else
      var n := |batches| - 1;
      AllOwnKeys(batches[..n]) + OwnKeys(batches[n], |batches[n].cards|)
  }

  function NormalizedNames(groups: seq<Group>): set<string> {
    if groups == [] then {} else {NormalizeCardName(groups[0].name)} + NormalizedNames(groups[1..])
  }

  lemma {:induction false} NormalizedNamesOfGroups(groups: seq<Group>)
    ensures NormalizedNames(groups) == set name <- GroupNames(groups) :: NormalizeCardName(name)
    decreases |groups|
  {
    if groups != [] { NormalizedNamesOfGroups(groups[1..]); }
  }

  /** What a pass over the first n cards of a set has done. */
  ghost predicate PassDone(db: Database, p: Pass, b: Batch, n: nat, st: Settings)
    requires n <= |b.cards|
  {
    && p.names == NamesBefore(b, n) && GroupKeys(p.groups) == OpenBefore(b, n)
    && p.db.cards.Keys + NormalizedNames(p.groups) == db.cards.Keys + OwnKeys(b, n)
    && p.db.localized == OfferedAll(db.localized, FirstOffers(b, n, st))
    && p.db.splitTexts == db.splitTexts
  }

  /** The translations after one more card. */
  lemma LocalizedStep(entries: map<string, Entry>, b: Batch, n: nat, st: Settings)
    requires 0 < n <= |b.cards|
    ensures var before, c := OfferedAll(entries, FirstOffers(b, n - 1, st)), b.cards[n - 1];
            OfferedAll(entries, FirstOffers(b, n, st)) ==
              if IsToken(c) then before else Collected(before, OfferKey(b, n - 1), c, b.set_, !IsSplit(c), st)
  {
    hide OfferedAll, Collected, CardOffers, OfferKey, Offer;
    OfferedConcat(entries, FirstOffers(b, n - 1, st), CardOffers(b, n - 1, st));
    OneOffer(OfferedAll(entries, FirstOffers(b, n - 1, st)), b, n - 1, st);
  }

  lemma GroupNamesStep(groups: seq<Group>, key: string, name: string, part: Part)
    ensures NormalizedNames(WithPart(groups, key, name, part)) ==
            NormalizedNames(groups) + if key in GroupKeys(groups) then {} else {NormalizeCardName(name)}
  {
    hide WithPart, NormalizedNames, NormalizeCardName, GroupKeys, GroupNames;
    WithPartAdds(groups, key, name, part);
    NormalizedNamesOfGroups(groups);
    NormalizedNamesOfGroups(WithPart(groups, key, name, part));
  }

  lemma SplitCardStep(b: Batch, n: nat)
    requires 0 < n <= |b.cards| && IsSplit(b.cards[n - 1])
    ensures var c := b.cards[n - 1];
            var key := c.name + c.number;
            && !IsToken(c) && OfferKey(b, n - 1) == NormalizeCardName(c.name)
            && NamesBefore(b, n) == NamesBefore(b, n - 1) + {FaceNameOf(c)}
            && OpenBefore(b, n) == OpenBefore(b, n - 1) + {key}
            && OwnKeys(b, n) == OwnKeys(b, n - 1) + if key in OpenBefore(b, n - 1) then {} else {NormalizeCardName(c.name)}
  {
    hide NormalizeCardName;
  }

  lemma SplitStep(db: Database, p: Pass, b: Batch, n: nat, st: Settings)
    requires 0 < n <= |b.cards| && PassDone(db, p, b, n - 1, st) && IsSplit(b.cards[n - 1])
    ensures PassDone(db, AfterCard(p, b.cards[n - 1], b.set_, st), b, n, st)
  {
    hide NormalizeCardName, OfferedAll, FirstOffers, PartOf, WithPart, Collected, OfferKey, NormalizedNames, GroupKeys;
    hide NamesBefore, OpenBefore, OwnKeys, FaceNameOf;
    var c := b.cards[n - 1];
    SplitCardStep(b, n);
    LocalizedStep(db.localized, b, n, st);
    WithPartAdds(p.groups, c.name + c.number, c.name, PartOf(c, b.set_, st));
    GroupNamesStep(p.groups, c.name + c.number, c.name, PartOf(c, b.set_, st));
  }

  lemma AddedKeys(cards: map<string, Card>, name: string, c: SourceCard, p: Properties, printing: Printing, st: Settings)
    ensures var added := AddedCard(cards, name, c.text, p, printing, st);
            && added.Keys == cards.Keys + {NormalizeCardName(name)}
            && WithFace(added, name, Face(c.name, FaceNameOf(c), c.text)).Keys == added.Keys
  {
    hide NormalizeCardName, NewProperties, WithPrinting;
  }

  lemma OrdinaryCardStep(b: Batch, n: nat)
    requires 0 < n <= |b.cards| && !IsSplit(b.cards[n - 1])
    ensures var c := b.cards[n - 1];
            && OfferKey(b, n - 1) == NormalizeCardName(CardName(c, b.set_, NamesBefore(b, n - 1)))
            && NamesBefore(b, n) == NamesBefore(b, n - 1) + (if IsToken(c) then {} else {FaceNameOf(c)})
            && OpenBefore(b, n) == OpenBefore(b, n - 1)
            && OwnKeys(b, n) == OwnKeys(b, n - 1) + if IsToken(c) then {} else {OfferKey(b, n - 1)}
  {
    hide NormalizeCardName, CardName;
  }

  lemma OrdinaryStep(db: Database, p: Pass, b: Batch, n: nat, st: Settings)
    requires 0 < n <= |b.cards| && PassDone(db, p, b, n - 1, st) && !IsSplit(b.cards[n - 1])
    ensures PassDone(db, AfterCard(p, b.cards[n - 1], b.set_, st), b, n, st)
  {
    hide NormalizeCardName, OfferedAll, FirstOffers, CardName, CardProperties, NormalizedNames, AddedCard, WithFace;
    hide NamesBefore, OpenBefore, OwnKeys, FaceNameOf, Collected, OfferKey, GroupKeys, IsSplit;
    var c := b.cards[n - 1];
    OrdinaryCardStep(b, n);
    LocalizedStep(db.localized, b, n, st);
    var name := CardName(c, b.set_, p.names);
    AddedKeys(p.db.cards, name, c, CardProperties(c), Printing(b.set_.shortName, c.printing), st);
  }

  /** A pass over the first n cards of a set. */
  lemma {:induction false} PassState(db: Database, b: Batch, n: nat, st: Settings)
    requires n <= |b.cards|
    ensures PassDone(db, AfterCards(db, b.cards[..n], b.set_, st), b, n, st)
    decreases n
  {
    if n > 0 {
      hide PassDone, AfterCard;
      var cards := b.cards[..n];
      assert cards[..n - 1] == b.cards[..n - 1] && cards[n - 1] == b.cards[n - 1];
      PassState(db, b, n - 1, st);
      var p := AfterCards(db, b.cards[..n - 1], b.set_, st);
      if IsSplit(b.cards[n - 1]) { SplitStep(db, p, b, n, st); } else { OrdinaryStep(db, p, b, n, st); }
    }
  }

  lemma OneOffer(entries: map<string, Entry>, b: Batch, i: nat, st: Settings)
    requires i < |b.cards|
    ensures OfferedAll(entries, CardOffers(b, i, st)) ==
            if IsToken(b.cards[i]) then entries
            else Collected(entries, OfferKey(b, i), b.cards[i], b.set_, !IsSplit(b.cards[i]), st)
  {
    var offers := CardOffers(b, i, st);
    if offers != [] { assert offers[..0] == []; }
  }

  lemma {:induction false} GroupsAddNames(db: Database, groups: seq<Group>, set_: CurrentSet, st: Settings)
    requires HaveParts(groups)
    ensures var r := WithGroups(db, groups, set_, st);
            && r.cards.Keys == db.cards.Keys + NormalizedNames(groups)
            && r.localized == db.localized
            && r.splitTexts.Keys <= db.splitTexts.Keys + NormalizedNames(groups)
    decreases |groups|
  {
    if groups != [] {
      var n := |groups| - 1;
      GroupsAddNames(db, groups[..n], set_, st);
      NamesOfLast(groups);
      var before := WithGroups(db, groups[..n], set_, st);
      var g := groups[n];
      FacesKeepProperties(AddedCard(before.cards, g.name, JoinedText(Texts(g.parts)),
                                    MergedProperties(PartProperties(g.parts)), MergedPrinting(g.parts), st),
                          g.name, g.parts);
    }
  }

  lemma {:induction false} NamesOfLast(groups: seq<Group>)
    requires groups != []
    ensures NormalizedNames(groups) ==
            NormalizedNames(groups[..|groups| - 1]) + {NormalizeCardName(groups[|groups| - 1].name)}
    decreases |groups|
  {
    if |groups| > 1 {
      NamesOfLast(groups[1..]);
      assert groups[1..][..|groups| - 2] == groups[..|groups| - 1][1..];
    }
  }

  /** What a merged split card offers: its faces' translated texts joined, if every face has one. */
  function GroupOffer(g: Group, set_: CurrentSet, st: Settings): seq<Offering> {
    var translation := MergedTranslation(g.parts);
    if st.localizationEnabled && translation != ""
    then [Offering(NormalizeCardName(g.name), Entry("", translation, set_.priority))] else []
  }

  function SplitOffers(groups: seq<Group>, set_: CurrentSet, st: Settings): seq<Offering>
    decreases |groups|
  {
    if groups == [] then []
    else SplitOffers(groups[..|groups| - 1], set_, st) + GroupOffer(groups[|groups| - 1], set_, st)
  }

  /** The split cards of a set, in the order of their keys. */
  function GroupsOf(b: Batch, st: Settings): seq<Group> {
    AfterCards(NOTHING, b.cards, b.set_, st).groups
  }

  /** Every joined text offered, set by set. */
  function AllSplitOffers(batches: seq<Batch>, st: Settings): seq<Offering>
    decreases |batches|
  {
    if batches == [] then []
    else
      var n := |batches| - 1;
      AllSplitOffers(batches[..n], st) + SplitOffers(GroupsOf(batches[n], st), batches[n].set_, st)
  }

  /** Which split cards a set has does not depend on what was imported before. */
  lemma {:induction false} GroupsAreOwn(db: Database, cards: seq<SourceCard>, set_: CurrentSet, st: Settings)
    ensures AfterCards(db, cards, set_, st).groups == AfterCards(NOTHING, cards, set_, st).groups
    decreases |cards|
  {
    if cards != [] {
      hide Collected, AddedCard, WithFace, CardName, PartOf, WithPart;
      GroupsAreOwn(db, cards[..|cards| - 1], set_, st);
    }
  }

  lemma {:induction false} GroupsOfferTexts(db: Database, groups: seq<Group>, set_: CurrentSet, st: Settings)
    requires HaveParts(groups)
    ensures WithGroups(db, groups, set_, st).splitTexts == OfferedAll(db.splitTexts, SplitOffers(groups, set_, st))
    decreases |groups|
  {
    if groups != [] {
      hide AddedCard, WithFaces, MergedTranslation, NormalizeCardName, Offered, MergedProperties, MergedPrinting, JoinedText;
      var n := |groups| - 1;
      GroupsOfferTexts(db, groups[..n], set_, st);
      OfferedConcat(db.splitTexts, SplitOffers(groups[..n], set_, st), GroupOffer(groups[n], set_, st));
      OneGroupOffer(WithGroups(db, groups[..n], set_, st), groups[n], set_, st);
    }
  }

  lemma OneGroupOffer(db: Database, g: Group, set_: CurrentSet, st: Settings)
    requires g.parts != []
    ensures WithGroup(db, g, set_, st).splitTexts == OfferedAll(db.splitTexts, GroupOffer(g, set_, st))
  {
    hide AddedCard, WithFaces, MergedTranslation, NormalizeCardName, Offered, MergedProperties, MergedPrinting, JoinedText;
    var offers := GroupOffer(g, set_, st);
    if offers != [] { assert offers[..0] == []; }
  }

  /** One set more. */
  lemma SetImported(db: Database, b: Batch, st: Settings)
    ensures var r := ImportedSet(db, b.cards, b.set_, st);
            && r.cards.Keys == db.cards.Keys + OwnKeys(b, |b.cards|)
            && r.localized == OfferedAll(db.localized, FirstOffers(b, |b.cards|, st))
            && r.splitTexts == OfferedAll(db.splitTexts, SplitOffers(GroupsOf(b, st), b.set_, st))
            && r.splitTexts.Keys <= db.splitTexts.Keys + r.cards.Keys
  {
    hide AfterCards, WithGroups, OwnKeys, FirstOffers, SplitOffers, OfferedAll, NormalizedNames;
    GroupsHaveParts(db, b.cards, b.set_, st);
    var p := AfterCards(db, b.cards, b.set_, st);
    assert b.cards[..|b.cards|] == b.cards;
    PassState(db, b, |b.cards|, st);
    GroupsAddNames(p.db, p.groups, b.set_, st);
    GroupsAreOwn(db, b.cards, b.set_, st);
    GroupsOfferTexts(p.db, p.groups, b.set_, st);
  }

  /** After any sequence of sets: the cards' keys, the kept translations and the kept joined texts. */
  lemma {:induction false} DatabaseAfter(batches: seq<Batch>, st: Settings)
    ensures var db := ImportedAll(batches, st);
            && db.cards.Keys == AllOwnKeys(batches)
            && db.localized == OfferedAll(map[], AllOffers(batches, st))
            && db.splitTexts == OfferedAll(map[], AllSplitOffers(batches, st))
            && db.splitTexts.Keys <= db.cards.Keys
    decreases |batches|
  {
    if batches != [] {
      hide ImportedSet, OwnKeys, FirstOffers, SplitOffers, OfferedAll, GroupsOf;
      var n := |batches| - 1;
      DatabaseAfter(batches[..n], st);
      SetImported(ImportedAll(batches[..n], st), batches[n], st);
      OfferedConcat(map[], AllOffers(batches[..n], st), FirstOffers(batches[n], |batches[n].cards|, st));
      OfferedConcat(map[], AllSplitOffers(batches[..n], st), SplitOffers(GroupsOf(batches[n], st), batches[n].set_, st));
    }
  }

  // ----- translations and cards -----

  /** A translated face joins a group that another face has opened. */
  predicate JoinsTranslated(b: Batch, i: nat, st: Settings)
    requires i < |b.cards|
  {
    Joins(b, i) && !IsToken(b.cards[i]) && Offer(b.cards[i], b.set_, false, st) != []
  }

  /** Every translated face that joins a group bears, normalized, the name of some card that is imported. */
  ghost predicate JoiningNamesImported(batches: seq<Batch>, st: Settings) {
    forall k, i :: 0 <= k < |batches| && 0 <= i < |batches[k].cards| && JoinsTranslated(batches[k], i, st) ==>
      NormalizeCardName(batches[k].cards[i].name) in AllOwnKeys(batches)
  }

  predicate Offers(b: Batch, i: nat, x: Offering, st: Settings)
    requires i < |b.cards|
  {
    CardOffers(b, i, st) == [x]
  }

  lemma OffersStep(b: Batch, n: nat, x: Offering, st: Settings)
    requires 0 < n <= |b.cards|
    ensures x in FirstOffers(b, n, st) <==> x in FirstOffers(b, n - 1, st) || Offers(b, n - 1, x, st)
  {
    hide Offer, OfferKey;
  }

  /** One of the first n cards makes that offer. */
  ghost predicate SomeOffers(b: Batch, n: nat, x: Offering, st: Settings)
    requires n <= |b.cards|
  {
    exists i :: 0 <= i < n && Offers(b, i, x, st)
  }

  /** An offer is made by some card of the set, and every offer of a card is made. */
  lemma {:induction false} OffersOf(b: Batch, n: nat, x: Offering, st: Settings)
    requires n <= |b.cards|
    ensures x in FirstOffers(b, n, st) <==> SomeOffers(b, n, x, st)
    decreases n
  {
    if n == 0 {
      assert FirstOffers(b, n, st) == [];
    } else {
      hide FirstOffers, Offers;
      OffersOf(b, n - 1, x, st);
      OffersStep(b, n, x, st);
      assert SomeOffers(b, n, x, st) <==> SomeOffers(b, n - 1, x, st) || Offers(b, n - 1, x, st) by {
        hide SomeOffers;
        SomeOffersStep(b, n, x, st);
      }
    }
  }

  lemma SomeOffersStep(b: Batch, n: nat, x: Offering, st: Settings)
    requires 0 < n <= |b.cards|
    ensures SomeOffers(b, n, x, st) <==> SomeOffers(b, n - 1, x, st) || Offers(b, n - 1, x, st)
  {
    hide Offers;
    if i :| 0 <= i < n - 1 && Offers(b, i, x, st) {
      assert 0 <= i < n && Offers(b, i, x, st);
    }
  }

  /** One of the first n sets has a card that makes that offer. */
  ghost predicate SomeSetOffers(batches: seq<Batch>, n: nat, x: Offering, st: Settings)
    requires n <= |batches|
  {
    exists k :: 0 <= k < n && SomeOffers(batches[k], |batches[k].cards|, x, st)
  }

  lemma SomeSetOffersStep(batches: seq<Batch>, n: nat, x: Offering, st: Settings)
    requires 0 < n <= |batches|
    ensures SomeSetOffers(batches, n, x, st)
            <==> SomeSetOffers(batches, n - 1, x, st) || SomeOffers(batches[n - 1], |batches[n - 1].cards|, x, st)
  {
    hide SomeOffers;
    if k :| 0 <= k < n - 1 && SomeOffers(batches[k], |batches[k].cards|, x, st) {
      assert 0 <= k < n;
    }
  }

  lemma {:induction false} OffersOfFirst(batches: seq<Batch>, n: nat, x: Offering, st: Settings)
    requires n <= |batches|
    ensures x in AllOffers(batches[..n], st) <==> SomeSetOffers(batches, n, x, st)
    decreases n
  {
    if n > 0 {
      hide FirstOffers, SomeOffers, SomeSetOffers;
      OffersOfFirst(batches, n - 1, x, st);
      OffersOf(batches[n - 1], |batches[n - 1].cards|, x, st);
      SomeSetOffersStep(batches, n, x, st);
      assert batches[..n][..n - 1] == batches[..n - 1];
    }
  }

  lemma OffersOfAll(batches: seq<Batch>, x: Offering, st: Settings)
    ensures x in AllOffers(batches, st) <==> SomeSetOffers(batches, |batches|, x, st)
  {
    hide AllOffers, SomeSetOffers;
    OffersOfFirst(batches, |batches|, x, st);
    assert batches[..|batches|] == batches;
  }

  lemma {:induction false} OwnKeyIsOwn(b: Batch, n: nat, i: nat)
    requires i < n <= |b.cards| && !IsToken(b.cards[i]) && !Joins(b, i)
    ensures OfferKey(b, i) in OwnKeys(b, n)
    decreases n
  {
    hide OfferKey, Joins, OpenBefore, IsToken;
    if i < n - 1 { OwnKeyIsOwn(b, n - 1, i); }
  }

  lemma {:induction false} OwnKeysInAll(batches: seq<Batch>, k: nat)
    requires k < |batches|
    ensures OwnKeys(batches[k], |batches[k].cards|) <= AllOwnKeys(batches)
    decreases |batches|
  {
    if k < |batches| - 1 { OwnKeysInAll(batches[..|batches| - 1], k); }
  }

  lemma OfferHasCard(batches: seq<Batch>, k: nat, i: nat, x: Offering, st: Settings)
    requires k < |batches| && i < |batches[k].cards| && Offers(batches[k], i, x, st)
    requires JoiningNamesImported(batches, st)
    ensures x.key in AllOwnKeys(batches)
  {
    var b := batches[k];
    if Joins(b, i) {
      assert JoinsTranslated(b, i, st);
    } else {
      OwnKeyIsOwn(b, |b.cards|, i);
      OwnKeysInAll(batches, k);
    }
  }

  /** Every translation has its card if and only if every translated joining face's name is imported. */
  lemma TranslationsHaveCards(batches: seq<Batch>, st: Settings)
    ensures ImportedAll(batches, st).localized.Keys <= ImportedAll(batches, st).cards.Keys
            <==> JoiningNamesImported(batches, st)
  {
    hide ImportedAll, AllOffers, AllOwnKeys, OfferedAll, Offers;
    DatabaseAfter(batches, st);
    var db, offers := ImportedAll(batches, st), AllOffers(batches, st);
    if JoiningNamesImported(batches, st) {
      forall key | key in db.localized ensures key in db.cards {
        KeptIsFirstOfLowest(offers, key);
        var j :| 0 <= j < |offers| && offers[j].key == key;
        OffersOfAll(batches, offers[j], st);
        var k :| 0 <= k < |batches| && SomeOffers(batches[k], |batches[k].cards|, offers[j], st);
        var i :| 0 <= i < |batches[k].cards| && Offers(batches[k], i, offers[j], st);
        OfferHasCard(batches, k, i, offers[j], st);
      }
    }
    if db.localized.Keys <= db.cards.Keys {
      forall k, i | 0 <= k < |batches| && 0 <= i < |batches[k].cards| && JoinsTranslated(batches[k], i, st)
        ensures NormalizeCardName(batches[k].cards[i].name) in AllOwnKeys(batches)
      {
        var x := JoiningOffer(batches[k], i, st);
        assert SomeOffers(batches[k], |batches[k].cards|, x, st);
        assert SomeSetOffers(batches, |batches|, x, st);
        OffersOfAll(batches, x, st);
        KeptIsFirstOfLowest(offers, x.key);
        assert x.key in db.localized.Keys;
      }
    }
  }

  lemma JoiningOffer(b: Batch, i: nat, st: Settings) returns (x: Offering)
    requires i < |b.cards| && JoinsTranslated(b, i, st)
    ensures Offers(b, i, x, st) && x.key == NormalizeCardName(b.cards[i].name)
  {
    x := CardOffers(b, i, st)[0];
  }

  /** Faces that share a group share a name. */
  predicate GroupsShareNames(b: Batch) {
    forall i, j :: 0 <= i < |b.cards| && 0 <= j < |b.cards| && IsSplit(b.cards[i]) && IsSplit(b.cards[j])
                   && b.cards[i].name + b.cards[i].number == b.cards[j].name + b.cards[j].number ==>
      b.cards[i].name == b.cards[j].name
  }

  lemma {:induction false} OpenerOwnsName(b: Batch, n: nat, key: string) returns (i: nat)
    requires n <= |b.cards| && key in OpenBefore(b, n)
    ensures i < n && IsSplit(b.cards[i]) && !Joins(b, i) && b.cards[i].name + b.cards[i].number == key
    decreases n
  {
    if key in OpenBefore(b, n - 1) {
      i := OpenerOwnsName(b, n - 1, key);
    } else {
      i := n - 1;
    }
  }

  /** Without clashing keys every translation has its card. */
  lemma NoClashesSuffice(batches: seq<Batch>, st: Settings)
    requires forall b <- batches :: GroupsShareNames(b)
    ensures ImportedAll(batches, st).localized.Keys <= ImportedAll(batches, st).cards.Keys
  {
    forall k, i | 0 <= k < |batches| && 0 <= i < |batches[k].cards| && JoinsTranslated(batches[k], i, st)
      ensures NormalizeCardName(batches[k].cards[i].name) in AllOwnKeys(batches)
    {
      var b := batches[k];
      assert GroupsShareNames(b);
      var j := OpenerOwnsName(b, i, b.cards[i].name + b.cards[i].number);
      OwnKeyIsOwn(b, |b.cards|, j);
      OwnKeysInAll(batches, k);
    }
    TranslationsHaveCards(batches, st);
  }

  function ClashingFace(name: string, number: string): SourceCard {
    SourceCard("split", name, "", "", number, "", "", map[], [], [], [], map[], [Foreign("German", "Name", "Text")])
  }

  /** Two faces whose names and numbers run together to the same key: A number 12, and A1 number 2. */
  function ClashingSet(): Batch {
    Batch(CurrentSet([], 0), [ClashingFace("A", "12"), ClashingFace("A1", "2")])
  }

  lemma ClashingKeys()
    ensures Joins(ClashingSet(), 1) && OwnKeys(ClashingSet(), 2) == {"A"}
    ensures NormalizeCardName("A1") == "A1"
  {
    var b := ClashingSet();
    assert "A" + "12" == "A12" && "A1" + "2" == "A12";
    assert OpenBefore(b, 0) == {} && OpenBefore(b, 1) == {"A12"};
    assert "A"[1..] == "" && "A1"[1..] == "1" && "1"[1..] == "";
    assert NormalizeCardName("1") == "1";
    assert NormalizeCardName("A") == "A" && NormalizeCardName("A1") == "A1";
    assert OwnKeys(b, 0) == {} && OwnKeys(b, 1) == {"A"};
  }

  lemma ClashingOffer(st: Settings)
    requires st.localizationEnabled && st.cardLang == "de"
    ensures Offer(ClashingFace("A1", "2"), CurrentSet([], 0), false, st) != []
  {}

  /** There the second name keeps a translation without a card. */
  lemma ClashLosesCard(st: Settings)
    requires st.localizationEnabled && st.cardLang == "de"
    ensures !(ImportedAll([ClashingSet()], st).localized.Keys <= ImportedAll([ClashingSet()], st).cards.Keys)
  {
    hide Offer, NormalizeCardName, Joins, OwnKeys;
    var batches := [ClashingSet()];
    ClashingKeys();
    ClashingOffer(st);
    assert batches[..0] == [];
    assert AllOwnKeys([]) == {};
    assert AllOwnKeys(batches) == {"A"};
    assert JoinsTranslated(batches[0], 1, st);
    TranslationsHaveCards(batches, st);
  }
}
