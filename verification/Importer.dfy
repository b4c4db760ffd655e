/**
 The importer of oracle/src/oracleimporter.cpp and .h: reading the set list, and an import that either
 takes in every selected set or leaves nothing behind.
 */
module Importer {
  import opened Bytes
  import opened JsonGrammar
  import opened SetRanges
  import opened ScanTheorems
  import opened SetScanner
  import opened CardImport
  import opened CardImportTheorems
  import opened SplitCards

  /** What QJsonDocument::fromJson and the card list of a set's slice come to. */
  datatype ParsedSet = ParseError | NoCardList | CardList(cards: seq<SourceCard>)

  /** The library calls and string tables the importer rests on. */
  datatype Library = Library(
    utf8: Utf8Decoder, toUpper: units -> units, foldCase: units -> units, setTypeName: units -> units,
    setPriority: (units, units) -> int, parseSet: bytes -> ParsedSet)

  datatype RawRange = RawRange(start: int, length: int, cardCount: int)

  datatype SetToDownload = SetToDownload(
    shortName: units, longName: units, priority: int, setType: units, releaseDate: units, rawRange: RawRange)

  datatype Message =
    | NoMessage
    | NoSetSelected
    | ImportCancelled
    | SourceUnavailable(setName: units)
    | CouldNotImport(setName: units)
    | NoCards(setName: units)
    | NoCardsImported

  /** "TK", the set of tokens that is always there. */
  const TOKENS_SETNAME: units := [0x54, 0x4B]

  /** Everything an importer holds. */
  datatype ImporterState = ImporterState(
    db: Database, sets: set<units>, allSets: seq<SetToDownload>, rawSetsData: bytes,
    cancelled: bool, successful: bool, error: Message)

  // ----- the set list, sorted by long name -----

  function ToDownload(r: SetRange, lib: Library): SetToDownload {
    var shortName := lib.toUpper(r.code);
    SetToDownload(shortName, r.name, lib.setPriority(r.setType, shortName), lib.setTypeName(r.setType), r.releaseDate,
                  RawRange(r.start, r.length, r.cardCount))
  }

  function Downloads(rs: seq<SetRange>, lib: Library): seq<SetToDownload> {
    seq(|rs|, i requires 0 <= i < |rs| => ToDownload(rs[i], lib))
  }

  predicate LexLessUnits(a: units, b: units) {
    if b == [] then false
    else if a == [] then true
    else a[0] < b[0] || (a[0] == b[0] && LexLessUnits(a[1..], b[1..]))
  }

  /** SetToDownload::operator<: long names compared without regard to case. */
  predicate Less(a: SetToDownload, b: SetToDownload, lib: Library) {
    LexLessUnits(lib.foldCase(a.longName), lib.foldCase(b.longName))
  }

  /** No set stands before one that is less. */
  predicate SortedByName(sets: seq<SetToDownload>, lib: Library) {
    forall i, j :: 0 <= i < j < |sets| ==> !Less(sets[j], sets[i], lib)
  }

  lemma {:induction false} LessTransitive(a: units, b: units, c: units)
    requires !LexLessUnits(b, a) && !LexLessUnits(c, b)
    ensures !LexLessUnits(c, a)
    decreases |a|
  {
    if a != [] && b != [] && c != [] && a[0] == b[0] == c[0] {
      LessTransitive(a[1..], b[1..], c[1..]);
    }
  }

  lemma {:induction false} LessAsymmetric(a: units, b: units)
    requires LexLessUnits(a, b)
    ensures !LexLessUnits(b, a)
    decreases |a|
  {
    if a != [] && b != [] && a[0] == b[0] { LessAsymmetric(a[1..], b[1..]); }
  }

  /** std::sort: some permutation that is sorted; equal names may come out in any order. */
  method SortSets(sets: seq<SetToDownload>, lib: Library) returns (sorted: seq<SetToDownload>)
    ensures SortedByName(sorted, lib) && multiset(sorted) == multiset(sets)
  {
    sorted := [];
    for i := 0 to |sets|
      invariant SortedByName(sorted, lib) && multiset(sorted) == multiset(sets[..i])
    {
      assert sets[..i + 1] == sets[..i] + [sets[i]];
      sorted := InsertSet(sorted, sets[i], lib);
    }
    assert sets[..|sets|] == sets;
  }

  method InsertSet(sets: seq<SetToDownload>, x: SetToDownload, lib: Library) returns (r: seq<SetToDownload>)
    requires SortedByName(sets, lib)
    ensures SortedByName(r, lib) && multiset(r) == multiset(sets) + multiset{x}
  {
    hide Less;
    var k := |sets|;
    while k > 0 && Less(x, sets[k - 1], lib)
      invariant 0 <= k <= |sets|
      invariant forall j :: k <= j < |sets| ==> Less(x, sets[j], lib)
    {
      k := k - 1;
    }
    r := sets[..k] + [x] + sets[k..];
    assert sets == sets[..k] + sets[k..];
    forall i | 0 <= i < k ensures !Less(x, sets[i], lib) {
      NotLess(sets, i, k - 1, x, lib);
    }
    forall j | k <= j < |sets| ensures !Less(sets[j], x, lib) {
      NotBoth(x, sets[j], lib);
    }
  }

  lemma NotLess(sets: seq<SetToDownload>, i: nat, k: nat, x: SetToDownload, lib: Library)
    requires SortedByName(sets, lib) && i <= k < |sets| && !Less(x, sets[k], lib)
    ensures !Less(x, sets[i], lib)
  {
    if i < k {
      LessTransitive(lib.foldCase(sets[i].longName), lib.foldCase(sets[k].longName), lib.foldCase(x.longName));
    }
  }

  lemma NotBoth(a: SetToDownload, b: SetToDownload, lib: Library)
    requires Less(a, b, lib)
    ensures !Less(b, a, lib)
  {
    LessAsymmetric(lib.foldCase(a.longName), lib.foldCase(b.longName));
  }

  method BuildSetList(ranges: seq<SetRange>, lib: Library) returns (newSetList: seq<SetToDownload>)
    ensures SortedByName(newSetList, lib) && multiset(newSetList) == multiset(Downloads(ranges, lib))
    ensures ranges != [] ==> newSetList != []
  {
    newSetList := [];
    for i := 0 to |ranges|
      invariant newSetList == Downloads(ranges[..i], lib)
    {
      newSetList := newSetList + [ToDownload(ranges[i], lib)];
    }
    assert ranges[..|ranges|] == ranges;
    newSetList := SortSets(newSetList, lib);
    assert ranges != [] ==> Downloads(ranges, lib)[0] in multiset(newSetList);
  }

  // ----- the bounds check on slices -----

  predicate SliceInBounds(r: RawRange, size: nat) {
    r.start >= 0 && r.length > 0 && r.start <= size && r.length <= size - r.start
  }

  lemma PermutedInBounds(sets: seq<SetToDownload>, rs: seq<SetRange>, data: bytes, lib: Library)
    requires multiset(sets) == multiset(Downloads(rs, lib)) && GoodSlices(rs, data, 0, |data|)
    ensures forall x <- sets :: SliceInBounds(x.rawRange, |data|)
  {
    forall x | x in sets ensures SliceInBounds(x.rawRange, |data|) {
      assert x in multiset(sets);
      assert x in Downloads(rs, lib);
      var i :| 0 <= i < |rs| && Downloads(rs, lib)[i] == x;
      assert GoodSlice(rs[i], data, 0, |data|);
    }
  }

  // ----- one import, step by step -----

  /** failImport: nothing of an import that fails is kept. */
  function Failed(s: ImporterState, message: Message): ImporterState {
    s.(db := NOTHING, sets := {}, successful := false, error := message)
  }

  function Prepared(s: ImporterState): ImporterState {
    s.(cancelled := false, successful := false, error := NoMessage)
  }

  /** The start of startImport. */
  function Begun(s: ImporterState): ImporterState {
    if s.allSets == [] then Failed(s, NoSetSelected)
    else s.(db := NOTHING, sets := {TOKENS_SETNAME}, successful := false, error := NoMessage)
  }

  function SliceOf(x: SetToDownload, data: bytes): bytes
    requires SliceInBounds(x.rawRange, |data|)
  {
    data[x.rawRange.start..x.rawRange.start + x.rawRange.length]
  }

  function ParsedSlice(x: SetToDownload, data: bytes, lib: Library): ParsedSet {
    if SliceInBounds(x.rawRange, |data|) then lib.parseSet(SliceOf(x, data)) else ParseError
  }

  function Refusal(x: SetToDownload, data: bytes, lib: Library): Message {
    if !SliceInBounds(x.rawRange, |data|) then SourceUnavailable(x.shortName)
    else if lib.parseSet(SliceOf(x, data)).ParseError? then CouldNotImport(x.shortName)
    else NoCards(x.shortName)
  }

  /** One set taken in, or the import failed. */
  function WithSet(s: ImporterState, i: nat, lib: Library, st: Settings): ImporterState
    requires i < |s.allSets|
  {
    var x := s.allSets[i];
    match ParsedSlice(x, s.rawSetsData, lib)
    case CardList(cards) =>
      s.(sets := s.sets + {x.shortName}, db := ImportedSet(s.db, cards, CurrentSet(x.shortName, x.priority), st))
    case _ => Failed(s, Refusal(x, s.rawSetsData, lib))
  }

  function Translated(cards: map<string, Card>, key: string, e: Entry): map<string, Card> {
    if key !in cards then cards
    else
      var c := if e.name == "" then cards[key] else cards[key].(localizedName := e.name);
      cards[key := if e.text == "" then c else c.(localizedText := e.text)]
  }

  /** A translation touches its own card only. */
  lemma TranslatedAlone(cards: map<string, Card>, key: string, e: Entry)
    requires key in cards
    ensures Translated(cards, key, e).Keys == cards.Keys
    ensures key in Translated(map[key := cards[key]], key, e)
    ensures Translated(cards, key, e)[key] == Translated(map[key := cards[key]], key, e)[key]
  {}

  lemma TranslatedElsewhere(before: map<string, Card>, cards: map<string, Card>, key: string, e: Entry)
    requires cards.Keys == before.Keys && (key in before ==> cards[key] == before[key])
    ensures Translated(cards, key, e).Keys == cards.Keys == Translated(before, key, e).Keys
    ensures key in before ==> Translated(cards, key, e)[key] == Translated(before, key, e)[key]
    ensures forall k <- before :: k != key ==> Translated(cards, key, e)[k] == cards[k]
  {}

  /** A card with its collected translation, and over it the joined text of its faces. */
  function LocalizedCard(c: Card, key: string, db: Database): Card {
    var named := if key in db.localized then Translated(map[key := c], key, db.localized[key])[key] else c;
    if key in db.splitTexts && db.splitTexts[key].text != "" then named.(localizedText := db.splitTexts[key].text)
    else named
  }

  function WithTranslations(db: Database, st: Settings): Database {
    if st.localizationEnabled
    then Database(map key | key in db.cards :: LocalizedCard(db.cards[key], key, db), map[], map[])
    else db
  }

  /** The end of startImport, past the last poll. */
  function Closed(s: ImporterState, st: Settings): ImporterState {
    if s.db.cards == map[] then Failed(s, NoCardsImported)
    else s.(db := WithTranslations(s.db, st), successful := true)
  }

  // ----- a whole import -----

  function Importable(s: ImporterState, n: nat, lib: Library): bool
    requires n <= |s.allSets|
  {
    forall i :: 0 <= i < n ==> ParsedSlice(s.allSets[i], s.rawSetsData, lib).CardList?
  }

  /** The importer with the first n sets taken in. */
  function AfterSets(s: ImporterState, n: nat, lib: Library, st: Settings): ImporterState
    requires n <= |s.allSets| && s.allSets != []
    ensures AfterSets(s, n, lib, st).allSets == s.allSets && AfterSets(s, n, lib, st).rawSetsData == s.rawSetsData
  {
    if n == 0 then Begun(s) else WithSet(AfterSets(s, n - 1, lib, st), n - 1, lib, st)
  }

  /** The first n sets with their card lists, as the translation theorems see them. */
  function BatchesOf(s: ImporterState, n: nat, lib: Library): seq<Batch>
    requires n <= |s.allSets| && Importable(s, n, lib)
  {
    seq(n, i requires 0 <= i < n =>
      Batch(CurrentSet(s.allSets[i].shortName, s.allSets[i].priority),
            ParsedSlice(s.allSets[i], s.rawSetsData, lib).cards))
  }

  /** The database of a whole import is the fold of its sets, and names every one of them. */
  lemma {:induction false} AfterSetsImports(s: ImporterState, n: nat, lib: Library, st: Settings)
    requires n <= |s.allSets| && s.allSets != [] && Importable(s, n, lib)
    ensures AfterSets(s, n, lib, st).db == ImportedAll(BatchesOf(s, n, lib), st)
    ensures forall i :: 0 <= i < n ==> s.allSets[i].shortName in AfterSets(s, n, lib, st).sets
    decreases n
  {
    hide ImportedSet, ParsedSlice, Failed, Refusal;
    if n > 0 {
      assert Importable(s, n - 1, lib);
      AfterSetsImports(s, n - 1, lib, st);
      assert BatchesOf(s, n, lib)[..n - 1] == BatchesOf(s, n - 1, lib);
    }
  }

  /** Nothing of an import is left but its message. */
  ghost predicate LeftNothing(s: ImporterState) {
    !s.successful && s.db == NOTHING && s.sets == {} && s.error != NoMessage
  }

  lemma FailureLeavesNothing(s: ImporterState, message: Message)
    requires message != NoMessage
    ensures var f := Failed(s, message).(cancelled := true);
            LeftNothing(f) && f.allSets == s.allSets && f.rawSetsData == s.rawSetsData
  {}

  lemma BeginningOf(s: ImporterState, lib: Library, st: Settings)
    ensures Begun(s).allSets == s.allSets && Begun(s).rawSetsData == s.rawSetsData
    ensures Begun(s).cancelled == s.cancelled && !Begun(s).successful
    ensures if s.allSets == [] then LeftNothing(Begun(s)) else Importable(s, 0, lib) && AfterSets(s, 0, lib, st) == Begun(s)
  {}

  lemma OneMoreSet(s: ImporterState, i: nat, lib: Library, st: Settings)
    requires i < |s.allSets| && Importable(s, i, lib)
    ensures var now := AfterSets(s, i, lib, st);
            var next := WithSet(now, i, lib, st);
            && next == AfterSets(s, i + 1, lib, st) && next.cancelled == now.cancelled
            && (if ParsedSlice(now.allSets[i], now.rawSetsData, lib).CardList?
                then Importable(s, i + 1, lib) && next.successful == now.successful
                else LeftNothing(next))
  {
    hide ParsedSlice, Refusal;
    RefusalSays(s.allSets[i], s.rawSetsData, lib);
  }

  lemma RefusalSays(x: SetToDownload, data: bytes, lib: Library)
    ensures Refusal(x, data, lib) != NoMessage
  {}

  lemma ClosingOf(s: ImporterState, lib: Library, st: Settings)
    ensures Closed(s, st).allSets == s.allSets && Closed(s, st).rawSetsData == s.rawSetsData
    ensures Closed(s, st).cancelled == s.cancelled
    ensures if s.db.cards == map[] then LeftNothing(Closed(s, st))
            else Closed(s, st).successful && Closed(s, st).db.cards.Keys == s.db.cards.Keys
  {}

  /** What saveToFile writes. */
  datatype Saved = NotSaved | Saved(sets: set<units>, cards: map<string, Card>)

  class OracleImporter {
    const lib: Library
    const st: Settings
    var cards: map<string, Card>
    var sets: set<units>
    var allSets: seq<SetToDownload>
    var rawSetsData: bytes
    var importCancelled: bool
    var importSuccessful: bool
    var importError: Message
    var localizedEntries: map<string, Entry>
    var splitLocalizedTexts: map<string, Entry>

    ghost function Db(): Database
      reads this
    {
      Database(cards, localizedEntries, splitLocalizedTexts)
    }

    ghost function State(): ImporterState
      reads this
    {
      ImporterState(Db(), sets, allSets, rawSetsData, importCancelled, importSuccessful, importError)
    }

    constructor (lib: Library, st: Settings)
      ensures this.lib == lib && this.st == st
      ensures State() == ImporterState(NOTHING, {}, [], [], false, false, NoMessage)
    {
      this.lib, this.st := lib, st;
      cards, sets, allSets, rawSetsData := map[], {}, [], [];
      importCancelled, importSuccessful, importError := false, false, NoMessage;
      localizedEntries, splitLocalizedTexts := map[], map[];
    }

    /** The set list of a document: sorted, with slices that stand in it; on failure none at all. */
    method ReadSetsFromByteArray(data: bytes, progressReporting: bool) returns (ok: bool)
      modifies this
      ensures ok <==> Accepts(data, lib.utf8)
      ensures ok ==> rawSetsData == data && SortedByName(allSets, lib) && allSets != []
      ensures ok ==> forall d | IsDocument(data, d) ::
                multiset(allSets) == multiset(Downloads(AllRanges(TopMembers(d), lib.utf8), lib))
      ensures ok ==> forall x <- allSets :: SliceInBounds(x.rawRange, |data|)
      ensures !ok ==> allSets == [] && rawSetsData == []
      ensures State() == old(State()).(successful := false, error := NoMessage,
                                       allSets := allSets, rawSetsData := rawSetsData)
    {
      importSuccessful := false;
      importError := NoMessage;
      allSets := [];
      rawSetsData := [];
      hide Accepts, IsDocument, AllRanges, TopMembers, GoodSlices, SliceInBounds, SortedByName, Diagnosis;
      var ranges, error, reported := ScanSetRanges(data, lib.utf8, progressReporting);
      if error != NoError {
        return false;
      }
      var newSetList := BuildSetList(ranges, lib);
      AcceptedRanges(data, ranges, lib);
      PermutedInBounds(newSetList, ranges, data, lib);
      if newSetList == [] {
        return false;
      }
      allSets := newSetList;
      rawSetsData := data;
      return true;
    }

    method PrepareImport()
      modifies this
      ensures State() == Prepared(old(State()))
    {
      importCancelled, importSuccessful, importError := false, false, NoMessage;
    }

    method CancelImport()
      modifies this
      ensures State() == old(State()).(cancelled := true)
    {
      importCancelled := true;
    }

    method FailImport(message: Message) returns (result: nat)
      modifies this
      ensures result == 0 && State() == Failed(old(State()), message)
    {
      importSuccessful := false;
      importError := message;
      sets := {};
      cards := map[];
      localizedEntries := map[];
      splitLocalizedTexts := map[];
      return 0;
    }

    method ReleaseSetData()
      modifies this
      ensures State() == old(State()).(allSets := [], rawSetsData := [])
    {
      allSets, rawSetsData := [], [];
    }

    method Clear()
      modifies this
      ensures State() == ImporterState(NOTHING, {}, [], [], false, false, NoMessage)
    {
      PrepareImport();
      sets, cards, allSets, rawSetsData := {}, map[], [], [];
      localizedEntries, splitLocalizedTexts := map[], map[];
    }

    method AddCard(name: string, text: string, properties: Properties, printing: Printing)
      modifies this`cards
      ensures cards == AddedCard(old(cards), name, text, properties, printing, st)
    {
      var key := NormalizeCardName(name);
      if key in cards {
        var card := WithPrinting(cards[key], printing);
        if !(exists k <- card.properties :: IsLegality(k)) {
          card := card.(properties := WithLegalities(card.properties, properties));
        }
        cards := cards[key := card];
        return;
      }
      cards := cards[key := Card(key, text, NewProperties(properties, st), [printing], [], "", "")];
    }

    method CollectForeignData(cardKey: string, currentSet: CurrentSet, card: SourceCard, collectText: bool)
      modifies this`localizedEntries
      ensures localizedEntries == Collected(old(localizedEntries), cardKey, card, currentSet, collectText, st)
    {
      if !st.localizationEnabled {
        return;
      }
      var i := 0;
      while i < |card.foreign| && LanguageToCode(card.foreign[i].language) != st.cardLang
        invariant 0 <= i <= |card.foreign|
        invariant Matching(card.foreign[i..], st.cardLang) == Matching(card.foreign, st.cardLang)
      {
        i := i + 1;
      }
      if i == |card.foreign| {
        return;
      }
      var incoming := Entry(card.foreign[i].name, if collectText then card.foreign[i].text else "", currentSet.priority);
      if cardKey !in localizedEntries || incoming.priority < localizedEntries[cardKey].priority {
        localizedEntries := localizedEntries[cardKey := incoming];
      }
    }

    /** One card of a set: skipped, queued for merging, or added. */
    method ImportCard(currentSet: CurrentSet, card: SourceCard, groups0: seq<Group>, names0: set<string>, count0: nat)
      returns (groups: seq<Group>, names: set<string>, count: nat)
      modifies this`cards, this`localizedEntries
      ensures Pass(Db(), groups, names, count) == AfterCard(Pass(old(Db()), groups0, names0, count0), card, currentSet, st)
    {
      groups, names, count := groups0, names0, count0;
      if IsToken(card) {
        return;
      }
      var faceName := if card.faceName == "" then card.name else card.faceName;
      var numComponent := NumComponent(card, currentSet, names);
      names := names + {faceName};
      if IsSplit(card) {
        groups := WithPart(groups, card.name + card.number, card.name, PartOf(card, currentSet, st));
        CollectForeignData(NormalizeCardName(card.name), currentSet, card, false);
      } else {
        var name := (if card.side == "" then card.name else faceName) + numComponent;
        CollectForeignData(NormalizeCardName(name), currentSet, card, true);
        AddCard(name, card.text, CardProperties(card), Printing(currentSet.shortName, card.printing));
        cards := WithFace(cards, name, Face(card.name, faceName, card.text));
        count := count + 1;
      }
    }

    /** The faces of one split card merged. */
    method MergeParts(parts: seq<Part>)
      returns (text: string, localizedText: string, complete: bool, properties: Properties, printing: Printing)
      requires parts != []
      ensures text == JoinedText(Texts(parts))
      ensures (if complete then localizedText else "") == MergedTranslation(parts)
      ensures properties == MergedProperties(PartProperties(parts)) && printing == MergedPrinting(parts)
    {
      text, localizedText, complete := "", "", true;
      printing, properties := parts[0].printing, map[];
      for i := 0 to |parts|
        invariant text == JoinedText(Texts(parts[..i]))
        invariant complete == ("" !in LocalizedTexts(parts[..i]))
        invariant complete ==> localizedText == JoinedText(LocalizedTexts(parts[..i]))
        invariant properties == MergedProperties(PartProperties(parts[..i]))
        invariant i > 0 ==> printing == MergedPrinting(parts[..i])
      {
        var part := parts[i];
        PartsStep(parts, i);
        if text != "" {
          text := text + SPLIT_CARD_TEXT_SEPARATOR;
        }
        text := text + part.text;
        if complete {
          if part.localizedText == "" {
            complete := false;
          } else {
            if localizedText != "" {
              localizedText := localizedText + SPLIT_CARD_TEXT_SEPARATOR;
            }
            localizedText := localizedText + part.localizedText;
          }
        }
        if properties == map[] {
          properties := part.properties;
          printing := part.printing;
        } else {
          properties := MergeFace(properties, part.properties);
        }
      }
      assert parts[..|parts|] == parts;
    }

    /** The faces of one split card merged and added. */
    method ImportGroup(currentSet: CurrentSet, g: Group)
      requires g.parts != []
      modifies this`cards, this`splitLocalizedTexts
      ensures Db() == WithGroup(old(Db()), g, currentSet, st)
    {
      hide AddedCard, JoinedText, MergedProperties, MergedPrinting, MergedTranslation, NormalizeCardName;
      var text, localizedText, complete, properties, printing := MergeParts(g.parts);
      AddCard(g.name, text, properties, printing);
      if st.localizationEnabled && complete && localizedText != "" {
        var entry := Entry("", localizedText, currentSet.priority);
        var entryKey := NormalizeCardName(g.name);
        if entryKey !in splitLocalizedTexts || entry.priority < splitLocalizedTexts[entryKey].priority {
          splitLocalizedTexts := splitLocalizedTexts[entryKey := entry];
        }
      }
      AddFaces(g);
    }

    method AddFaces(g: Group)
      modifies this`cards
      ensures cards == WithFaces(old(cards), g.name, g.parts)
    {
      for i := 0 to |g.parts|
        invariant cards == WithFaces(old(cards), g.name, g.parts[..i])
      {
        assert g.parts[..i + 1][..i] == g.parts[..i];
        cards := WithFace(cards, g.name, Face(g.name, g.parts[i].name, g.parts[i].text));
      }
      assert g.parts[..|g.parts|] == g.parts;
    }

    method ImportCardsFromSet(currentSet: CurrentSet, cardsList: seq<SourceCard>) returns (numCards: nat)
      modifies this`cards, this`localizedEntries, this`splitLocalizedTexts
      ensures Db() == ImportedSet(old(Db()), cardsList, currentSet, st)
    {
      var groups: seq<Group>, names: set<string> := [], {};
      numCards := 0;
      for i := 0 to |cardsList|
        invariant Pass(Db(), groups, names, numCards) == AfterCards(old(Db()), cardsList[..i], currentSet, st)
      {
        assert cardsList[..i + 1][..i] == cardsList[..i];
        groups, names, numCards := ImportCard(currentSet, cardsList[i], groups, names, numCards);
      }
      assert cardsList[..|cardsList|] == cardsList;
      GroupsHaveParts(old(Db()), cardsList, currentSet, st);
      ghost var before := Db();
      for i := 0 to |groups|
        invariant Db() == WithGroups(before, groups[..i], currentSet, st)
      {
        assert groups[..i + 1][..i] == groups[..i];
        ImportGroup(currentSet, groups[i]);
        numCards := numCards + 1;
      }
      assert groups[..|groups|] == groups;
    }

    /** The names and texts of single entries reach their cards, whatever order the map yields them in. */
    method ApplyEntries()
      modifies this`cards
      ensures cards.Keys == old(cards).Keys
      ensures forall key <- cards :: cards[key] ==
                if key in localizedEntries then Translated(old(cards), key, localizedEntries[key])[key] else old(cards)[key]
    {
      ghost var before := cards;
      var pending := localizedEntries.Keys;
      while pending != {}
        invariant pending <= localizedEntries.Keys && cards.Keys == before.Keys
        invariant forall key <- before :: cards[key] ==
                    if key in localizedEntries && key !in pending then Translated(before, key, localizedEntries[key])[key]
                    else before[key]
        decreases pending
      {
        hide Translated;
        var key :| key in pending;
        TranslatedElsewhere(before, cards, key, localizedEntries[key]);
        cards := Translated(cards, key, localizedEntries[key]);
        pending := pending - {key};
      }
    }

    /** The joined texts of split cards come over them. */
    method ApplySplitTexts()
      modifies this`cards
      ensures cards.Keys == old(cards).Keys
      ensures forall key <- cards :: cards[key] ==
                if key in splitLocalizedTexts && splitLocalizedTexts[key].text != ""
                then old(cards)[key].(localizedText := splitLocalizedTexts[key].text) else old(cards)[key]
    {
      ghost var before := cards;
      var pending := splitLocalizedTexts.Keys;
      while pending != {}
        invariant pending <= splitLocalizedTexts.Keys && cards.Keys == before.Keys
        invariant forall key <- before :: cards[key] ==
                    if key in splitLocalizedTexts && key !in pending && splitLocalizedTexts[key].text != ""
                    then before[key].(localizedText := splitLocalizedTexts[key].text) else before[key]
        decreases pending
      {
        var key :| key in pending;
        pending := pending - {key};
        if key in cards && splitLocalizedTexts[key].text != "" {
          cards := cards[key := cards[key].(localizedText := splitLocalizedTexts[key].text)];
        }
      }
    }

    method ApplyLocalizedData()
      modifies this`cards, this`localizedEntries, this`splitLocalizedTexts
      ensures Db() == WithTranslations(old(Db()), st)
    {
      hide Translated;
      if !st.localizationEnabled {
        return;
      }
      ApplyEntries();
      localizedEntries := map[];
      ghost var named := cards;
      ApplySplitTexts();
      splitLocalizedTexts := map[];
      forall key | key in cards ensures cards[key] == LocalizedCard(old(cards)[key], key, old(Db())) {
        if key in old(localizedEntries) { TranslatedAlone(old(cards), key, old(localizedEntries)[key]); }
        assert cards[key] == if key in old(splitLocalizedTexts) && old(splitLocalizedTexts)[key].text != ""
                             then named[key].(localizedText := old(splitLocalizedTexts)[key].text) else named[key];
      }
    }

    /** startImport up to its first poll. */
    method BeginImport() returns (ok: bool)
      modifies this
      ensures ok == (allSets != []) && State() == Begun(old(State()))
    {
      importSuccessful, importError := false, NoMessage;
      sets, cards, localizedEntries, splitLocalizedTexts := {}, map[], map[], map[];
      if allSets == [] {
        var zero := FailImport(NoSetSelected);
        return false;
      }
      sets := sets + {TOKENS_SETNAME};
      return true;
    }

    /** One turn of startImport's loop, past its poll. */
    method ImportSet(i: nat) returns (ok: bool)
      requires i < |allSets|
      modifies this
      ensures ok == ParsedSlice(old(allSets)[i], old(rawSetsData), lib).CardList?
      ensures State() == WithSet(old(State()), i, lib, st)
    {
      var x := allSets[i];
      var r := x.rawRange;
      var zero: nat;
      if r.start < 0 || r.length <= 0 || r.start > |rawSetsData| || r.length > |rawSetsData| - r.start {
        zero := FailImport(SourceUnavailable(x.shortName));
        return false;
      }
      var setDoc := lib.parseSet(rawSetsData[r.start..r.start + r.length]);
      if setDoc.ParseError? {
        zero := FailImport(CouldNotImport(x.shortName));
        return false;
      }
      if !setDoc.CardList? {
        zero := FailImport(NoCards(x.shortName));
        return false;
      }
      sets := sets + {x.shortName};
      var numCards := ImportCardsFromSet(CurrentSet(x.shortName, x.priority), setDoc.cards);
      return true;
    }

    /** startImport past its last poll. */
    method FinishImport() returns (ok: bool)
      modifies this
      ensures ok == (old(cards) != map[]) && State() == Closed(old(State()), st)
    {
      if cards == map[] {
        var zero := FailImport(NoCardsImported);
        return false;
      }
      ApplyLocalizedData();
      importSuccessful := true;
      return true;
    }

    /** A poll of the cancellation flag, which the owning thread may set at any time before it. */
    method Poll() returns (ok: bool)
      modifies this
      ensures old(importCancelled) ==> !ok
      ensures ok ==> State() == old(State())
      ensures !ok ==> State() == Failed(old(State()), ImportCancelled).(cancelled := true)
    {
      var cancelledMeanwhile: bool := *;
      if cancelledMeanwhile {
        importCancelled := true;
      }
      if importCancelled {
        var zero := FailImport(ImportCancelled);
        return false;
      }
      return true;
    }

    /** Either every selected set has been taken in, or nothing is left of the import. */
    method StartImport() returns (result: nat)
      modifies this
      ensures allSets == old(allSets) && rawSetsData == old(rawSetsData)
      ensures old(importCancelled) ==> result == 0
      ensures result == 0 ==> !importSuccessful && cards == map[] && sets == {} && importError != NoMessage
                              && localizedEntries == map[] && splitLocalizedTexts == map[]
      ensures result != 0 ==> importSuccessful && !importCancelled && result == |allSets| && cards != map[]
      ensures result != 0 ==> Importable(old(State()), |allSets|, lib)
                              && State() == Closed(AfterSets(old(State()), |allSets|, lib, st), st)
    {
      hide Begun, WithSet, Closed, AfterSets, Importable, ParsedSlice, Failed;
      ghost var before := State();
      BeginningOf(before, lib, st);
      var ok := BeginImport();
      if !ok {
        return 0;
      }
      for setIndex := 0 to |allSets|
        invariant allSets == before.allSets && rawSetsData == before.rawSetsData
        invariant Importable(before, setIndex, lib) && State() == AfterSets(before, setIndex, lib, st)
        invariant importCancelled == before.cancelled && (setIndex > 0 ==> !importCancelled)
        invariant !importSuccessful
      {
        FailureLeavesNothing(State(), ImportCancelled);
        ok := Poll();
        if !ok {
          return 0;
        }
        OneMoreSet(before, setIndex, lib, st);
        ok := ImportSet(setIndex);
        if !ok {
          return 0;
        }
      }
      FailureLeavesNothing(State(), ImportCancelled);
      ok := Poll();
      if !ok {
        return 0;
      }
      ClosingOf(State(), lib, st);
      ok := FinishImport();
      if !ok {
        return 0;
      }
      return |allSets|;
    }

    /** Nothing is written unless the last import succeeded; the write itself may fail. */
    method SaveToFile() returns (written: Saved)
      ensures written.Saved? ==> importSuccessful && written == Saved(sets, cards)
    {
      if !importSuccessful {
        return NotSaved;
      }
      var diskOk: bool := *;
      return if diskOk then Saved(sets, cards) else NotSaved;
    }
  }

  lemma PartsStep(parts: seq<Part>, i: nat)
    requires i < |parts|
    ensures parts[..i + 1][..i] == parts[..i] && parts[..i + 1][i] == parts[i]
    ensures Texts(parts[..i + 1]) == Texts(parts[..i]) + [parts[i].text]
    ensures LocalizedTexts(parts[..i + 1]) == LocalizedTexts(parts[..i]) + [parts[i].localizedText]
    ensures PartProperties(parts[..i + 1]) == PartProperties(parts[..i]) + [parts[i].properties]
    ensures Texts(parts[..i + 1])[..i] == Texts(parts[..i])
    ensures LocalizedTexts(parts[..i + 1])[..i] == LocalizedTexts(parts[..i])
    ensures PartProperties(parts[..i + 1])[..i] == PartProperties(parts[..i])
  {}

  /** What the scanner has returned, by the theorems about it. */
  lemma AcceptedRanges(data: bytes, ranges: seq<SetRange>, lib: Library)
    requires Accepts(data, lib.utf8)
    requires forall d | IsDocument(data, d) :: ranges == AllRanges(TopMembers(d), lib.utf8)
    ensures ranges != [] && GoodSlices(ranges, data, 0, |data|)
  {
    hide IsDocument, TopMembers, AllRanges, GoodSlices, DataWellShaped, HasData;
    var d :| IsDocument(data, d) && IsImportable(d, lib.utf8);
    SlicesAreGood(data, d, lib.utf8);
  }
}
