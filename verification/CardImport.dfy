/**
 The per-set import of oracle/src/oracleimporter.cpp as functions on the collected database:
 what the methods of the importer are specified by.
 */
module CardImport {
  import opened Bytes
  import opened SplitCards
  import CardColors

  /** One entry of a card's foreignData. */
  datatype Foreign = Foreign(language: string, name: string, text: string)

  /** What is read from one card object; properties holds the renamed fields, pt and legalities. */
  datatype SourceCard = SourceCard(
    layout: string, name: string, text: string, faceName: string, number: string, side: string,
    faceManaValue: string, properties: Properties, colors: seq<string>, colorIdentity: seq<string>,
    types: seq<string>, printing: Properties, foreign: seq<Foreign>)

  datatype Printing = Printing(setName: units, properties: Properties)

  datatype Face = Face(cardName: string, faceName: string, text: string)

  datatype Card = Card(
    name: string, text: string, properties: Properties, printings: seq<Printing>, faces: seq<Face>,
    localizedName: string, localizedText: string)

  datatype Entry = Entry(name: string, text: string, priority: int)

  datatype CurrentSet = CurrentSet(shortName: units, priority: int)

  /** The importer's settings, and std::sort on colour strings, of which only its contract is known. */
  datatype Settings = Settings(cardLang: string, localizationEnabled: bool, sortColors: string -> string)

  datatype Database = Database(cards: map<string, Card>, localized: map<string, Entry>, splitTexts: map<string, Entry>)

  const LANGUAGE_CODES: map<string, string> := map[
    "Chinese Simplified" := "zhs", "Chinese Traditional" := "zht", "English" := "en", "French" := "fr",
    "German" := "de", "Greek" := "grc", "Ancient Greek" := "grc", "Hebrew" := "he", "Italian" := "it",
    "Japanese" := "ja", "Korean" := "ko", "Latin" := "la", "Phyrexian" := "ph",
    "Portuguese (Brazil)" := "pt", "Russian" := "ru", "Sanskrit" := "sa", "Spanish" := "es"]

  /** "UST", the one set whose cards share names but not texts. */
  const UST: units := [0x55, 0x53, 0x54]

  function NormalizeCardName(name: string): string {
    if name == "" then ""
    else
      (if name[0] == '\U{00C6}' then "AE" else if name[0] == '\U{2019}' then "'" else [name[0]])
      + NormalizeCardName(name[1..])
  }

  // ----- adding a card -----

  function Concat(strings: seq<string>): string {
    if strings == [] then "" else strings[0] + Concat(strings[1..])
  }

  function WithValue(p: Properties, key: string, value: string): Properties {
    if value == "" then p else p[key := value]
  }

  function FaceProperties(c: SourceCard): Properties {
    var p := WithValue(c.properties, "colors", Concat(c.colors));
    var q := WithValue(p, "coloridentity", Concat(c.colorIdentity));
    WithValue(q, "maintype", GetMainCardType(c.types))
  }

  function Reduced(p: Properties, key: string, sortColors: string -> string): Properties {
    if |Get(p, key)| > 1 then p[key := CardColors.Unique(sortColors(Get(p, key)))] else p
  }

  function NewProperties(p: Properties, st: Settings): Properties {
    var q := Reduced(Reduced(p, "colors", st.sortColors), "coloridentity", st.sortColors);
    q["side" := if Get(q, "side") == "b" then "back" else "front"]
  }

  predicate IsLegality(key: string) { "format-" <= key }

  function WithLegalities(p: Properties, other: Properties): Properties {
    p + map key | key in other && IsLegality(key) :: other[key]
  }

  function WithPrinting(c: Card, printing: Printing): Card {
    if printing in c.printings then c else c.(printings := c.printings + [printing])
  }

  /** A card that is already there keeps its text and properties; it gains the printing, and legalities if it has none. */
  function AddedCard(cards: map<string, Card>, name: string, text: string, p: Properties, printing: Printing, st: Settings)
    : map<string, Card>
  {
    var key := NormalizeCardName(name);
    if key in cards then
      var c := WithPrinting(cards[key], printing);
      cards[key := if exists k <- c.properties :: IsLegality(k) then c
                   else c.(properties := WithLegalities(c.properties, p))]
    else cards[key := Card(key, text, NewProperties(p, st), [printing], [], "", "")]
  }

  function WithFace(cards: map<string, Card>, name: string, face: Face): map<string, Card> {
    var key := NormalizeCardName(name);
    if key in cards then cards[key := cards[key].(faces := cards[key].faces + [face])] else cards
  }

  // ----- localized names and texts -----

  function LanguageToCode(language: string): string {
    Get(LANGUAGE_CODES, language)
  }

  /** The first entry in the wanted language. */
  function Matching(foreign: seq<Foreign>, cardLang: string): seq<Foreign> {
    if foreign == [] then []
    else if LanguageToCode(foreign[0].language) == cardLang then [foreign[0]]
    else Matching(foreign[1..], cardLang)
  }

  function MatchingText(c: SourceCard, st: Settings): string {
    var m := Matching(c.foreign, st.cardLang);
    if st.localizationEnabled && m != [] then m[0].text else ""
  }

  /** Keeps the entry of the lowest priority value, and of equal ones the first. */
  function Offered(entries: map<string, Entry>, key: string, e: Entry): map<string, Entry> {
    if key !in entries || e.priority < entries[key].priority then entries[key := e] else entries
  }

  /** What collectForeignData offers for a card: nothing, or one entry. */
  function Offer(c: SourceCard, set_: CurrentSet, collectText: bool, st: Settings): seq<Entry> {
    var m := Matching(c.foreign, st.cardLang);
    if st.localizationEnabled && m != []
    then [Entry(m[0].name, if collectText then m[0].text else "", set_.priority)] else []
  }

  function Collected(entries: map<string, Entry>, key: string, c: SourceCard, set_: CurrentSet, collectText: bool,
                     st: Settings): map<string, Entry>
  {
    var offer := Offer(c, set_, collectText, st);
    if offer == [] then entries else Offered(entries, key, offer[0])
  }

  // ----- split cards waiting to be merged, in the order of their keys -----

  datatype Part = Part(name: string, text: string, properties: Properties, printing: Printing, localizedText: string)

  datatype Group = Group(key: string, name: string, parts: seq<Part>)

  function LexLess(a: string, b: string): bool {
    if b == "" then false
    else if a == "" then true
    else a[0] < b[0] || (a[0] == b[0] && LexLess(a[1..], b[1..]))
  }

  function GroupKeys(groups: seq<Group>): set<string> {
    if groups == [] then {} else {groups[0].key} + GroupKeys(groups[1..])
  }

  function GroupNames(groups: seq<Group>): set<string> {
    if groups == [] then {} else {groups[0].name} + GroupNames(groups[1..])
  }

  function Appended(groups: seq<Group>, key: string, part: Part): seq<Group> {
    if groups == [] then []
    else if groups[0].key == key then [groups[0].(parts := groups[0].parts + [part])] + groups[1..]
    else [groups[0]] + Appended(groups[1..], key, part)
  }

  function Inserted(groups: seq<Group>, g: Group): seq<Group> {
    if groups == [] || LexLess(g.key, groups[0].key) then [g] + groups
    else [groups[0]] + Inserted(groups[1..], g)
  }

  /** A face joins the group of its key, or opens one under its own name. */
  function WithPart(groups: seq<Group>, key: string, name: string, part: Part): seq<Group> {
    if key in GroupKeys(groups) then Appended(groups, key, part) else Inserted(groups, Group(key, name, [part]))
  }

  function JoinedText(texts: seq<string>): string
    decreases |texts|
  {
    if texts == [] then ""
    else
      var before := JoinedText(texts[..|texts| - 1]);
      (if before == "" then "" else before + SPLIT_CARD_TEXT_SEPARATOR) + texts[|texts| - 1]
  }

  function Texts(parts: seq<Part>): seq<string> {
    seq(|parts|, i requires 0 <= i < |parts| => parts[i].text)
  }

  function LocalizedTexts(parts: seq<Part>): seq<string> {
    seq(|parts|, i requires 0 <= i < |parts| => parts[i].localizedText)
  }

  function PartProperties(parts: seq<Part>): seq<Properties> {
    seq(|parts|, i requires 0 <= i < |parts| => parts[i].properties)
  }

  /** The printing of the first face that has properties; the last face's where none has. */
  function MergedPrinting(parts: seq<Part>): Printing
    requires parts != []
    decreases |parts|
  {
    var n := |parts| - 1;
    if n > 0 && MergedProperties(PartProperties(parts[..n])) != map[] then MergedPrinting(parts[..n])
    else parts[n].printing
  }

  /** The translated text, if every face has one. */
  function MergedTranslation(parts: seq<Part>): string {
    if "" in LocalizedTexts(parts) then "" else JoinedText(LocalizedTexts(parts))
  }

  function WithFaces(cards: map<string, Card>, name: string, parts: seq<Part>): map<string, Card>
    decreases |parts|
  {
    if parts == [] then cards
    else
      var n := |parts| - 1;
      WithFace(WithFaces(cards, name, parts[..n]), name, Face(name, parts[n].name, parts[n].text))
  }

  function WithGroup(db: Database, g: Group, set_: CurrentSet, st: Settings): Database
    requires g.parts != []
  {
    var cards := AddedCard(db.cards, g.name, JoinedText(Texts(g.parts)), MergedProperties(PartProperties(g.parts)),
                           MergedPrinting(g.parts), st);
    var translation := MergedTranslation(g.parts);
    db.(cards := WithFaces(cards, g.name, g.parts),
        splitTexts := if st.localizationEnabled && translation != ""
                      then Offered(db.splitTexts, NormalizeCardName(g.name), Entry("", translation, set_.priority))
                      else db.splitTexts)
  }

  function WithGroups(db: Database, groups: seq<Group>, set_: CurrentSet, st: Settings): Database
    requires HaveParts(groups)
    decreases |groups|
  {
    if groups == [] then db
    else
      var n := |groups| - 1;
      WithGroup(WithGroups(db, groups[..n], set_, st), groups[n], set_, st)
  }

  // ----- one pass over the cards of a set -----

  /** The importer's variables while it goes over a set's cards. */
  datatype Pass = Pass(db: Database, groups: seq<Group>, names: set<string>, count: nat)

  predicate IsSplit(c: SourceCard) {
    c.layout == "split" || c.layout == "aftermath" || c.layout == "adventure" || c.layout == "prepare"
  }

  predicate IsToken(c: SourceCard) { c.layout == "token" }

  function FaceNameOf(c: SourceCard): string {
    if c.faceName == "" then c.name else c.faceName
  }

  predicate IsLetter(c: char) { 'a' <= c <= 'z' || 'A' <= c <= 'Z' }

  function ToLower(c: char): char {
    if 'A' <= c <= 'Z' then (c as int + 32) as char else c
  }

  /** The letter an Un-set card's collector number ends in tells cards of one name apart. */
  function NumComponent(c: SourceCard, set_: CurrentSet, names: set<string>): string {
    if set_.shortName == UST && FaceNameOf(c) in names && c.layout == "normal"
       && c.number != "" && IsLetter(c.number[|c.number| - 1])
    then " (" + [ToLower(c.number[|c.number| - 1])] + ")" else ""
  }

  function CardName(c: SourceCard, set_: CurrentSet, names: set<string>): string {
    (if c.side == "" then c.name else FaceNameOf(c)) + NumComponent(c, set_, names)
  }

  function CardProperties(c: SourceCard): Properties {
    if c.side == "" then FaceProperties(c) else FaceProperties(c)["cmc" := c.faceManaValue]
  }

  function PartOf(c: SourceCard, set_: CurrentSet, st: Settings): Part {
    Part(c.faceName, c.text, FaceProperties(c), Printing(set_.shortName, c.printing), MatchingText(c, st))
  }

  function AfterCard(p: Pass, c: SourceCard, set_: CurrentSet, st: Settings): Pass {
    if IsToken(c) then p
    else
      var names := p.names + {FaceNameOf(c)};
      if IsSplit(c) then
        Pass(p.db.(localized := Collected(p.db.localized, NormalizeCardName(c.name), c, set_, false, st)),
             WithPart(p.groups, c.name + c.number, c.name, PartOf(c, set_, st)), names, p.count)
      else
        var name := CardName(c, set_, p.names);
        var cards := AddedCard(p.db.cards, name, c.text, CardProperties(c), Printing(set_.shortName, c.printing), st);
        Pass(p.db.(localized := Collected(p.db.localized, NormalizeCardName(name), c, set_, true, st),
                   cards := WithFace(cards, name, Face(c.name, FaceNameOf(c), c.text))),
             p.groups, names, p.count + 1)
  }

  function AfterCards(db: Database, cards: seq<SourceCard>, set_: CurrentSet, st: Settings): Pass
    decreases |cards|
  {
    if cards == [] then Pass(db, [], {}, 0)
    else AfterCard(AfterCards(db, cards[..|cards| - 1], set_, st), cards[|cards| - 1], set_, st)
  }

  ghost predicate HaveParts(groups: seq<Group>) { forall g <- groups :: g.parts != [] }

  lemma {:induction false} AppendedKeeps(groups: seq<Group>, key: string, part: Part)
    ensures GroupKeys(Appended(groups, key, part)) == GroupKeys(groups)
    ensures GroupNames(Appended(groups, key, part)) == GroupNames(groups)
    ensures HaveParts(groups) ==> HaveParts(Appended(groups, key, part))
    decreases |groups|
  {
    if groups != [] {
      assert groups == [groups[0]] + groups[1..];
      AppendedKeeps(groups[1..], key, part);
      assert HaveParts(groups) ==> HaveParts(groups[1..]);
    }
  }

  lemma {:induction false} InsertedAdds(groups: seq<Group>, g: Group)
    ensures GroupKeys(Inserted(groups, g)) == GroupKeys(groups) + {g.key}
    ensures GroupNames(Inserted(groups, g)) == GroupNames(groups) + {g.name}
    ensures HaveParts(groups) && g.parts != [] ==> HaveParts(Inserted(groups, g))
    decreases |groups|
  {
    if groups != [] && !LexLess(g.key, groups[0].key) {
      assert groups == [groups[0]] + groups[1..];
      InsertedAdds(groups[1..], g);
      assert HaveParts(groups) ==> HaveParts(groups[1..]);
    }
  }

  lemma WithPartAdds(groups: seq<Group>, key: string, name: string, part: Part)
    ensures GroupKeys(WithPart(groups, key, name, part)) == GroupKeys(groups) + {key}
    ensures GroupNames(WithPart(groups, key, name, part)) ==
            if key in GroupKeys(groups) then GroupNames(groups) else GroupNames(groups) + {name}
    ensures HaveParts(groups) ==> HaveParts(WithPart(groups, key, name, part))
  {
    AppendedKeeps(groups, key, part);
    InsertedAdds(groups, Group(key, name, [part]));
  }

  lemma {:induction false} GroupsHaveParts(db: Database, cards: seq<SourceCard>, set_: CurrentSet, st: Settings)
    ensures HaveParts(AfterCards(db, cards, set_, st).groups)
    decreases |cards|
  {
    if cards != [] {
      var n := |cards| - 1;
      GroupsHaveParts(db, cards[..n], set_, st);
      var p := AfterCards(db, cards[..n], set_, st);
      WithPartAdds(p.groups, cards[n].name + cards[n].number, cards[n].name, PartOf(cards[n], set_, st));
    }
  }

  /** The database after importCardsFromSet. */
  function ImportedSet(db: Database, cards: seq<SourceCard>, set_: CurrentSet, st: Settings): Database {
    GroupsHaveParts(db, cards, set_, st);
    var p := AfterCards(db, cards, set_, st);
    WithGroups(p.db, p.groups, set_, st)
  }
}
