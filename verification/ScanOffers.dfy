/** The offsets that the scanner's walks offer to the progress reporter, read off the syntax tree. */
module ScanOffers {
  import opened Bytes
  import opened JsonGrammar
  import opened JsonTheorems
  import opened SetRanges

  // ----- skipping a value: the end of every value inside it -----

  function Offers(v: Value, p: nat): seq<nat>
    decreases v, 0
  {
    match v
    case Object(ms) => MembersOffers(ms, p + 1)
    case Array(es) => ElementsOffers(es, p + 1)
    case _ => []
  }

  /** A member at p: what its value offers, and its value's end. */
  function MemberOffers(m: Member, p: nat): seq<nat>
    decreases m, 0
  {
    Offers(m.value, ValueAt(p, m)) + [ValueAt(p, m) + |Text(m.value)|]
  }

  function MembersOffers(ms: Members, p: nat): seq<nat>
    decreases ms, 0
  {
    MemberOffers(ms.head, p) + if ms.MoreMembers? then MembersOffers(ms.tail, p + |MemberText(ms.head)| + 1) else []
  }

  /** An element at p: what its value offers, and its value's end. */
  function ElementOffers(e: Element, p: nat): seq<nat>
    decreases e, 0
  {
    Offers(e.value, p + |e.before|) + [p + |e.before| + |Text(e.value)|]
  }

  function ElementLength(e: Element): nat { |e.before| + |Text(e.value)| + |e.after| }

  function ElementsOffers(es: Elements, p: nat): seq<nat>
    decreases es, 0
  {
    ElementOffers(es.head, p) + if es.MoreElements? then ElementsOffers(es.tail, p + ElementLength(es.head) + 1) else []
  }

  // ----- the walks of scanSetRanges -----

  /** A field of a set: its value is skipped, and the elements of "cards" are counted. */
  function FieldOffers(m: Placed, utf8: Utf8Decoder): seq<nat> {
    Offers(m.member.value, m.at) + CountOffers(m, utf8)
  }

  function CountOffers(m: Placed, utf8: Utf8Decoder): seq<nat> {
    if Decode(m.member.key, utf8) == CARDS_KEY && IsArray(m.member.value) then Offers(m.member.value, m.at) else []
  }

  function FieldsOffers(fields: seq<Placed>, utf8: Utf8Decoder): seq<nat>
    decreases |fields|
  {
    if fields == [] then []
    else FieldsOffers(fields[..|fields| - 1], utf8) + FieldOffers(fields[|fields| - 1], utf8)
  }

  /** A set: it is skipped, and then its fields are walked. */
  function SetOffers(m: Placed, utf8: Utf8Decoder): seq<nat> {
    Offers(m.member.value, m.at) + FieldsOffers(MembersOf(m.member.value, m.at), utf8)
  }

  function SetsOffers(sets: seq<Placed>, utf8: Utf8Decoder): seq<nat>
    decreases |sets|
  {
    if sets == [] then []
    else SetsOffers(sets[..|sets| - 1], utf8) + SetOffers(sets[|sets| - 1], utf8)
  }

  /** A member of the document: it is skipped, and if it is "data" its sets are walked. */
  function TopOffers(m: Placed, utf8: Utf8Decoder): seq<nat> {
    Offers(m.member.value, m.at)
    + if IsData(m, utf8) then SetsOffers(MembersOf(m.member.value, m.at), utf8) else []
  }

  /** The whole walk of a document. */
  function WalkOffers(members: seq<Placed>, utf8: Utf8Decoder): seq<nat>
    decreases |members|
  {
    if members == [] then []
    else WalkOffers(members[..|members| - 1], utf8) + TopOffers(members[|members| - 1], utf8)
  }
}
