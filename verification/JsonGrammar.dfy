/**
 The language the scanner recognises, as concrete syntax trees and the bytes they spell:
 RFC 8259 sections 2 to 7, except that raw control bytes may stand in a string and that
 surrogate escapes must come in pairs.
 */
module JsonGrammar {
  import opened Bytes

  /** One unit of a string body: a raw byte, a short escape, a \u escape or a surrogate pair of them. */
  datatype Item =
    | Raw(b: byte)
    | Short(c: byte)
    | Hex(digits: bytes)
    | Pair(high: bytes, low: bytes)

  datatype Fraction = NoFraction | Fraction(digits: bytes)
  datatype Exponent = NoExponent | Exponent(mark: byte, sign: bytes, digits: bytes)
  datatype Number = Number(negative: bool, whole: bytes, fraction: Fraction, exponent: Exponent)

  datatype Word = True | False | Null

  datatype Value =
    | Literal(word: Word)
    | Numeral(number: Number)
    | Str(items: seq<Item>)
    | EmptyObject(inner: bytes)
    | Object(members: Members)
    | EmptyArray(inner: bytes)
    | Array(elements: Elements)

  datatype Member = Member(
    before: bytes, key: seq<Item>, beforeColon: bytes, beforeValue: bytes, value: Value, after: bytes)

  datatype Members = LastMember(head: Member) | MoreMembers(head: Member, tail: Members)

  datatype Element = Element(before: bytes, value: Value, after: bytes)

  datatype Elements = LastElement(head: Element) | MoreElements(head: Element, tail: Elements)

  // ----- string bodies -----

  predicate IsShortEscape(c: byte) {
    c == QUOTE || c == BACKSLASH || c == 0x2F || c == 0x62 || c == 0x66 || c == 0x6E || c == 0x72 || c == 0x74
  }

  predicate IsHex4(h: bytes) {
    |h| == 4 && IsHexDigit(h[0]) && IsHexDigit(h[1]) && IsHexDigit(h[2]) && IsHexDigit(h[3])
  }

  function Hex4Value(h: bytes): unit
    requires IsHex4(h)
  {
    ((HexValue(h[0]) * 16 + HexValue(h[1])) * 16 + HexValue(h[2])) * 16 + HexValue(h[3])
  }

  predicate IsHighSurrogate(u: unit) { 0xD800 <= u <= 0xDBFF }

  predicate IsLowSurrogate(u: unit) { 0xDC00 <= u <= 0xDFFF }

  predicate IsItem(i: Item) {
    match i
    case Raw(b) => b != QUOTE && b != BACKSLASH
    case Short(c) => IsShortEscape(c)
    case Hex(h) => IsHex4(h) && !IsHighSurrogate(Hex4Value(h)) && !IsLowSurrogate(Hex4Value(h))
    case Pair(h, l) => IsHex4(h) && IsHex4(l) && IsHighSurrogate(Hex4Value(h)) && IsLowSurrogate(Hex4Value(l))
  }

  function ItemText(i: Item): bytes {
    match i
    case Raw(b) => [b]
    case Short(c) => [BACKSLASH, c]
    case Hex(h) => [BACKSLASH, LOWER_U] + h
    case Pair(h, l) => [BACKSLASH, LOWER_U] + h + [BACKSLASH, LOWER_U] + l
  }

  predicate AreItems(items: seq<Item>) {
    forall i :: 0 <= i < |items| ==> IsItem(items[i])
  }

  /** A string body with its closing quote. */
  function BodyText(items: seq<Item>): bytes {
    if items == [] then [QUOTE] else ItemText(items[0]) + BodyText(items[1..])
  }

  function StringText(items: seq<Item>): bytes {
    [QUOTE] + BodyText(items)
  }

  // ----- numbers and literals -----

  predicate IsNumber(n: Number) {
    && |n.whole| > 0 && AllDigits(n.whole)
    && (n.whole[0] == 0x30 ==> |n.whole| == 1)
    && (n.fraction.Fraction? ==> |n.fraction.digits| > 0 && AllDigits(n.fraction.digits))
    && (n.exponent.Exponent? ==>
          && IsExponentMark(n.exponent.mark)
          && (n.exponent.sign == [] || n.exponent.sign == [PLUS] || n.exponent.sign == [MINUS])
          && |n.exponent.digits| > 0 && AllDigits(n.exponent.digits))
  }

  function FractionText(f: Fraction): bytes {
    match f
    case NoFraction => []
    case Fraction(d) => [DOT] + d
  }

  function ExponentText(e: Exponent): bytes {
    match e
    case NoExponent => []
    case Exponent(m, sign, d) => [m] + (sign + d)
  }

  function NumberText(n: Number): bytes {
    (if n.negative then [MINUS] else []) + (n.whole + (FractionText(n.fraction) + ExponentText(n.exponent)))
  }

  function WordText(w: Word): bytes {
    match w
    case True => [0x74, 0x72, 0x75, 0x65]
    case False => [0x66, 0x61, 0x6C, 0x73, 0x65]
    case Null => [0x6E, 0x75, 0x6C, 0x6C]
  }

  // ----- values -----

  predicate WellFormed(v: Value) {
    match v
    case Literal(_) => true
    case Numeral(n) => IsNumber(n)
    case Str(items) => AreItems(items)
    case EmptyObject(ws) => AllWhitespace(ws)
    case Object(ms) => WellFormedMembers(ms)
    case EmptyArray(ws) => AllWhitespace(ws)
    case Array(es) => WellFormedElements(es)
  }

  predicate WellFormedMember(m: Member) {
    && AllWhitespace(m.before) && AreItems(m.key) && AllWhitespace(m.beforeColon)
    && AllWhitespace(m.beforeValue) && WellFormed(m.value) && AllWhitespace(m.after)
  }

  predicate WellFormedMembers(ms: Members) {
    WellFormedMember(ms.head) && (ms.MoreMembers? ==> WellFormedMembers(ms.tail))
  }

  predicate WellFormedElements(es: Elements) {
    && AllWhitespace(es.head.before) && WellFormed(es.head.value) && AllWhitespace(es.head.after)
    && (es.MoreElements? ==> WellFormedElements(es.tail))
  }

  function Text(v: Value): bytes {
    match v
    case Literal(w) => WordText(w)
    case Numeral(n) => NumberText(n)
    case Str(items) => StringText(items)
    case EmptyObject(ws) => [LBRACE] + (ws + [RBRACE])
    case Object(ms) => [LBRACE] + MembersText(ms)
    case EmptyArray(ws) => [LBRACKET] + (ws + [RBRACKET])
    case Array(es) => [LBRACKET] + ElementsText(es)
  }

  function MemberText(m: Member): bytes {
    m.before + (StringText(m.key) + (m.beforeColon + ([COLON] + (m.beforeValue + (Text(m.value) + m.after)))))
  }

  /** The members of an object with the closing brace. */
  function MembersText(ms: Members): bytes {
    match ms
    case LastMember(m) => MemberText(m) + [RBRACE]
    case MoreMembers(m, rest) => MemberText(m) + ([COMMA] + MembersText(rest))
  }

  /** The elements of an array with the closing bracket. */
  function ElementsText(es: Elements): bytes {
    match es
    case LastElement(e) => e.before + (Text(e.value) + (e.after + [RBRACKET]))
    case MoreElements(e, rest) => e.before + (Text(e.value) + (e.after + ([COMMA] + ElementsText(rest))))
  }

  function Max(a: nat, b: nat): nat { if a < b then b else a }

  /** Containers nested in one another; a primitive counts nothing. */
  function Depth(v: Value): nat {
    match v
    case Literal(_) => 0
    case Numeral(_) => 0
    case Str(_) => 0
    case EmptyObject(_) => 1
    case Object(ms) => 1 + MembersDepth(ms)
    case EmptyArray(_) => 1
    case Array(es) => 1 + ElementsDepth(es)
  }

  function MembersDepth(ms: Members): nat {
    match ms
    case LastMember(m) => Depth(m.value)
    case MoreMembers(m, rest) => Max(Depth(m.value), MembersDepth(rest))
  }

  function ElementsDepth(es: Elements): nat {
    match es
    case LastElement(e) => Depth(e.value)
    case MoreElements(e, rest) => Max(Depth(e.value), ElementsDepth(rest))
  }

  predicate IsObject(v: Value) { v.EmptyObject? || v.Object? }

  predicate IsArray(v: Value) { v.EmptyArray? || v.Array? }

  // ----- what a string denotes -----

  function ShortMeaning(c: byte): unit {
    if c == 0x62 then 8 else if c == 0x66 then 12 else if c == 0x6E then 10
    else if c == 0x72 then 13 else if c == 0x74 then 9 else c
  }

  function Flush(run: bytes, utf8: Utf8Decoder): units {
    if run == [] then [] else utf8(run)
  }

  function HexUnits(h: bytes): units {
    if IsHex4(h) then [Hex4Value(h)] else []
  }

  /** The code units of one escape. */
  function EscapeMeaning(i: Item): units {
    match i
    case Raw(_) => []
    case Short(c) => [ShortMeaning(c)]
    case Hex(h) => HexUnits(h)
    case Pair(h, l) => HexUnits(h) + HexUnits(l)
  }

  /** Each maximal run of raw bytes goes through the UTF-8 decoder as a whole; run is the one in progress. */
  function DecodeFrom(items: seq<Item>, run: bytes, utf8: Utf8Decoder): units {
    if items == [] then Flush(run, utf8)
    else if items[0].Raw? then DecodeFrom(items[1..], run + [items[0].b], utf8)
    else Flush(run, utf8) + EscapeMeaning(items[0]) + DecodeFrom(items[1..], [], utf8)
  }

  function Decode(items: seq<Item>, utf8: Utf8Decoder): units {
    DecodeFrom(items, [], utf8)
  }
}
