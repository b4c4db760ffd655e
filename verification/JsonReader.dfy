/**
 A recursive-descent reader over bytes [p, end) of a document that returns the syntax tree and the
 offset just past it.  The scanner's skipping methods are specified by it; its own meaning is the
 theorem ReadValueIff of JsonTheorems: it returns a tree exactly when the tree's text stands at p, the tree is
 well formed, fits the depth budget, and nothing after it would have been swallowed.
 */
module JsonReader {
  import opened Bytes
  import opened JsonGrammar

  datatype Read<+T> = NoRead | Read(tree: T, pos: nat) {
    function GetTree(default: T): T {
      if Read? then tree else default
    }
  }

  function WsEnd(s: bytes, p: nat, end: nat): (r: nat)
    requires p <= end <= |s|
    ensures p <= r <= end
    ensures forall i :: p <= i < r ==> IsWhitespace(s[i])
    ensures r < end ==> !IsWhitespace(s[r])
    decreases end - p
  {
    if p < end && IsWhitespace(s[p]) then WsEnd(s, p + 1, end) else p
  }

  function DigitsEnd(s: bytes, p: nat, end: nat): (r: nat)
    requires p <= end <= |s|
    ensures p <= r <= end
    ensures forall i :: p <= i < r ==> IsDigit(s[i])
    ensures r < end ==> !IsDigit(s[r])
    decreases end - p
  {
    if p < end && IsDigit(s[p]) then DigitsEnd(s, p + 1, end) else p
  }

  // ----- strings -----

  function ReadEscape(s: bytes, p: nat, end: nat): (r: Read<Item>)
    requires p < end <= |s|
    ensures r.Read? ==> p < r.pos <= end
  {
    if end - p < 2 then NoRead
    else if s[p + 1] != LOWER_U then
      if IsShortEscape(s[p + 1]) then Read(Short(s[p + 1]), p + 2) else NoRead
    else if end - p < 6 || !IsHex4(s[p + 2..p + 6]) then NoRead
    else
      var high := s[p + 2..p + 6];
      if IsHighSurrogate(Hex4Value(high)) then
        if end - p < 12 || s[p + 6] != BACKSLASH || s[p + 7] != LOWER_U || !IsHex4(s[p + 8..p + 12]) then NoRead
        else if !IsLowSurrogate(Hex4Value(s[p + 8..p + 12])) then NoRead
        else Read(Pair(high, s[p + 8..p + 12]), p + 12)
      else if IsLowSurrogate(Hex4Value(high)) then NoRead
      else Read(Hex(high), p + 6)
  }

  /** The body of a string, up to and including its closing quote. */
  function ReadItems(s: bytes, p: nat, end: nat): (r: Read<seq<Item>>)
    requires p <= end <= |s|
    ensures r.Read? ==> p < r.pos <= end
    decreases end - p
  {
    if p == end then NoRead
    else if s[p] == QUOTE then Read([], p + 1)
    else if s[p] == BACKSLASH then
      match ReadEscape(s, p, end)
      case NoRead => NoRead
      case Read(item, q) => PutItem(item, ReadItems(s, q, end))
    else PutItem(Raw(s[p]), ReadItems(s, p + 1, end))
  }

  function PutItem(item: Item, r: Read<seq<Item>>): Read<seq<Item>> {
    match r
    case NoRead => NoRead
    case Read(items, q) => Read([item] + items, q)
  }

  // ----- numbers and literals -----

  function ReadFraction(s: bytes, p: nat, end: nat): (r: Read<Fraction>)
    requires p <= end <= |s|
    ensures r.Read? ==> p <= r.pos <= end
  {
    if p < end && s[p] == DOT then
      var q := DigitsEnd(s, p + 1, end);
      if q == p + 1 then NoRead else Read(Fraction(s[p + 1..q]), q)
    else Read(NoFraction, p)
  }

  function ReadExponent(s: bytes, p: nat, end: nat): (r: Read<Exponent>)
    requires p <= end <= |s|
    ensures r.Read? ==> p <= r.pos <= end
  {
    if p < end && IsExponentMark(s[p]) then
      var d := if p + 1 < end && (s[p + 1] == PLUS || s[p + 1] == MINUS) then p + 2 else p + 1;
      var q := DigitsEnd(s, d, end);
      if q == d then NoRead else Read(Exponent(s[p], s[p + 1..d], s[d..q]), q)
    else Read(NoExponent, p)
  }

  function ReadNumber(s: bytes, p: nat, end: nat): (r: Read<Number>)
    requires p < end <= |s|
    ensures r.Read? ==> p < r.pos <= end
  {
    var negative := s[p] == MINUS;
    var a := if negative then p + 1 else p;
    if a == end || !IsDigit(s[a]) then NoRead
    else
      var b := if s[a] == 0x30 then a + 1 else DigitsEnd(s, a + 1, end);
      match ReadFraction(s, b, end)
      case NoRead => NoRead
      case Read(fraction, c) =>
        match ReadExponent(s, c, end)
        case NoRead => NoRead
        case Read(exponent, q) => Read(Number(negative, s[a..b], fraction, exponent), q)
  }

  function ReadWord(s: bytes, p: nat, end: nat, w: Word): (r: Read<Value>)
    requires p < end <= |s|
    ensures r.Read? ==> p < r.pos <= end
  {
    var q := p + |WordText(w)|;
    if At(s, p, end, WordText(w)) && (q < end ==> !IsWordByte(s[q])) then Read(Literal(w), q) else NoRead
  }

  function ReadPrimitive(s: bytes, p: nat, end: nat): (r: Read<Value>)
    requires p < end <= |s|
    ensures r.Read? ==> p < r.pos <= end
  {
    if s[p] == QUOTE then
      match ReadItems(s, p + 1, end)
      case NoRead => NoRead
      case Read(items, q) => Read(Str(items), q)
    else if s[p] == 0x74 then ReadWord(s, p, end, True)
    else if s[p] == 0x66 then ReadWord(s, p, end, False)
    else if s[p] == 0x6E then ReadWord(s, p, end, Null)
    else if s[p] == MINUS || IsDigit(s[p]) then
      match ReadNumber(s, p, end)
      case NoRead => NoRead
      case Read(n, q) => Read(Numeral(n), q)
    else NoRead
  }

  // ----- containers -----

  /** A value whose first byte is at p. */
  function ReadValue(s: bytes, p: nat, end: nat, depth: nat): (r: Read<Value>)
    requires p <= end <= |s|
    ensures r.Read? ==> p < r.pos <= end
    decreases end - p, 1
  {
    if p == end then NoRead
    else if s[p] == LBRACE then
      if depth == 0 then NoRead
      else
        var w := WsEnd(s, p + 1, end);
        if w < end && s[w] == RBRACE then Read(EmptyObject(s[p + 1..w]), w + 1)
        else
          match ReadMembers(s, p + 1, end, depth)
          case NoRead => NoRead
          case Read(ms, q) => Read(Object(ms), q)
    else if s[p] == LBRACKET then
      if depth == 0 then NoRead
      else
        var w := WsEnd(s, p + 1, end);
        if w < end && s[w] == RBRACKET then Read(EmptyArray(s[p + 1..w]), w + 1)
        else
          match ReadElements(s, p + 1, end, depth)
          case NoRead => NoRead
          case Read(es, q) => Read(Array(es), q)
    else ReadPrimitive(s, p, end)
  }

  /** One member: whitespace, key, colon, value, whitespace. */
  function ReadMember(s: bytes, p: nat, end: nat, depth: nat): (r: Read<Member>)
    requires p <= end <= |s| && depth > 0
    ensures r.Read? ==> p < r.pos <= end
    decreases end - p, 2
  {
    var k := WsEnd(s, p, end);
    if k == end || s[k] != QUOTE then NoRead
    else
      match ReadItems(s, k + 1, end)
      case NoRead => NoRead
      case Read(key, e) =>
        var c := WsEnd(s, e, end);
        if c == end || s[c] != COLON then NoRead
        else
          var v := WsEnd(s, c + 1, end);
          match ReadValue(s, v, end, depth - 1)
          case NoRead => NoRead
          case Read(value, q) =>
            var a := WsEnd(s, q, end);
            Read(Member(s[p..k], key, s[e..c], s[c + 1..v], value, s[q..a]), a)
  }

  /** The members of an object from p, up to and including the closing brace. */
  function ReadMembers(s: bytes, p: nat, end: nat, depth: nat): (r: Read<Members>)
    requires p <= end <= |s| && depth > 0
    ensures r.Read? ==> p < r.pos <= end
    decreases end - p, 3
  {
    match ReadMember(s, p, end, depth)
    case NoRead => NoRead
    case Read(m, a) =>
      if a == end then NoRead
      else if s[a] == COMMA then
        match ReadMembers(s, a + 1, end, depth)
        case NoRead => NoRead
        case Read(rest, q) => Read(MoreMembers(m, rest), q)
      else if s[a] == RBRACE then Read(LastMember(m), a + 1)
      else NoRead
  }

  function ReadElement(s: bytes, p: nat, end: nat, depth: nat): (r: Read<Element>)
    requires p <= end <= |s| && depth > 0
    ensures r.Read? ==> p < r.pos <= end
    decreases end - p, 2
  {
    var v := WsEnd(s, p, end);
    match ReadValue(s, v, end, depth - 1)
    case NoRead => NoRead
    case Read(value, q) =>
      var a := WsEnd(s, q, end);
      Read(Element(s[p..v], value, s[q..a]), a)
  }

  /** The elements of an array from p, up to and including the closing bracket. */
  function ReadElements(s: bytes, p: nat, end: nat, depth: nat): (r: Read<Elements>)
    requires p <= end <= |s| && depth > 0
    ensures r.Read? ==> p < r.pos <= end
    decreases end - p, 3
  {
    match ReadElement(s, p, end, depth)
    case NoRead => NoRead
    case Read(e, a) =>
      if a == end then NoRead
      else if s[a] == COMMA then
        match ReadElements(s, a + 1, end, depth)
        case NoRead => NoRead
        case Read(rest, q) => Read(MoreElements(e, rest), q)
      else if s[a] == RBRACKET then Read(LastElement(e), a + 1)
      else NoRead
  }

  // ----- where a value stops -----

  predicate NumberStops(n: Number, c: byte)
    requires |n.whole| > 0
  {
    if n.exponent.Exponent? then !IsDigit(c)
    else if n.fraction.Fraction? then !IsDigit(c) && !IsExponentMark(c)
    else c != DOT && !IsExponentMark(c) && (n.whole[0] == 0x30 || !IsDigit(c))
  }

  /** The byte at q does not continue a literal or a number that ends there. */
  predicate Stops(v: Value, s: bytes, q: nat, end: nat)
    requires q <= end <= |s| && WellFormed(v)
  {
    q == end || match v
    case Literal(_) => !IsWordByte(s[q])
    case Numeral(n) => NumberStops(n, s[q])
    case _ => true
  }

  /** What follows a value in every JSON text. */
  predicate Delimited(s: bytes, q: nat, end: nat)
    requires q <= end <= |s|
  {
    q == end || IsWhitespace(s[q]) || s[q] == COMMA || s[q] == RBRACE || s[q] == RBRACKET
  }
}
