/** The scanner of oracle/src/raw_json_scanner.cpp: cursors over a constant buffer, and no tree. */
module RawJsonScanner {
  import opened Strings
  import opened Bytes
  import opened JsonGrammar
  import opened JsonReader
  import opened JsonTheorems
  import opened SetRanges
  import opened ScanOffers
  import opened ScanProgress


  /** Two reads agree when both fail, or both end at the same offset. */
  ghost predicate Agree<T, U>(a: Read<T>, b: Read<U>) {
    if a.Read? then b.Read? && a.pos == b.pos else b.NoRead?
  }

  // ----- strings -----

  method SkipWhitespace(s: bytes, p0: nat, end: nat) returns (p: nat)
    requires p0 <= end <= |s|
    ensures p == WsEnd(s, p0, end)
  {
    p := p0;
    while p < end && IsWhitespace(s[p])
      invariant p0 <= p <= end
      invariant WsEnd(s, p, end) == WsEnd(s, p0, end)
    {
      p := p + 1;
    }
  }

  /** memchr over [from, to). */
  method Memchr(s: bytes, from: nat, to: nat, c: byte) returns (r: Option<nat>)
    requires from <= to <= |s|
    ensures r.None? ==> forall i :: from <= i < to ==> s[i] != c
    ensures r.Some? ==> from <= r.value < to && s[r.value] == c && forall i :: from <= i < r.value ==> s[i] != c
  {
    var i := from;
    while i < to
      invariant from <= i <= to
      invariant forall j :: from <= j < i ==> s[j] != c
    {
      if s[i] == c {
        return Some(i);
      }
      i := i + 1;
    }
    return None;
  }

  /** The value of four hexadecimal digits, or none. */
  method ReadHex4(s: bytes, p: nat) returns (r: Option<unit>)
    requires p + 4 <= |s|
    ensures r == if IsHex4(s[p..p + 4]) then Some(Hex4Value(s[p..p + 4])) else None
  {
    ghost var h := s[p..p + 4];
    var value: int := 0;
    for i := 0 to 4
      invariant forall j :: 0 <= j < i ==> IsHexDigit(h[j])
      invariant i == 0 ==> value == 0
      invariant i == 1 ==> value == HexValue(h[0])
      invariant i == 2 ==> value == HexValue(h[0]) * 16 + HexValue(h[1])
      invariant i == 3 ==> value == (HexValue(h[0]) * 16 + HexValue(h[1])) * 16 + HexValue(h[2])
      invariant i == 4 ==> IsHex4(h) && value == Hex4Value(h)
    {
      assert s[p + i] == h[i];
      if !IsHexDigit(s[p + i]) {
        return None;
      }
      value := value * 16 + HexValue(s[p + i]);
    }
    return Some(value);
  }

  /** The escape at b, skipped. */
  method SkipEscape(s: bytes, b: nat, end: nat) returns (ok: bool, p: nat)
    requires b < end <= |s|
    ensures ok == ReadEscape(s, b, end).Read?
    ensures ok ==> p == ReadEscape(s, b, end).pos
  {
    p := b;
    if end - b < 2 {
      return false, p;
    }
    var escaped := s[b + 1];
    if escaped == LOWER_U {
      if end - b < 6 {
        return false, p;
      }
      var codepoint := ReadHex4(s, b + 2);
      if codepoint.None? {
        return false, p;
      }
      p := b + 6;
      if 0xD800 <= codepoint.value <= 0xDBFF {
        if end - p < 6 || s[p] != BACKSLASH || s[p + 1] != LOWER_U {
          return false, p;
        }
        var low := ReadHex4(s, p + 2);
        if low.None? || low.value < 0xDC00 || low.value > 0xDFFF {
          return false, p;
        }
        p := p + 6;
      } else if 0xDC00 <= codepoint.value <= 0xDFFF {
        return false, p;
      }
      return true, p;
    }
    return IsShortEscape(escaped), b + 2;
  }

  /** The escape at p0, decoded. */
  method DecodeEscape(s: bytes, p0: nat, end: nat) returns (ok: bool, p: nat, out: units)
    requires p0 < end <= |s|
    ensures ok == ReadEscape(s, p0, end).Read?
    ensures ok ==> p == ReadEscape(s, p0, end).pos && out == EscapeMeaning(ReadEscape(s, p0, end).tree)
  {
    hide IsHexDigit, Hex4Value;
    p, out := p0 + 1, [];
    if p >= end {
      return false, p, out;
    }
    var escaped := s[p];
    if escaped == LOWER_U {
      p := p + 1;
      if p + 4 > end {
        return false, p, out;
      }
      var codepoint := ReadHex4(s, p);
      if codepoint.None? {
        return false, p, out;
      }
      p := p + 4;
      if 0xD800 <= codepoint.value <= 0xDBFF {
        if p + 6 > end || s[p] != BACKSLASH || s[p + 1] != LOWER_U {
          return false, p, out;
        }
        var low := ReadHex4(s, p + 2);
        if low.None? || low.value < 0xDC00 || low.value > 0xDFFF {
          return false, p, out;
        }
        out := [codepoint.value] + [low.value];
        p := p + 6;
      } else if 0xDC00 <= codepoint.value <= 0xDFFF {
        return false, p, out;
      } else {
        out := [codepoint.value];
      }
      return true, p, out;
    }
    if !IsShortEscape(escaped) {
      return false, p, out;
    }
    return true, p + 1, [ShortMeaning(escaped)];
  }

  /** Without a quote ahead no string body ends. */
  lemma {:induction false} NoQuoteNoString(s: bytes, p: nat, end: nat)
    requires p <= end <= |s| && forall i :: p <= i < end ==> s[i] != QUOTE
    ensures ReadItems(s, p, end).NoRead?
    decreases end - p
  {
    if p < end {
      if s[p] == BACKSLASH {
        if ReadEscape(s, p, end).Read? {
          NoQuoteNoString(s, ReadEscape(s, p, end).pos, end);
        }
      } else {
        NoQuoteNoString(s, p + 1, end);
      }
    }
  }

  /** Bytes that are neither quotes nor backslashes can be jumped over. */
  lemma {:induction false} JumpRaw(s: bytes, p: nat, q: nat, end: nat)
    requires p <= q <= end <= |s| && forall i :: p <= i < q ==> s[i] != QUOTE && s[i] != BACKSLASH
    ensures Agree(ReadItems(s, p, end), ReadItems(s, q, end))
    decreases q - p
  {
    if p < q {
      JumpRaw(s, p + 1, q, end);
    }
  }

  method SkipString(s: bytes, p0: nat, end: nat) returns (ok: bool, p: nat)
    requires p0 < end <= |s| && s[p0] == QUOTE
    ensures ok == ReadItems(s, p0 + 1, end).Read?
    ensures ok ==> p == ReadItems(s, p0 + 1, end).pos
  {
    p := p0 + 1;
    while true
      invariant p <= end
      invariant Agree(ReadItems(s, p0 + 1, end), ReadItems(s, p, end))
      decreases end - p
    {
      var quote := Memchr(s, p, end, QUOTE);
      if quote.None? {
        NoQuoteNoString(s, p, end);
        return false, p;
      }
      var backslash := Memchr(s, p, quote.value, BACKSLASH);
      if backslash.None? {
        JumpRaw(s, p, quote.value, end);
        return true, quote.value + 1;
      }
      var b := backslash.value;
      JumpRaw(s, p, b, end);
      var escapeOk, q := SkipEscape(s, b, end);
      if !escapeOk {
        return false, p;
      }
      p := q;
    }
  }

  /** The definition of the reader of strings, for proofs that hide it. */
  lemma ItemsStep(s: bytes, p: nat, end: nat)
    requires p < end <= |s|
    ensures ReadItems(s, p, end) ==
            if s[p] == QUOTE then Read([], p + 1)
            else if s[p] != BACKSLASH then PutItem(Raw(s[p]), ReadItems(s, p + 1, end))
            else if ReadEscape(s, p, end).NoRead? then NoRead
            else PutItem(ReadEscape(s, p, end).tree, ReadItems(s, ReadEscape(s, p, end).pos, end))
    ensures ReadEscape(s, p, end).Read? ==> !ReadEscape(s, p, end).tree.Raw?
  {
    hide IsHex4, IsShortEscape, Hex4Value;
  }

  /** The first of the items, decoded. */
  lemma DecodeStep(item: Item, items: seq<Item>, run: bytes, utf8: Utf8Decoder)
    ensures DecodeFrom([], run, utf8) == Flush(run, utf8)
    ensures DecodeFrom([item] + items, run, utf8) ==
            if item.Raw? then DecodeFrom(items, run + [item.b], utf8)
            else Flush(run, utf8) + EscapeMeaning(item) + DecodeFrom(items, [], utf8)
  {
    hide Flush, EscapeMeaning;
    assert ([item] + items)[1..] == items;
  }

  method DecodeString(s: bytes, p0: nat, end: nat, utf8: Utf8Decoder) returns (ok: bool, p: nat, out: units)
    requires p0 < end <= |s| && s[p0] == QUOTE
    ensures ok == ReadItems(s, p0 + 1, end).Read?
    ensures ok ==> p == ReadItems(s, p0 + 1, end).pos && out == Decode(ReadItems(s, p0 + 1, end).tree, utf8)
  {
    hide ReadItems, ReadEscape, DecodeFrom, EscapeMeaning, Flush;
    out := [];
    var run: bytes := [];
    p := p0 + 1;
    ghost var whole := ReadItems(s, p, end);
    while p < end
      invariant p <= end
      invariant Agree(whole, ReadItems(s, p, end))
      invariant whole.Read? ==> Decode(whole.tree, utf8) == out + DecodeFrom(ReadItems(s, p, end).tree, run, utf8)
      decreases end - p
    {
      ItemsStep(s, p, end);
      DecodeStep(Raw(s[p]), ReadItems(s, p + 1, end).GetTree([]), run, utf8);
      var c := s[p];
      if c == BACKSLASH {
        ghost var before := run;
        out := out + Flush(run, utf8);
        run := [];
        var escapeOk, q, meaning := DecodeEscape(s, p, end);
        if !escapeOk {
          return false, p, out;
        }
        out := out + meaning;
        DecodeStep(ReadEscape(s, p, end).tree, ReadItems(s, q, end).GetTree([]), before, utf8);
        p := q;
      } else if c == QUOTE {
        p := p + 1;
        out := out + Flush(run, utf8);
        return true, p, out;
      } else {
        run := run + [c];
        p := p + 1;
      }
    }
    return false, p, out;
  }

  // ----- literals and numbers -----

  method MatchLiteral(s: bytes, p0: nat, end: nat, w: Word) returns (ok: bool, p: nat)
    requires p0 < end <= |s|
    ensures ok == ReadWord(s, p0, end, w).Read?
    ensures ok ==> p == ReadWord(s, p0, end, w).pos
  {
    p := p0;
    var literal := WordText(w);
    if end - p < |literal| || s[p..p + |literal|] != literal {
      return false, p;
    }
    var after := p + |literal|;
    if after < end && IsWordByte(s[after]) {
      return false, p;
    }
    return true, after;
  }

  method SkipDigits(s: bytes, p0: nat, end: nat) returns (p: nat)
    requires p0 <= end <= |s|
    ensures p == DigitsEnd(s, p0, end)
  {
    p := p0;
    while p < end && IsDigit(s[p])
      invariant p0 <= p <= end
      invariant DigitsEnd(s, p, end) == DigitsEnd(s, p0, end)
    {
      p := p + 1;
    }
  }

  method SkipFraction(s: bytes, p0: nat, end: nat) returns (ok: bool, p: nat)
    requires p0 <= end <= |s|
    ensures ok == ReadFraction(s, p0, end).Read?
    ensures ok ==> p == ReadFraction(s, p0, end).pos
  {
    p := p0;
    if p < end && s[p] == DOT {
      p := p + 1;
      if p >= end || !IsDigit(s[p]) {
        return false, p;
      }
      p := SkipDigits(s, p, end);
    }
    return true, p;
  }

  method SkipExponent(s: bytes, p0: nat, end: nat) returns (ok: bool, p: nat)
    requires p0 <= end <= |s|
    ensures ok == ReadExponent(s, p0, end).Read?
    ensures ok ==> p == ReadExponent(s, p0, end).pos
  {
    p := p0;
    if p < end && (s[p] == 0x65 || s[p] == 0x45) {
      p := p + 1;
      if p < end && (s[p] == PLUS || s[p] == MINUS) {
        p := p + 1;
      }
      if p >= end || !IsDigit(s[p]) {
        return false, p;
      }
      p := SkipDigits(s, p, end);
    }
    return true, p;
  }

  method SkipNumber(s: bytes, p0: nat, end: nat) returns (ok: bool, p: nat)
    requires p0 < end <= |s|
    ensures ok == ReadNumber(s, p0, end).Read?
    ensures ok ==> p == ReadNumber(s, p0, end).pos
  {
    hide ReadFraction, ReadExponent;
    p := p0;
    if p < end && s[p] == MINUS {
      p := p + 1;
    }
    if p < end && s[p] == 0x30 {
      p := p + 1;
    } else if p < end && 0x31 <= s[p] <= 0x39 {
      p := SkipDigits(s, p + 1, end);
    } else {
      return false, p;
    }
    ok, p := SkipFraction(s, p, end);
    if ok {
      ok, p := SkipExponent(s, p, end);
    }
  }

  method SkipPrimitive(s: bytes, p0: nat, end: nat) returns (ok: bool, p: nat)
    requires p0 < end <= |s|
    ensures ok == ReadPrimitive(s, p0, end).Read?
    ensures ok ==> p == ReadPrimitive(s, p0, end).pos
  {
    p := p0;
    var c := s[p];
    if c == QUOTE {
      ok, p := SkipString(s, p, end);
    } else if c == 0x74 {
      ok, p := MatchLiteral(s, p, end, True);
    } else if c == 0x66 {
      ok, p := MatchLiteral(s, p, end, False);
    } else if c == 0x6E {
      ok, p := MatchLiteral(s, p, end, Null);
    } else if c == MINUS || IsDigit(c) {
      ok, p := SkipNumber(s, p, end);
    } else {
      ok := false;
    }
  }

  // ----- containers -----

  /** Of the members from origin, those from p are left; what the others offer has been offered since was. */
  ghost predicate MembersLeft(s: bytes, origin: nat, p: nat, end: nat, depth: nat, was: seq<nat>, now: seq<nat>)
    requires origin <= end <= |s| && p <= end && depth > 0
  {
    var whole, rest := ReadMembers(s, origin, end, depth), ReadMembers(s, p, end, depth);
    && Agree(whole, rest)
    && (whole.Read? ==> now + MembersOffers(rest.tree, p) == was + MembersOffers(whole.tree, origin))
  }

  /** The same of elements, of which as many have been seen. */
  ghost predicate ElementsLeft(s: bytes, origin: nat, p: nat, end: nat, depth: nat, seen: nat, was: seq<nat>, now: seq<nat>)
    requires origin <= end <= |s| && p <= end && depth > 0
  {
    var whole, rest := ReadElements(s, origin, end, depth), ReadElements(s, p, end, depth);
    && Agree(whole, rest)
    && (whole.Read? ==>
          && ElementCount(whole.tree) == seen + ElementCount(rest.tree)
          && now + ElementsOffers(rest.tree, p) == was + ElementsOffers(whole.tree, origin))
  }

  /** Whitespace before a member changes nothing but the tree's blanks. */
  lemma MembersLeftAll(s: bytes, p: nat, q: nat, end: nat, depth: nat, was: seq<nat>)
    requires p <= q <= end <= |s| && depth > 0 && WsEnd(s, p, end) == q
    ensures MembersLeft(s, p, q, end, depth, was, was)
  {
    hide ReadMember, ReadMembers, MemberOffers, MembersOffers, WsEnd, ReadItems, ReadValue, Text;
    WsBeforeOne(s, p, q, end, depth);
    MembersStep(s, p, end, depth);
    MembersStep(s, q, end, depth);
    MembersOffered(s, p, end, depth);
    MembersOffered(s, q, end, depth);
  }

  /** Whitespace before an element changes nothing but the tree's blanks. */
  lemma ElementsLeftAll(s: bytes, p: nat, q: nat, end: nat, depth: nat, was: seq<nat>)
    requires p <= q <= end <= |s| && depth > 0 && WsEnd(s, p, end) == q
    ensures ElementsLeft(s, p, q, end, depth, 0, was, was)
  {
    hide ReadElement, ReadElements, ElementOffers, ElementsOffers, WsEnd, ElementCount, ReadValue, Text;
    WsBeforeOne(s, p, q, end, depth);
    ElementsStep(s, p, end, depth);
    ElementsStep(s, q, end, depth);
    ElementsOffered(s, p, end, depth);
    ElementsOffered(s, q, end, depth);
  }

  /** One member, and those after it. */
  lemma MembersOffered(s: bytes, p: nat, end: nat, depth: nat)
    requires p <= end <= |s| && depth > 0
    ensures var m, r := ReadMember(s, p, end, depth), ReadMembers(s, p, end, depth);
            r.Read? ==>
              && m.Read? && m.pos < end && (s[m.pos] == COMMA || s[m.pos] == RBRACE)
              && MembersOffers(r.tree, p) == MemberOffers(m.tree, p)
                 + if s[m.pos] == COMMA then MembersOffers(ReadMembers(s, m.pos + 1, end, depth).tree, m.pos + 1) else []
  {
    hide ReadMember, ReadMembers, MemberOffers, MemberText, At, BodyText, ReadValue, Text, WellFormedMember, Depth, ValueAt;
    MembersStep(s, p, end, depth);
    if ReadMember(s, p, end, depth).Read? { ReadMemberSound(s, p, end, depth); }
  }

  /** One element, and those after it. */
  lemma ElementsOffered(s: bytes, p: nat, end: nat, depth: nat)
    requires p <= end <= |s| && depth > 0
    ensures var e, r := ReadElement(s, p, end, depth), ReadElements(s, p, end, depth);
            r.Read? ==>
              && e.Read? && e.pos < end && (s[e.pos] == COMMA || s[e.pos] == RBRACKET)
              && ElementsOffers(r.tree, p) == ElementOffers(e.tree, p)
                 + if s[e.pos] == COMMA then ElementsOffers(ReadElements(s, e.pos + 1, end, depth).tree, e.pos + 1) else []
    ensures var e, r := ReadElement(s, p, end, depth), ReadElements(s, p, end, depth);
            r.Read? ==> ElementCount(r.tree)
                        == 1 + if s[e.pos] == COMMA then ElementCount(ReadElements(s, e.pos + 1, end, depth).tree) else 0
  {
    hide ReadElement, ReadElements, ElementOffers, Text, ReadValue, WsEnd;
    ElementsStep(s, p, end, depth);
    if ReadElement(s, p, end, depth).Read? { ElementEnds(s, p, end, depth); }
  }

  lemma ElementEnds(s: bytes, p: nat, end: nat, depth: nat)
    requires p <= end <= |s| && depth > 0 && ReadElement(s, p, end, depth).Read?
    ensures ReadElement(s, p, end, depth).pos == p + ElementLength(ReadElement(s, p, end, depth).tree)
  {
    hide ReadElement, Text, WellFormed, At, Depth, AllWhitespace;
    ReadElementSound(s, p, end, depth);
  }

  /** One member less is left, or the last one ends the object, or there is no object. */
  lemma MembersLeftNext(s: bytes, origin: nat, p: nat, end: nat, depth: nat, was: seq<nat>, now: seq<nat>)
    requires origin <= end <= |s| && p <= end && depth > 0 && MembersLeft(s, origin, p, end, depth, was, now)
    ensures var m, whole := ReadMember(s, p, end, depth), ReadMembers(s, origin, end, depth);
            if m.NoRead? || m.pos == end then whole.NoRead?
            else if s[m.pos] == COMMA then
              MembersLeft(s, origin, m.pos + 1, end, depth, was, now + MemberOffers(m.tree, p))
            else if s[m.pos] == RBRACE then
              && whole.Read? && whole.pos == m.pos + 1
              && now + MemberOffers(m.tree, p) == was + MembersOffers(whole.tree, origin)
            else whole.NoRead?
  {
    hide ReadMember, ReadMembers, MemberOffers, MembersOffers, ReadValue, ReadItems, WsEnd;
    MembersStep(s, p, end, depth);
    MembersOffered(s, p, end, depth);
    var m := ReadMember(s, p, end, depth);
    if m.Read? && m.pos < end && s[m.pos] == COMMA && ReadMembers(s, m.pos + 1, end, depth).Read? {
      var rest := MembersOffers(ReadMembers(s, m.pos + 1, end, depth).tree, m.pos + 1);
      assert now + (MemberOffers(m.tree, p) + rest) == (now + MemberOffers(m.tree, p)) + rest;
    }
  }

  /** One element less is left, or the last one ends the array, or there is no array. */
  lemma ElementsLeftNext(s: bytes, origin: nat, p: nat, end: nat, depth: nat, seen: nat, was: seq<nat>, now: seq<nat>)
    requires origin <= end <= |s| && p <= end && depth > 0 && ElementsLeft(s, origin, p, end, depth, seen, was, now)
    ensures var e, whole := ReadElement(s, p, end, depth), ReadElements(s, origin, end, depth);
            if e.NoRead? || e.pos == end then whole.NoRead?
            else if s[e.pos] == COMMA then
              ElementsLeft(s, origin, e.pos + 1, end, depth, seen + 1, was, now + ElementOffers(e.tree, p))
            else if s[e.pos] == RBRACKET then
              && whole.Read? && whole.pos == e.pos + 1 && ElementCount(whole.tree) == seen + 1
              && now + ElementOffers(e.tree, p) == was + ElementsOffers(whole.tree, origin)
            else whole.NoRead?
  {
    hide ReadElement, ReadElements, ElementOffers, ElementsOffers, ElementCount, ReadValue, WsEnd;
    ElementsStep(s, p, end, depth);
    ElementsOffered(s, p, end, depth);
    var e := ReadElement(s, p, end, depth);
    if e.Read? && e.pos < end && s[e.pos] == COMMA && ReadElements(s, e.pos + 1, end, depth).Read? {
      var rest := ElementsOffers(ReadElements(s, e.pos + 1, end, depth).tree, e.pos + 1);
      assert now + (ElementOffers(e.tree, p) + rest) == (now + ElementOffers(e.tree, p)) + rest;
    }
  }

  lemma WsBeforeOne(s: bytes, p: nat, q: nat, end: nat, depth: nat)
    requires p <= q <= end <= |s| && depth > 0 && WsEnd(s, p, end) == q
    ensures Agree(ReadMember(s, p, end, depth), ReadMember(s, q, end, depth))
    ensures Agree(ReadElement(s, p, end, depth), ReadElement(s, q, end, depth))
    ensures var a, b := ReadMember(s, p, end, depth), ReadMember(s, q, end, depth);
            a.Read? ==> MemberOffers(a.tree, p) == MemberOffers(b.tree, q)
    ensures var a, b := ReadElement(s, p, end, depth), ReadElement(s, q, end, depth);
            a.Read? ==> ElementOffers(a.tree, p) == ElementOffers(b.tree, q)
  {
    hide ReadItems, ReadValue, WsEnd, Offers, Text, BodyText;
    SliceAt(s, q, q, end);
    assert WsEnd(s, q, end) == q by { WsRun(s, q, end, []); }
  }

  /** Where the reader finds the colon of a member. */
  function ColonFound(s: bytes, p: nat, end: nat): (r: Read<seq<Item>>)
    requires p <= end <= |s|
    ensures r.Read? ==> r.pos < end
  {
    var k := WsEnd(s, p, end);
    if k == end || s[k] != QUOTE then NoRead
    else
      var r := ReadItems(s, k + 1, end);
      if r.NoRead? then NoRead
      else
        var c := WsEnd(s, r.pos, end);
        if c == end || s[c] != COLON then NoRead else Read(r.tree, c)
  }

  /** A member is read by finding its colon and then its value. */
  lemma MemberFound(s: bytes, p: nat, end: nat, depth: nat)
    requires p <= end <= |s| && depth > 0
    ensures ReadMember(s, p, end, depth).Read? <==>
              && ColonFound(s, p, end).Read?
              && ReadValue(s, WsEnd(s, ColonFound(s, p, end).pos + 1, end), end, depth - 1).Read?
    ensures ReadMember(s, p, end, depth).Read? ==>
              var r := ReadMember(s, p, end, depth);
              var v := WsEnd(s, ColonFound(s, p, end).pos + 1, end);
              && r.tree.key == ColonFound(s, p, end).tree && ValueAt(p, r.tree) == v
              && ReadValue(s, v, end, depth - 1).tree == r.tree.value
              && r.pos == WsEnd(s, ReadValue(s, v, end, depth - 1).pos, end)
  {
    hide ReadItems, ReadValue, WsEnd, BodyText;
    var k := WsEnd(s, p, end);
    if k < end && s[k] == QUOTE && ReadItems(s, k + 1, end).Read? {
      ReadItemsSound(s, k + 1, end);
    }
  }

  /** A member's value ends where the reader ends it. */
  lemma MemberEnds(s: bytes, p: nat, end: nat, depth: nat)
    requires p <= end <= |s| && depth > 0 && ReadMember(s, p, end, depth).Read?
    ensures var m := ReadMember(s, p, end, depth).tree;
            ValueAt(p, m) <= end && ReadValue(s, ValueAt(p, m), end, depth - 1) == Read(m.value, ValueAt(p, m) + |Text(m.value)|)
  {
    hide *;
    ReadMemberSound(s, p, end, depth);
    assert ValueAt(p, ReadMember(s, p, end, depth).tree) <= end by { MemberIsInside(s, p, end, depth); }
  }

  lemma MemberIsInside(s: bytes, p: nat, end: nat, depth: nat)
    requires p <= end <= |s| && depth > 0 && ReadMember(s, p, end, depth).Read?
    ensures ValueAt(p, ReadMember(s, p, end, depth).tree) <= end
  {
    hide ReadItems, ReadValue, ReadMember, WsEnd, ValueAt;
    MemberFound(s, p, end, depth);
  }

  /** What a member offers, in terms of where its value was read. */
  lemma MemberOffered(s: bytes, p: nat, end: nat, depth: nat, v: nat, q: nat)
    requires p <= v <= end <= |s| && depth > 0 && ReadMember(s, p, end, depth).Read?
    requires v == ValueAt(p, ReadMember(s, p, end, depth).tree) && ReadValue(s, v, end, depth - 1).Read?
    requires q == ReadValue(s, v, end, depth - 1).pos
    ensures MemberOffers(ReadMember(s, p, end, depth).tree, p) == Offers(ReadValue(s, v, end, depth - 1).tree, v) + [q]
  {
    hide ReadValue, ReadMember, Text, Offers, ValueAt;
    MemberEnds(s, p, end, depth);
  }

  lemma ElementPlace(s: bytes, p: nat, end: nat, depth: nat)
    requires p <= end <= |s| && depth > 0 && ReadElement(s, p, end, depth).Read?
    ensures var e, v := ReadElement(s, p, end, depth).tree, WsEnd(s, p, end);
            && v == p + |e.before| && e.value == ReadValue(s, v, end, depth - 1).tree
            && ReadValue(s, v, end, depth - 1).pos == v + |Text(e.value)|
  {
    hide ReadValue, Text, WellFormed, At, Depth, Stops;
    ReadValueSound(s, WsEnd(s, p, end), end, depth - 1);
  }

  /** What a container offers is what is inside it. */
  lemma ObjectOffers(s: bytes, p: nat, end: nat, depth: nat)
    requires p < end <= |s| && s[p] == LBRACE && depth > 0 && ReadValue(s, p, end, depth).Read?
    ensures var w, ms := WsEnd(s, p + 1, end), ReadMembers(s, p + 1, end, depth);
            if w < end && s[w] == RBRACE then Offers(ReadValue(s, p, end, depth).tree, p) == []
            else ms.Read? && Offers(ReadValue(s, p, end, depth).tree, p) == MembersOffers(ms.tree, p + 1)
  {
    hide ReadValue, ReadMembers, WsEnd, MembersOffers;
    ObjectStep(s, p, end, depth);
  }

  lemma ArrayOffers(s: bytes, p: nat, end: nat, depth: nat)
    requires p < end <= |s| && s[p] == LBRACKET && depth > 0 && ReadValue(s, p, end, depth).Read?
    ensures var w, es := WsEnd(s, p + 1, end), ReadElements(s, p + 1, end, depth);
            if w < end && s[w] == RBRACKET then Offers(ReadValue(s, p, end, depth).tree, p) == []
            else es.Read? && Offers(ReadValue(s, p, end, depth).tree, p) == ElementsOffers(es.tree, p + 1)
  {
    hide ReadValue, ReadElements, WsEnd, ElementsOffers;
    ArrayStep(s, p, end, depth);
  }

  lemma PrimitiveOffers(s: bytes, p: nat, end: nat)
    requires p < end <= |s| && ReadPrimitive(s, p, end).Read?
    ensures Offers(ReadPrimitive(s, p, end).tree, p) == []
  {
    hide ReadItems, ReadNumber, At, WordText;
  }

  /** One turn of the loop over members: key, colon, value, report, and the blanks around them. */
  method SkipMember(s: bytes, p0: nat, end: nat, depth: nat, scan: Reporter) returns (ok: bool, p: nat)
    requires p0 <= end <= |s| && depth > 0 && scan.Valid() && scan.size == |s|
    modifies scan
    ensures scan.Valid()
    ensures ok == ReadMember(s, p0, end, depth).Read?
    ensures ok ==> p == ReadMember(s, p0, end, depth).pos
    ensures ok ==> scan.offered == old(scan.offered) + MemberOffers(ReadMember(s, p0, end, depth).tree, p0)
    decreases end - p0, 2
  {
    hide ReadItems, ReadValue, ReadMember, WsEnd, Offers, ValueAt, MemberOffers, Text;
    MemberFound(s, p0, end, depth);
    p := SkipWhitespace(s, p0, end);
    if p >= end || s[p] != QUOTE {
      return false, p;
    }
    ok, p := SkipString(s, p, end);
    if !ok {
      return;
    }
    p := SkipWhitespace(s, p, end);
    if p >= end || s[p] != COLON {
      return false, p;
    }
    ghost var v := WsEnd(s, p + 1, end);
    ok, p := SkipValue(s, p + 1, end, depth - 1, scan);
    if !ok {
      return;
    }
    MemberOffered(s, p0, end, depth, v, p);
    scan.Report(p);
    p := SkipWhitespace(s, p, end);
  }

  method SkipObject(s: bytes, p0: nat, end: nat, depth: nat, scan: Reporter) returns (ok: bool, p: nat)
    requires p0 < end <= |s| && s[p0] == LBRACE && scan.Valid() && scan.size == |s|
    modifies scan
    ensures scan.Valid()
    ensures ok == ReadValue(s, p0, end, depth).Read?
    ensures ok ==> p == ReadValue(s, p0, end, depth).pos
    ensures ok ==> scan.offered == old(scan.offered) + Offers(ReadValue(s, p0, end, depth).tree, p0)
    decreases end - p0, 0
  {
    hide ReadMember, ReadValue, ReadMembers, WsEnd, MemberOffers, MembersOffers, MembersLeft, Offers;
    ObjectStep(s, p0, end, depth);
    if depth > 0 && ReadValue(s, p0, end, depth).Read? { ObjectOffers(s, p0, end, depth); }
    p := p0;
    if depth <= 0 {
      return false, p;
    }
    p := SkipWhitespace(s, p + 1, end);
    if p < end && s[p] == RBRACE {
      return true, p + 1;
    }
    MembersLeftAll(s, p0 + 1, p, end, depth, scan.offered);
    while true
      invariant p0 < p <= end && scan.Valid()
      invariant MembersLeft(s, p0 + 1, p, end, depth, old(scan.offered), scan.offered)
      decreases end - p
    {
      MembersLeftNext(s, p0 + 1, p, end, depth, old(scan.offered), scan.offered);
      ok, p := SkipMember(s, p, end, depth, scan);
      if !ok || p >= end {
        return false, p;
      }
      if s[p] == COMMA {
        p := p + 1;
      } else {
        return s[p] == RBRACE, p + 1;
      }
    }
  }

  /** One turn of the loop over elements: value, report, and the blanks around them. */
  method SkipElement(s: bytes, p0: nat, end: nat, depth: nat, scan: Reporter) returns (ok: bool, p: nat)
    requires p0 <= end <= |s| && depth > 0 && scan.Valid() && scan.size == |s|
    modifies scan
    ensures scan.Valid()
    ensures ok == ReadElement(s, p0, end, depth).Read?
    ensures ok ==> p == ReadElement(s, p0, end, depth).pos
    ensures ok ==> scan.offered == old(scan.offered) + ElementOffers(ReadElement(s, p0, end, depth).tree, p0)
    decreases end - p0, 2
  {
    hide ReadValue, WsEnd, Offers;
    ok, p := SkipValue(s, p0, end, depth - 1, scan);
    if !ok {
      return;
    }
    ElementPlace(s, p0, end, depth);
    scan.Report(p);
    p := SkipWhitespace(s, p, end);
  }

  method SkipArray(s: bytes, p0: nat, end: nat, depth: nat, scan: Reporter) returns (ok: bool, p: nat)
    requires p0 < end <= |s| && s[p0] == LBRACKET && scan.Valid() && scan.size == |s|
    modifies scan
    ensures scan.Valid()
    ensures ok == ReadValue(s, p0, end, depth).Read?
    ensures ok ==> p == ReadValue(s, p0, end, depth).pos
    ensures ok ==> scan.offered == old(scan.offered) + Offers(ReadValue(s, p0, end, depth).tree, p0)
    decreases end - p0, 0
  {
    hide ReadElement, ReadValue, ReadElements, WsEnd, ElementOffers, ElementsOffers, ElementsLeft, Offers;
    ArrayStep(s, p0, end, depth);
    if depth > 0 && ReadValue(s, p0, end, depth).Read? { ArrayOffers(s, p0, end, depth); }
    p := p0;
    if depth <= 0 {
      return false, p;
    }
    p := SkipWhitespace(s, p + 1, end);
    if p < end && s[p] == RBRACKET {
      return true, p + 1;
    }
    ElementsLeftAll(s, p0 + 1, p, end, depth, scan.offered);
    ghost var seen := 0;
    while true
      invariant p0 < p <= end && scan.Valid()
      invariant ElementsLeft(s, p0 + 1, p, end, depth, seen, old(scan.offered), scan.offered)
      decreases end - p
    {
      ElementsLeftNext(s, p0 + 1, p, end, depth, seen, old(scan.offered), scan.offered);
      seen := seen + 1;
      ok, p := SkipElement(s, p, end, depth, scan);
      if !ok || p >= end {
        return false, p;
      }
      if s[p] == COMMA {
        p := p + 1;
      } else {
        return s[p] == RBRACKET, p + 1;
      }
    }
  }

  method SkipValue(s: bytes, p0: nat, end: nat, depth: nat, scan: Reporter) returns (ok: bool, p: nat)
    requires p0 <= end <= |s| && scan.Valid() && scan.size == |s|
    modifies scan
    ensures scan.Valid()
    ensures ok == ReadValue(s, WsEnd(s, p0, end), end, depth).Read?
    ensures ok ==> p == ReadValue(s, WsEnd(s, p0, end), end, depth).pos
    ensures ok ==> scan.offered == old(scan.offered) + Offers(ReadValue(s, WsEnd(s, p0, end), end, depth).tree, WsEnd(s, p0, end))
    decreases end - p0, 1
  {
    p := SkipWhitespace(s, p0, end);
    if p >= end {
      return false, p;
    }
    var c := s[p];
    if c == LBRACE {
      ok, p := SkipObject(s, p, end, depth, scan);
    } else if c == LBRACKET {
      ok, p := SkipArray(s, p, end, depth, scan);
    } else {
      if ReadPrimitive(s, p, end).Read? { PrimitiveOffers(s, p, end); }
      ok, p := SkipPrimitive(s, p, end);
    }
  }

  ghost function CountOf(s: bytes, p: nat, end: nat, depth: nat): int
    requires p <= end <= |s|
  {
    var r := ReadValue(s, p, end, depth);
    if r.Read? then Count(r.tree) else -1
  }

  lemma CountOfElements(s: bytes, p: nat, end: nat, depth: nat)
    requires p < end <= |s| && s[p] == LBRACKET
    ensures depth == 0 ==> CountOf(s, p, end, depth) == -1
    ensures depth > 0 ==>
              var w, es := WsEnd(s, p + 1, end), ReadElements(s, p + 1, end, depth);
              && (CountOf(s, p, end, depth) >= 0 ==> ReadValue(s, p, end, depth).Read?)
              && CountOf(s, p, end, depth) ==
                   if w < end && s[w] == RBRACKET then 0 else if es.Read? then ElementCount(es.tree) else -1
  {
    hide ReadValue, ReadElements, WsEnd, ElementCount;
    ArrayStep(s, p, end, depth);
  }

  /** The number of elements of the array at p0, or -1 where it is malformed. */
  method CountArrayElements(s: bytes, p0: nat, end: nat, depth: nat, scan: Reporter) returns (count: int)
    requires p0 < end <= |s| && s[p0] == LBRACKET && scan.Valid() && scan.size == |s|
    modifies scan
    ensures scan.Valid()
    ensures count == CountOf(s, p0, end, depth)
    ensures count >= 0 ==> scan.offered == old(scan.offered) + Offers(ReadValue(s, p0, end, depth).tree, p0)
  {
    hide ReadElement, ReadValue, ReadElements, WsEnd, ElementOffers, ElementsOffers, ElementsLeft, Offers, CountOf;
    CountOfElements(s, p0, end, depth);
    if depth > 0 && ReadValue(s, p0, end, depth).Read? { ArrayOffers(s, p0, end, depth); }
    if depth <= 0 {
      return -1;
    }
    var p := SkipWhitespace(s, p0 + 1, end);
    count := 0;
    if p < end && s[p] == RBRACKET {
      return 0;
    }
    ElementsLeftAll(s, p0 + 1, p, end, depth, scan.offered);
    while true
      invariant p0 < p <= end && scan.Valid() && count >= 0
      invariant ElementsLeft(s, p0 + 1, p, end, depth, count, old(scan.offered), scan.offered)
      decreases end - p
    {
      ElementsLeftNext(s, p0 + 1, p, end, depth, count, old(scan.offered), scan.offered);
      var ok, a := SkipElement(s, p, end, depth, scan);
      if !ok || a >= end {
        return -1;
      }
      count := count + 1;
      if s[a] == COMMA {
        p := a + 1;
      } else {
        return if s[a] == RBRACKET then count else -1;
      }
    }
  }
}
