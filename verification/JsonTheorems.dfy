/** The reader agrees with the grammar, in both directions, and what follows from that. */
module JsonTheorems {
  import opened Bytes
  import opened JsonGrammar
  import opened JsonReader

  // ----- runs of whitespace and of digits -----

  lemma WsRun(s: bytes, p: nat, end: nat, w: bytes)
    requires AllWhitespace(w) && At(s, p, end, w)
    requires p + |w| < end ==> !IsWhitespace(s[p + |w|])
    ensures WsEnd(s, p, end) == p + |w|
  {
    AtIsSlice(s, p, end, w);
    forall i | p <= i < p + |w| ensures IsWhitespace(s[i]) {
      assert s[i] == w[i - p];
    }
  }

  lemma DigitRun(s: bytes, p: nat, end: nat, d: bytes)
    requires AllDigits(d) && At(s, p, end, d)
    requires p + |d| < end ==> !IsDigit(s[p + |d|])
    ensures DigitsEnd(s, p, end) == p + |d|
  {
    AtIsSlice(s, p, end, d);
    forall i | p <= i < p + |d| ensures IsDigit(s[i]) {
      assert s[i] == d[i - p];
    }
  }

  // ----- strings -----

  lemma PairAt(s: bytes, p: nat, end: nat, c: byte, d: byte, rest: bytes)
    ensures At(s, p, end, [c, d] + rest) <==>
            p + 2 <= end <= |s| && s[p] == c && s[p + 1] == d && At(s, p + 2, end, rest)
  {
    assert [c, d] + rest == [c] + ([d] + rest);
    AtCons(s, p, end, c, [d] + rest);
    AtCons(s, p + 1, end, d, rest);
  }

  lemma {:induction false} ReadEscapeSound(s: bytes, p: nat, end: nat)
    requires p < end <= |s| && s[p] == BACKSLASH && ReadEscape(s, p, end).Read?
    ensures var r := ReadEscape(s, p, end);
            IsItem(r.tree) && !r.tree.Raw? && At(s, p, end, ItemText(r.tree)) && r.pos == p + |ItemText(r.tree)|
  {
    hide At;
    var r := ReadEscape(s, p, end);
    match r.tree
    case Raw(_) =>
    case Short(c) =>
      assert [BACKSLASH, c] + [] == [BACKSLASH, c];
      SliceAt(s, p + 2, p + 2, end);
      PairAt(s, p, end, BACKSLASH, c, []);
    case Hex(h) =>
      AtIsSlice(s, p + 2, end, h);
      PairAt(s, p, end, BACKSLASH, LOWER_U, h);
    case Pair(h, l) =>
      AtIsSlice(s, p + 2, end, h);
      AtIsSlice(s, p + 8, end, l);
      PairAt(s, p + 6, end, BACKSLASH, LOWER_U, l);
      AtConcat(s, p + 2, end, h, [BACKSLASH, LOWER_U] + l);
      PairAt(s, p, end, BACKSLASH, LOWER_U, h + ([BACKSLASH, LOWER_U] + l));
      assert ItemText(r.tree) == [BACKSLASH, LOWER_U] + (h + ([BACKSLASH, LOWER_U] + l));
  }

  lemma {:induction false} ReadEscapeComplete(s: bytes, p: nat, end: nat, i: Item)
    requires IsItem(i) && !i.Raw? && At(s, p, end, ItemText(i))
    ensures p < end && s[p] == BACKSLASH && ReadEscape(s, p, end) == Read(i, p + |ItemText(i)|)
  {
    hide At, Hex4Value, IsHexDigit, IsHighSurrogate, IsLowSurrogate;
    match i
    case Raw(_) =>
    case Short(c) =>
      assert [BACKSLASH, c] + [] == [BACKSLASH, c];
      PairAt(s, p, end, BACKSLASH, c, []);
    case Hex(h) =>
      PairAt(s, p, end, BACKSLASH, LOWER_U, h);
      AtIsSlice(s, p + 2, end, h);
    case Pair(h, l) =>
      assert ItemText(i) == [BACKSLASH, LOWER_U] + (h + ([BACKSLASH, LOWER_U] + l));
      PairAt(s, p, end, BACKSLASH, LOWER_U, h + ([BACKSLASH, LOWER_U] + l));
      AtConcat(s, p + 2, end, h, [BACKSLASH, LOWER_U] + l);
      PairAt(s, p + 6, end, BACKSLASH, LOWER_U, l);
      AtIsSlice(s, p + 2, end, h);
      AtIsSlice(s, p + 8, end, l);
  }

  lemma {:induction false} ReadItemsSound(s: bytes, p: nat, end: nat)
    requires p <= end <= |s| && ReadItems(s, p, end).Read?
    ensures var r := ReadItems(s, p, end);
            AreItems(r.tree) && At(s, p, end, BodyText(r.tree)) && r.pos == p + |BodyText(r.tree)|
    decreases end - p
  {
    hide At;
    var r := ReadItems(s, p, end);
    if s[p] == QUOTE {
      AtOne(s, p, end, QUOTE);
    } else {
      var q := p + 1;
      if s[p] == BACKSLASH {
        ReadEscapeSound(s, p, end);
        q := ReadEscape(s, p, end).pos;
      } else {
        AtOne(s, p, end, s[p]);
      }
      ReadItemsSound(s, q, end);
      assert r.tree[1..] == ReadItems(s, q, end).tree;
      AtConcat(s, p, end, ItemText(r.tree[0]), BodyText(r.tree[1..]));
    }
  }

  lemma OneItem(s: bytes, p: nat, end: nat, i: Item)
    requires IsItem(i) && At(s, p, end, ItemText(i))
    ensures p < end <= |s| && |ItemText(i)| > 0 && s[p] != QUOTE
    ensures if i.Raw? then s[p] != BACKSLASH && i == Raw(s[p]) && |ItemText(i)| == 1
            else s[p] == BACKSLASH && ReadEscape(s, p, end) == Read(i, p + |ItemText(i)|)
  {
    hide At, ReadEscape;
    if i.Raw? { AtOne(s, p, end, i.b); } else { ReadEscapeComplete(s, p, end, i); }
  }

  lemma {:induction false} ReadItemsComplete(s: bytes, p: nat, end: nat, items: seq<Item>)
    requires AreItems(items) && At(s, p, end, BodyText(items))
    ensures ReadItems(s, p, end) == Read(items, p + |BodyText(items)|)
    decreases |items|
  {
    hide At, ReadEscape, ItemText;
    if items == [] {
      AtOne(s, p, end, QUOTE);
    } else {
      var q, rest := p + |ItemText(items[0])|, items[1..];
      AtConcat(s, p, end, ItemText(items[0]), BodyText(rest));
      ReadItemsComplete(s, q, end, rest);
      OneItem(s, p, end, items[0]);
      assert items == [items[0]] + rest;
    }
  }

  // ----- numbers and literals -----

  lemma ReadFractionSound(s: bytes, p: nat, end: nat)
    requires p <= end <= |s| && ReadFraction(s, p, end).Read?
    ensures var r := ReadFraction(s, p, end);
            && (r.tree.Fraction? ==> |r.tree.digits| > 0 && AllDigits(r.tree.digits))
            && At(s, p, end, FractionText(r.tree)) && r.pos == p + |FractionText(r.tree)|
            && (r.pos < end ==> if r.tree.Fraction? then !IsDigit(s[r.pos]) else s[r.pos] != DOT)
  {
    hide At;
    var r := ReadFraction(s, p, end);
    SliceAt(s, p, p, end);
    if r.tree.Fraction? {
      AtIsSlice(s, p + 1, end, r.tree.digits);
      AtCons(s, p, end, DOT, r.tree.digits);
    }
  }

  lemma ReadFractionComplete(s: bytes, p: nat, end: nat, f: Fraction)
    requires f.Fraction? ==> |f.digits| > 0 && AllDigits(f.digits)
    requires At(s, p, end, FractionText(f))
    requires var q := p + |FractionText(f)|;
             q < end ==> if f.Fraction? then !IsDigit(s[q]) else s[q] != DOT
    ensures ReadFraction(s, p, end) == Read(f, p + |FractionText(f)|)
  {
    hide At;
    if f.Fraction? {
      AtCons(s, p, end, DOT, f.digits);
      AtIsSlice(s, p + 1, end, f.digits);
      DigitRun(s, p + 1, end, f.digits);
    }
  }

  lemma ReadExponentSound(s: bytes, p: nat, end: nat)
    requires p <= end <= |s| && ReadExponent(s, p, end).Read?
    ensures var r := ReadExponent(s, p, end);
            && (r.tree.Exponent? ==>
                  && IsExponentMark(r.tree.mark)
                  && (r.tree.sign == [] || r.tree.sign == [PLUS] || r.tree.sign == [MINUS])
                  && |r.tree.digits| > 0 && AllDigits(r.tree.digits))
            && At(s, p, end, ExponentText(r.tree)) && r.pos == p + |ExponentText(r.tree)|
            && (r.pos < end ==> if r.tree.Exponent? then !IsDigit(s[r.pos]) else !IsExponentMark(s[r.pos]))
  {
    hide At, DigitsEnd;
    var r := ReadExponent(s, p, end);
    SliceAt(s, p, p, end);
    if r.tree.Exponent? {
      var d := p + 1 + |r.tree.sign|;
      SliceAt(s, p + 1, d, end);
      SliceAt(s, d, r.pos, end);
      AtConcat(s, p + 1, end, r.tree.sign, r.tree.digits);
      AtCons(s, p, end, r.tree.mark, r.tree.sign + r.tree.digits);
    }
  }

  lemma FirstDigit(d: bytes)
    requires AllDigits(d) && d != []
    ensures IsDigit(d[0])
  {}

  lemma NoExponentThere(s: bytes, p: nat, end: nat)
    requires p <= end <= |s| && (p < end ==> !IsExponentMark(s[p]))
    ensures ReadExponent(s, p, end) == Read(NoExponent, p)
  {
    hide DigitsEnd;
  }

  /** A sign before a digit ends where the digit stands. */
  lemma SignEnds(s: bytes, p: nat, end: nat, sign: bytes)
    requires p + |sign| < end <= |s| && s[p..p + |sign|] == sign && IsDigit(s[p + |sign|])
    requires sign == [] || sign == [PLUS] || sign == [MINUS]
    ensures (if s[p] == PLUS || s[p] == MINUS then p + 1 else p) == p + |sign|
  {
    if sign != [] { assert s[p] == sign[0]; }
  }

  lemma ExponentFromParts(s: bytes, p: nat, end: nat, e: Exponent, d: nat, q: nat)
    requires e.Exponent? && p < end <= |s| && s[p] == e.mark && IsExponentMark(e.mark) && p + 1 <= d < q <= end
    requires d == (if s[p + 1] == PLUS || s[p + 1] == MINUS then p + 2 else p + 1)
    requires s[p + 1..d] == e.sign && DigitsEnd(s, d, end) == q && s[d..q] == e.digits
    ensures ReadExponent(s, p, end) == Read(e, q)
  {
    hide DigitsEnd, IsExponentMark;
  }

  lemma ExponentPlaces(s: bytes, p: nat, end: nat, e: Exponent)
    requires e.Exponent? && At(s, p, end, ExponentText(e))
    ensures var d := p + 1 + |e.sign|;
            && p < end <= |s| && d + |e.digits| <= end && s[p] == e.mark && At(s, d, end, e.digits)
            && s[p + 1..d] == e.sign && s[d..d + |e.digits|] == e.digits
            && |ExponentText(e)| == 1 + |e.sign| + |e.digits|
  {
    hide At;
    var d := p + 1 + |e.sign|;
    AtCons(s, p, end, e.mark, e.sign + e.digits);
    AtConcat(s, p + 1, end, e.sign, e.digits);
    AtIsSlice(s, p + 1, end, e.sign);
    AtIsSlice(s, d, end, e.digits);
  }

  lemma ReadExponentComplete(s: bytes, p: nat, end: nat, e: Exponent)
    requires e.Exponent? ==>
               && IsExponentMark(e.mark)
               && (e.sign == [] || e.sign == [PLUS] || e.sign == [MINUS])
               && |e.digits| > 0 && AllDigits(e.digits)
    requires At(s, p, end, ExponentText(e))
    requires var q := p + |ExponentText(e)|;
             q < end ==> if e.Exponent? then !IsDigit(s[q]) else !IsExponentMark(s[q])
    ensures ReadExponent(s, p, end) == Read(e, p + |ExponentText(e)|)
  {
    hide At, DigitsEnd, AllDigits, ReadExponent, IsExponentMark, ExponentText;
    if e.Exponent? {
      var d := p + 1 + |e.sign|;
      ExponentPlaces(s, p, end, e);
      DigitRun(s, d, end, e.digits);
      FirstDigit(e.digits);
      assert s[d] == e.digits[0];
      SignEnds(s, p + 1, end, e.sign);
      ExponentFromParts(s, p, end, e, d, d + |e.digits|);
    } else {
      ExponentFirst(e);
      AtIsSlice(s, p, end, []);
      NoExponentThere(s, p, end);
    }
  }

  lemma ReadNumberSound(s: bytes, p: nat, end: nat)
    requires p < end <= |s| && ReadNumber(s, p, end).Read?
    ensures var r := ReadNumber(s, p, end);
            && IsNumber(r.tree) && At(s, p, end, NumberText(r.tree)) && r.pos == p + |NumberText(r.tree)|
            && (r.pos < end ==> NumberStops(r.tree, s[r.pos]))
  {
    hide At;
    hide ReadFraction, ReadExponent, FractionText, ExponentText;
    var r := ReadNumber(s, p, end);
    var n := r.tree;
    var a := if n.negative then p + 1 else p;
    var b := a + |n.whole|;
    ReadFractionSound(s, b, end);
    var c := ReadFraction(s, b, end).pos;
    ReadExponentSound(s, c, end);
    AtConcat(s, b, end, FractionText(n.fraction), ExponentText(n.exponent));
    AtConcat(s, a, end, n.whole, FractionText(n.fraction) + ExponentText(n.exponent));
    var minus: bytes := if n.negative then [MINUS] else [];
    SliceAt(s, a, b, end);
    SliceAt(s, p, p, end);
    AtOne(s, p, end, MINUS);
    AtConcat(s, p, end, minus, n.whole + (FractionText(n.fraction) + ExponentText(n.exponent)));
    FractionFirst(n.fraction);
    ExponentFirst(n.exponent);
  }

  lemma FractionFirst(f: Fraction)
    ensures f.Fraction? ==> |FractionText(f)| > 0 && FractionText(f)[0] == DOT
    ensures f.NoFraction? ==> FractionText(f) == []
  {}

  lemma ExponentFirst(e: Exponent)
    ensures e.Exponent? ==> |ExponentText(e)| > 0 && ExponentText(e)[0] == e.mark
    ensures e.NoExponent? ==> ExponentText(e) == []
  {}

  /** The parts of a number, each at its place. */
  lemma NumberPlaces(s: bytes, p: nat, end: nat, n: Number, a: nat, b: nat, c: nat)
    requires At(s, p, end, NumberText(n))
    requires a == (if n.negative then p + 1 else p) && b == a + |n.whole| && c == b + |FractionText(n.fraction)|
    ensures At(s, a, end, n.whole) && At(s, b, end, FractionText(n.fraction)) && At(s, c, end, ExponentText(n.exponent))
    ensures p + |NumberText(n)| == c + |ExponentText(n.exponent)| && p <= end <= |s|
    ensures n.negative ==> p < end && s[p] == MINUS
  {
    hide At, FractionText, ExponentText;
    var fraction, exponent := FractionText(n.fraction), ExponentText(n.exponent);
    var minus: bytes := if n.negative then [MINUS] else [];
    AtIsSlice(s, p, end, NumberText(n));
    AtConcat(s, p, end, minus, n.whole + (fraction + exponent));
    AtConcat(s, a, end, n.whole, fraction + exponent);
    AtConcat(s, b, end, fraction, exponent);
    if n.negative { AtOne(s, p, end, MINUS); }
  }

  /** What follows the exponent and the fraction does not continue them, nor what follows the digits those. */
  lemma NumberEnds(s: bytes, n: Number, b: nat, c: nat, end: nat)
    requires IsNumber(n) && end <= |s| && c == b + |FractionText(n.fraction)|
    requires At(s, b, end, FractionText(n.fraction)) && At(s, c, end, ExponentText(n.exponent))
    requires var q := c + |ExponentText(n.exponent)|; q < end ==> NumberStops(n, s[q])
    ensures ReadFraction(s, b, end) == Read(n.fraction, c)
    ensures ReadExponent(s, c, end) == Read(n.exponent, c + |ExponentText(n.exponent)|)
    ensures n.whole[0] != 0x30 && b < end ==> !IsDigit(s[b])
  {
    hide At, ReadFraction, ReadExponent, FractionText, ExponentText, AllDigits;
    FractionFirst(n.fraction);
    ExponentFirst(n.exponent);
    AtIsSlice(s, b, end, FractionText(n.fraction));
    AtIsSlice(s, c, end, ExponentText(n.exponent));
    if n.exponent.Exponent? { AtByte(s, c, end, ExponentText(n.exponent), 0); }
    if n.fraction.Fraction? { AtByte(s, b, end, FractionText(n.fraction), 0); }
    ReadFractionComplete(s, b, end, n.fraction);
    ReadExponentComplete(s, c, end, n.exponent);
  }

  /** A number is read from its parts. */
  lemma NumberFromParts(s: bytes, p: nat, end: nat, n: Number, a: nat, b: nat, c: nat, q: nat)
    requires p <= a < b <= c && p < end <= |s| && a < end && b <= end && c <= end
    requires n.negative == (s[p] == MINUS) && a == (if n.negative then p + 1 else p) && IsDigit(s[a])
    requires b == (if s[a] == 0x30 then a + 1 else DigitsEnd(s, a + 1, end)) && s[a..b] == n.whole
    requires ReadFraction(s, b, end) == Read(n.fraction, c) && ReadExponent(s, c, end) == Read(n.exponent, q)
    ensures ReadNumber(s, p, end) == Read(n, q)
  {
    hide ReadFraction, ReadExponent, DigitsEnd;
  }

  lemma ReadNumberComplete(s: bytes, p: nat, end: nat, n: Number)
    requires IsNumber(n) && At(s, p, end, NumberText(n))
    requires var q := p + |NumberText(n)|; q < end ==> NumberStops(n, s[q])
    ensures p < end && (s[p] == MINUS || IsDigit(s[p]))
    ensures ReadNumber(s, p, end) == Read(n, p + |NumberText(n)|)
  {
    hide At, ReadFraction, ReadExponent, ReadNumber, FractionText, ExponentText, NumberText, DigitsEnd, NumberStops;
    var a := if n.negative then p + 1 else p;
    var b := a + |n.whole|;
    var c := b + |FractionText(n.fraction)|;
    var q := c + |ExponentText(n.exponent)|;
    NumberPlaces(s, p, end, n, a, b, c);
    AtIsSlice(s, a, end, n.whole);
    AtIsSlice(s, b, end, FractionText(n.fraction));
    NumberEnds(s, n, b, c, end);
    WholeRun(s, a, end, n.whole);
    assert IsDigit(n.whole[0]);
    NumberFromParts(s, p, end, n, a, b, c, q);
  }

  lemma WholeRun(s: bytes, a: nat, end: nat, whole: bytes)
    requires |whole| > 0 && AllDigits(whole) && (whole[0] == 0x30 ==> |whole| == 1)
    requires At(s, a, end, whole)
    requires whole[0] != 0x30 && a + |whole| < end ==> !IsDigit(s[a + |whole|])
    ensures s[a] == whole[0] && s[a..a + |whole|] == whole
    ensures (if s[a] == 0x30 then a + 1 else DigitsEnd(s, a + 1, end)) == a + |whole|
  {
    hide At;
    AtIsSlice(s, a, end, whole);
    if whole[0] != 0x30 {
      assert whole == [whole[0]] + whole[1..];
      AtCons(s, a, end, whole[0], whole[1..]);
      DigitRun(s, a + 1, end, whole[1..]);
    }
  }

  lemma ReadPrimitiveSound(s: bytes, p: nat, end: nat)
    requires p < end <= |s| && s[p] != LBRACE && s[p] != LBRACKET && ReadPrimitive(s, p, end).Read?
    ensures var r := ReadPrimitive(s, p, end);
            && WellFormed(r.tree) && Depth(r.tree) == 0
            && At(s, p, end, Text(r.tree)) && r.pos == p + |Text(r.tree)| && Stops(r.tree, s, r.pos, end)
  {
    hide At;
    if s[p] == QUOTE {
      ReadItemsSound(s, p + 1, end);
      AtCons(s, p, end, QUOTE, BodyText(ReadItems(s, p + 1, end).tree));
    } else if s[p] == MINUS || IsDigit(s[p]) {
      ReadNumberSound(s, p, end);
    }
  }

  lemma WordFirst(w: Word)
    ensures |WordText(w)| > 0
    ensures WordText(w)[0] == match w case True => 0x74 case False => 0x66 case Null => 0x6E
  {}

  lemma ReadPrimitiveComplete(s: bytes, p: nat, end: nat, v: Value)
    requires WellFormed(v) && Depth(v) == 0
    requires At(s, p, end, Text(v)) && Stops(v, s, p + |Text(v)|, end)
    ensures p < end && s[p] != LBRACE && s[p] != LBRACKET && !IsWhitespace(s[p])
    ensures ReadPrimitive(s, p, end) == Read(v, p + |Text(v)|)
  {
    hide At, ReadNumber, ReadItems, BodyText, NumberText, AreItems, IsNumber, NumberStops;
    match v
    case Literal(w) =>
      WordFirst(w);
      AtByte(s, p, end, WordText(w), 0);
    case Numeral(n) =>
      ReadNumberComplete(s, p, end, n);
    case Str(items) =>
      AtCons(s, p, end, QUOTE, BodyText(items));
      ReadItemsComplete(s, p + 1, end, items);
    case EmptyObject(_) =>
    case Object(_) =>
    case EmptyArray(_) =>
    case Array(_) =>
  }

  // ----- containers: what is read is what stands there -----

  /** An empty container spells its opening byte, whitespace and its closing byte. */
  lemma EmptyAt(s: bytes, p: nat, end: nat, open: byte, ws: bytes, close: byte)
    ensures At(s, p, end, [open] + (ws + [close])) <==>
            && p + |ws| + 2 <= end <= |s| && s[p] == open
            && At(s, p + 1, end, ws) && s[p + 1 + |ws|] == close
  {
    hide At;
    AtCons(s, p, end, open, ws + [close]);
    AtConcat(s, p + 1, end, ws, [close]);
    AtOne(s, p + 1 + |ws|, end, close);
  }

  /** The offsets inside a member that starts at p. */
  function KeyAt(p: nat, m: Member): nat { p + |m.before| }
  function ColonAt(p: nat, m: Member): nat { KeyAt(p, m) + |StringText(m.key)| + |m.beforeColon| }
  function ValueAt(p: nat, m: Member): nat { ColonAt(p, m) + 1 + |m.beforeValue| }

  lemma MemberAt(s: bytes, p: nat, end: nat, m: Member)
    ensures At(s, p, end, MemberText(m)) <==>
            && At(s, p, end, m.before)
            && At(s, KeyAt(p, m), end, StringText(m.key))
            && At(s, KeyAt(p, m) + |StringText(m.key)|, end, m.beforeColon)
            && ColonAt(p, m) < end <= |s| && s[ColonAt(p, m)] == COLON
            && At(s, ColonAt(p, m) + 1, end, m.beforeValue)
            && At(s, ValueAt(p, m), end, Text(m.value))
            && At(s, ValueAt(p, m) + |Text(m.value)|, end, m.after)
    ensures |MemberText(m)| == ValueAt(p, m) + |Text(m.value)| + |m.after| - p
  {
    hide At;
    var t5 := Text(m.value) + m.after;
    var t4 := m.beforeValue + t5;
    var t3 := [COLON] + t4;
    var t2 := m.beforeColon + t3;
    AtConcat(s, p, end, m.before, StringText(m.key) + t2);
    AtConcat(s, KeyAt(p, m), end, StringText(m.key), t2);
    AtConcat(s, KeyAt(p, m) + |StringText(m.key)|, end, m.beforeColon, t3);
    AtCons(s, ColonAt(p, m), end, COLON, t4);
    AtConcat(s, ColonAt(p, m) + 1, end, m.beforeValue, t5);
    AtConcat(s, ValueAt(p, m), end, Text(m.value), m.after);
  }

  /** The definition of the reader on an object, for proofs that hide it. */
  lemma ObjectStep(s: bytes, p: nat, end: nat, depth: nat)
    requires p < end <= |s| && s[p] == LBRACE
    ensures depth == 0 ==> ReadValue(s, p, end, depth).NoRead?
    ensures depth > 0 ==>
              var w := WsEnd(s, p + 1, end);
              if w < end && s[w] == RBRACE
              then ReadValue(s, p, end, depth) == Read(EmptyObject(s[p + 1..w]), w + 1)
              else var r := ReadMembers(s, p + 1, end, depth);
                   ReadValue(s, p, end, depth) == if r.Read? then Read(Object(r.tree), r.pos) else NoRead
  {
    hide ReadMembers, WsEnd;
  }

  lemma ArrayStep(s: bytes, p: nat, end: nat, depth: nat)
    requires p < end <= |s| && s[p] == LBRACKET
    ensures depth == 0 ==> ReadValue(s, p, end, depth).NoRead?
    ensures depth > 0 ==>
              var w := WsEnd(s, p + 1, end);
              if w < end && s[w] == RBRACKET
              then ReadValue(s, p, end, depth) == Read(EmptyArray(s[p + 1..w]), w + 1)
              else var r := ReadElements(s, p + 1, end, depth);
                   ReadValue(s, p, end, depth) == if r.Read? then Read(Array(r.tree), r.pos) else NoRead
  {
    hide ReadElements, WsEnd;
  }

  /** The definition of the reader on members, for proofs that hide it. */
  lemma MembersStep(s: bytes, p: nat, end: nat, depth: nat)
    requires p <= end <= |s| && depth > 0
    ensures var m := ReadMember(s, p, end, depth);
            ReadMembers(s, p, end, depth) ==
            if m.NoRead? || m.pos == end then NoRead
            else if s[m.pos] == RBRACE then Read(LastMember(m.tree), m.pos + 1)
            else if s[m.pos] != COMMA then NoRead
            else var r := ReadMembers(s, m.pos + 1, end, depth);
                 if r.Read? then Read(MoreMembers(m.tree, r.tree), r.pos) else NoRead
  {
    hide ReadMember;
  }

  /** The definition of the reader on elements. */
  lemma ElementsStep(s: bytes, p: nat, end: nat, depth: nat)
    requires p <= end <= |s| && depth > 0
    ensures var e := ReadElement(s, p, end, depth);
            ReadElements(s, p, end, depth) ==
            if e.NoRead? || e.pos == end then NoRead
            else if s[e.pos] == RBRACKET then Read(LastElement(e.tree), e.pos + 1)
            else if s[e.pos] != COMMA then NoRead
            else var r := ReadElements(s, e.pos + 1, end, depth);
                 if r.Read? then Read(MoreElements(e.tree, r.tree), r.pos) else NoRead
  {
    hide ReadElement;
  }

  /** One look at what ReadValue does, case by case. */
  lemma ReadValueCases(s: bytes, p: nat, end: nat, depth: nat)
    requires p <= end <= |s| && ReadValue(s, p, end, depth).Read?
    ensures p < end
    ensures var r := ReadValue(s, p, end, depth);
            match r.tree
            case EmptyObject(ws) =>
              && s[p] == LBRACE && depth > 0 && p + 2 <= r.pos && ws == s[p + 1..r.pos - 1] && AllWhitespace(ws)
              && s[r.pos - 1] == RBRACE
            case EmptyArray(ws) =>
              && s[p] == LBRACKET && depth > 0 && p + 2 <= r.pos && ws == s[p + 1..r.pos - 1] && AllWhitespace(ws)
              && s[r.pos - 1] == RBRACKET
            case Object(ms) => s[p] == LBRACE && depth > 0 && ReadMembers(s, p + 1, end, depth) == Read(ms, r.pos)
            case Array(es) => s[p] == LBRACKET && depth > 0 && ReadElements(s, p + 1, end, depth) == Read(es, r.pos)
            case _ => s[p] != LBRACE && s[p] != LBRACKET && ReadPrimitive(s, p, end) == r
  {
    hide ReadItems, ReadNumber, At, WordText;
  }

  /** The text, the shape and the depth of a container that is not empty. */
  lemma ContainerIs(v: Value)
    ensures v.Object? ==>
              && Text(v) == [LBRACE] + MembersText(v.members) && Depth(v) == 1 + MembersDepth(v.members)
              && (WellFormed(v) <==> WellFormedMembers(v.members))
    ensures v.Array? ==>
              && Text(v) == [LBRACKET] + ElementsText(v.elements) && Depth(v) == 1 + ElementsDepth(v.elements)
              && (WellFormed(v) <==> WellFormedElements(v.elements))
    ensures v.EmptyObject? ==>
              Text(v) == [LBRACE] + (v.inner + [RBRACE]) && Depth(v) == 1 && (WellFormed(v) <==> AllWhitespace(v.inner))
    ensures v.EmptyArray? ==>
              Text(v) == [LBRACKET] + (v.inner + [RBRACKET]) && Depth(v) == 1 && (WellFormed(v) <==> AllWhitespace(v.inner))
  {}

  lemma {:induction false} ReadValueSound(s: bytes, p: nat, end: nat, depth: nat)
    requires p <= end <= |s| && ReadValue(s, p, end, depth).Read?
    ensures var r := ReadValue(s, p, end, depth);
            && WellFormed(r.tree) && Depth(r.tree) <= depth
            && At(s, p, end, Text(r.tree)) && r.pos == p + |Text(r.tree)| && Stops(r.tree, s, r.pos, end)
    decreases end - p, 1
  {
    hide At, ReadValue, ReadMembers, ReadElements, ReadPrimitive, Text, MembersText, ElementsText;
    hide WellFormed, WellFormedMembers, WellFormedElements, Depth, MembersDepth, ElementsDepth, AllWhitespace;
    var r := ReadValue(s, p, end, depth);
    ReadValueCases(s, p, end, depth);
    ContainerIs(r.tree);
    match r.tree
    case EmptyObject(ws) =>
      SliceAt(s, p + 1, p + 1 + |ws|, end);
      EmptyAt(s, p, end, LBRACE, ws, RBRACE);
    case EmptyArray(ws) =>
      SliceAt(s, p + 1, p + 1 + |ws|, end);
      EmptyAt(s, p, end, LBRACKET, ws, RBRACKET);
    case Object(ms) =>
      ReadMembersSound(s, p + 1, end, depth);
      AtCons(s, p, end, LBRACE, MembersText(ms));
    case Array(es) =>
      ReadElementsSound(s, p + 1, end, depth);
      AtCons(s, p, end, LBRACKET, ElementsText(es));
    case _ =>
      ReadPrimitiveSound(s, p, end);
  }

  /** One look at what ReadMember does. */
  lemma ReadMemberCases(s: bytes, p: nat, end: nat, depth: nat) returns (k: nat, e: nat, c: nat, v: nat, q: nat)
    requires p <= end <= |s| && depth > 0 && ReadMember(s, p, end, depth).Read?
    ensures var m, a := ReadMember(s, p, end, depth).tree, ReadMember(s, p, end, depth).pos;
            && p <= k < e <= c < v <= q <= a <= end && s[k] == QUOTE && s[c] == COLON
            && m.before == s[p..k] && m.beforeColon == s[e..c] && m.beforeValue == s[c + 1..v] && m.after == s[q..a]
            && ReadItems(s, k + 1, end) == Read(m.key, e) && ReadValue(s, v, end, depth - 1) == Read(m.value, q)
            && AllWhitespace(m.before) && AllWhitespace(m.beforeColon) && AllWhitespace(m.beforeValue)
            && AllWhitespace(m.after) && (a < end ==> !IsWhitespace(s[a]))
  {
    hide ReadItems, ReadValue;
    k := WsEnd(s, p, end);
    e := ReadItems(s, k + 1, end).pos;
    c := WsEnd(s, e, end);
    v := WsEnd(s, c + 1, end);
    q := ReadValue(s, v, end, depth - 1).pos;
  }

  lemma {:induction false} ReadMemberSound(s: bytes, p: nat, end: nat, depth: nat)
    requires p <= end <= |s| && depth > 0 && ReadMember(s, p, end, depth).Read?
    ensures var r := ReadMember(s, p, end, depth);
            && WellFormedMember(r.tree) && Depth(r.tree.value) < depth
            && At(s, p, end, MemberText(r.tree)) && r.pos == p + |MemberText(r.tree)|
            && (r.pos < end ==> !IsWhitespace(s[r.pos]))
            && ReadValue(s, ValueAt(p, r.tree), end, depth - 1)
               == Read(r.tree.value, ValueAt(p, r.tree) + |Text(r.tree.value)|)
    decreases end - p, 2
  {
    hide At, ReadItems, ReadValue, ReadMember, BodyText, Text, WellFormed, MemberText, Stops, Depth, WsEnd, AllWhitespace;
    var m, a := ReadMember(s, p, end, depth).tree, ReadMember(s, p, end, depth).pos;
    var k, e, c, v, q := ReadMemberCases(s, p, end, depth);
    ReadItemsSound(s, k + 1, end);
    AtCons(s, k, end, QUOTE, BodyText(m.key));
    ReadValueSound(s, v, end, depth - 1);
    SliceAt(s, p, k, end);
    SliceAt(s, e, c, end);
    SliceAt(s, c + 1, v, end);
    SliceAt(s, q, a, end);
    MemberAt(s, p, end, m);
  }

  lemma {:induction false} ReadMembersSound(s: bytes, p: nat, end: nat, depth: nat)
    requires p <= end <= |s| && depth > 0 && ReadMembers(s, p, end, depth).Read?
    ensures var r := ReadMembers(s, p, end, depth);
            && WellFormedMembers(r.tree) && MembersDepth(r.tree) < depth
            && At(s, p, end, MembersText(r.tree)) && r.pos == p + |MembersText(r.tree)|
    decreases end - p, 3
  {
    hide At, ReadMember, MemberText, WellFormedMember, Depth;
    var ms := ReadMembers(s, p, end, depth).tree;
    ReadMemberSound(s, p, end, depth);
    var a := ReadMember(s, p, end, depth).pos;
    match ms
    case LastMember(m) =>
      AtOne(s, a, end, RBRACE);
      AtConcat(s, p, end, MemberText(m), [RBRACE]);
    case MoreMembers(m, rest) =>
      ReadMembersSound(s, a + 1, end, depth);
      AtCons(s, a, end, COMMA, MembersText(rest));
      AtConcat(s, p, end, MemberText(m), [COMMA] + MembersText(rest));
  }

  /** The parts of an element that starts at p, with what closes it. */
  lemma ElementAt(s: bytes, p: nat, end: nat, e: Element, tail: bytes)
    ensures At(s, p, end, e.before + (Text(e.value) + (e.after + tail))) <==>
            && At(s, p, end, e.before) && At(s, p + |e.before|, end, Text(e.value))
            && At(s, p + |e.before| + |Text(e.value)|, end, e.after)
            && At(s, p + |e.before| + |Text(e.value)| + |e.after|, end, tail)
  {
    hide At;
    var v := p + |e.before|;
    AtConcat(s, p, end, e.before, Text(e.value) + (e.after + tail));
    AtConcat(s, v, end, Text(e.value), e.after + tail);
    AtConcat(s, v + |Text(e.value)|, end, e.after, tail);
  }

  lemma {:induction false} ReadElementSound(s: bytes, p: nat, end: nat, depth: nat)
    requires p <= end <= |s| && depth > 0 && ReadElement(s, p, end, depth).Read?
    ensures var r := ReadElement(s, p, end, depth);
            var e := r.tree;
            && AllWhitespace(e.before) && WellFormed(e.value) && AllWhitespace(e.after) && Depth(e.value) < depth
            && At(s, p, end, e.before) && At(s, p + |e.before|, end, Text(e.value))
            && At(s, p + |e.before| + |Text(e.value)|, end, e.after)
            && r.pos == p + |e.before| + |Text(e.value)| + |e.after|
    decreases end - p, 2
  {
    hide At, ReadValue, Text, WellFormed, Stops, Depth;
    var v := WsEnd(s, p, end);
    ReadValueSound(s, v, end, depth - 1);
    var q := ReadValue(s, v, end, depth - 1).pos;
    SliceAt(s, p, v, end);
    SliceAt(s, q, WsEnd(s, q, end), end);
  }

  lemma ElementsAre(es: Elements)
    ensures es.LastElement? ==>
              && ElementsText(es) == es.head.before + (Text(es.head.value) + (es.head.after + [RBRACKET]))
              && ElementsDepth(es) == Depth(es.head.value)
    ensures es.MoreElements? ==>
              && ElementsText(es) == es.head.before + (Text(es.head.value) + (es.head.after + ([COMMA] + ElementsText(es.tail))))
              && ElementsDepth(es) == Max(Depth(es.head.value), ElementsDepth(es.tail))
    ensures WellFormedElements(es) <==>
              && AllWhitespace(es.head.before) && WellFormed(es.head.value) && AllWhitespace(es.head.after)
              && (es.MoreElements? ==> WellFormedElements(es.tail))
  {}

  lemma {:induction false} ReadElementsSound(s: bytes, p: nat, end: nat, depth: nat)
    requires p <= end <= |s| && depth > 0 && ReadElements(s, p, end, depth).Read?
    ensures var r := ReadElements(s, p, end, depth);
            && WellFormedElements(r.tree) && ElementsDepth(r.tree) < depth
            && At(s, p, end, ElementsText(r.tree)) && r.pos == p + |ElementsText(r.tree)|
    decreases end - p, 3
  {
    hide At, ReadElement, ReadElements, ElementsText, WellFormedElements, ElementsDepth, Text, WellFormed, Depth;
    hide AllWhitespace, ReadValue, ReadMember, ReadMembers;
    var es := ReadElements(s, p, end, depth).tree;
    ElementsStep(s, p, end, depth);
    ElementsAre(es);
    ReadElementSound(s, p, end, depth);
    var a := ReadElement(s, p, end, depth).pos;
    match es
    case LastElement(e) =>
      AtOne(s, a, end, RBRACKET);
      ElementAt(s, p, end, e, [RBRACKET]);
    case MoreElements(e, rest) =>
      ReadElementsSound(s, a + 1, end, depth);
      AtCons(s, a, end, COMMA, ElementsText(rest));
      ElementAt(s, p, end, e, [COMMA] + ElementsText(rest));
  }

  // ----- containers: what stands there is what is read -----

  /** No value starts with whitespace, a comma or a closing byte. */
  lemma FirstByte(v: Value)
    requires WellFormed(v)
    ensures |Text(v)| > 0
    ensures !IsWhitespace(Text(v)[0]) && Text(v)[0] != RBRACE && Text(v)[0] != RBRACKET && Text(v)[0] != COMMA
  {}

  lemma DelimitedStops(v: Value, s: bytes, q: nat, end: nat)
    requires q <= end <= |s| && WellFormed(v) && Delimited(s, q, end)
    ensures Stops(v, s, q, end)
  {}

  lemma ReadPrimitiveIs(s: bytes, p: nat, end: nat, depth: nat)
    requires p < end <= |s| && s[p] != LBRACE && s[p] != LBRACKET
    ensures ReadValue(s, p, end, depth) == ReadPrimitive(s, p, end)
  {
    hide ReadPrimitive;
  }

  lemma PrimitiveIsShallow(v: Value)
    ensures v.Literal? || v.Numeral? || v.Str? ==> Depth(v) == 0
  {}

  lemma {:induction false} ReadValueComplete(s: bytes, p: nat, end: nat, depth: nat, v: Value)
    requires WellFormed(v) && Depth(v) <= depth
    requires At(s, p, end, Text(v)) && Stops(v, s, p + |Text(v)|, end)
    ensures ReadValue(s, p, end, depth) == Read(v, p + |Text(v)|)
    decreases v, 1
  {
    hide At, ReadValue, ReadMembers, ReadElements, ReadPrimitive, Text, MembersText, ElementsText, WsEnd;
    hide WellFormed, WellFormedMembers, WellFormedElements, Depth, MembersDepth, ElementsDepth, AllWhitespace;
    ContainerIs(v);
    match v
    case EmptyObject(ws) =>
      EmptyAt(s, p, end, LBRACE, ws, RBRACE);
      WsRun(s, p + 1, end, ws);
      AtIsSlice(s, p + 1, end, ws);
      ObjectStep(s, p, end, depth);
    case EmptyArray(ws) =>
      EmptyAt(s, p, end, LBRACKET, ws, RBRACKET);
      WsRun(s, p + 1, end, ws);
      AtIsSlice(s, p + 1, end, ws);
      ArrayStep(s, p, end, depth);
    case Object(ms) =>
      AtCons(s, p, end, LBRACE, MembersText(ms));
      ReadMembersComplete(s, p + 1, end, depth, ms);
      ObjectStep(s, p, end, depth);
    case Array(es) =>
      AtCons(s, p, end, LBRACKET, ElementsText(es));
      ReadElementsComplete(s, p + 1, end, depth, es);
      ArrayStep(s, p, end, depth);
    case _ =>
      PrimitiveIsShallow(v);
      ReadPrimitiveComplete(s, p, end, v);
      ReadPrimitiveIs(s, p, end, depth);
  }

  /** ReadMember, stage by stage. */
  lemma ReadMemberStages(s: bytes, p: nat, end: nat, depth: nat, m: Member, e: nat, q: nat, a: nat)
    requires p <= end <= |s| && depth > 0 && a <= end
    requires WsEnd(s, p, end) == KeyAt(p, m) < end && s[KeyAt(p, m)] == QUOTE && s[p..KeyAt(p, m)] == m.before
    requires ReadItems(s, KeyAt(p, m) + 1, end) == Read(m.key, e)
    requires e <= end && WsEnd(s, e, end) == ColonAt(p, m) < end && s[ColonAt(p, m)] == COLON
    requires s[e..ColonAt(p, m)] == m.beforeColon
    requires WsEnd(s, ColonAt(p, m) + 1, end) == ValueAt(p, m) && s[ColonAt(p, m) + 1..ValueAt(p, m)] == m.beforeValue
    requires ReadValue(s, ValueAt(p, m), end, depth - 1) == Read(m.value, q)
    requires q <= end && WsEnd(s, q, end) == a && s[q..a] == m.after
    ensures ReadMember(s, p, end, depth) == Read(m, a)
  {
    hide ReadItems, ReadValue, ReadMembers, ReadElements, BodyText, Text, WsEnd;
  }

  /** The part of a member before its value. */
  lemma MemberKeyComplete(s: bytes, p: nat, end: nat, m: Member)
    requires WellFormedMember(m) && At(s, p, end, MemberText(m))
    ensures var k, e, c := KeyAt(p, m), KeyAt(p, m) + |StringText(m.key)|, ColonAt(p, m);
            && WsEnd(s, p, end) == k < end && s[k] == QUOTE && s[p..k] == m.before
            && ReadItems(s, k + 1, end) == Read(m.key, e)
            && WsEnd(s, e, end) == c < end && s[c] == COLON && s[e..c] == m.beforeColon
  {
    hide At, ReadItems, BodyText, Text, WellFormed, MemberText, AreItems, WsEnd;
    MemberAt(s, p, end, m);
    var k, e := KeyAt(p, m), KeyAt(p, m) + |StringText(m.key)|;
    AtCons(s, k, end, QUOTE, BodyText(m.key));
    WsRun(s, p, end, m.before);
    AtIsSlice(s, p, end, m.before);
    ReadItemsComplete(s, k + 1, end, m.key);
    WsRun(s, e, end, m.beforeColon);
    AtIsSlice(s, e, end, m.beforeColon);
  }

  /** The part of a member from its colon on, but for the value itself. */
  lemma MemberValueComplete(s: bytes, p: nat, end: nat, m: Member)
    requires WellFormedMember(m) && At(s, p, end, MemberText(m))
    requires var a := p + |MemberText(m)|; a < end && (s[a] == COMMA || s[a] == RBRACE)
    ensures var c, v := ColonAt(p, m), ValueAt(p, m);
            var q := v + |Text(m.value)|;
            && WsEnd(s, c + 1, end) == v && s[c + 1..v] == m.beforeValue
            && At(s, v, end, Text(m.value)) && Stops(m.value, s, q, end)
            && q <= p + |MemberText(m)| && WsEnd(s, q, end) == p + |MemberText(m)| && s[q..p + |MemberText(m)|] == m.after
  {
    hide At, Text, WellFormed, MemberText, Stops, AreItems, WsEnd;
    MemberAt(s, p, end, m);
    var c, v := ColonAt(p, m), ValueAt(p, m);
    var q := v + |Text(m.value)|;
    FirstByte(m.value);
    AtByte(s, v, end, Text(m.value), 0);
    WsRun(s, c + 1, end, m.beforeValue);
    AtIsSlice(s, c + 1, end, m.beforeValue);
    if m.after != [] { AtByte(s, q, end, m.after, 0); }
    DelimitedStops(m.value, s, q, end);
    WsRun(s, q, end, m.after);
    AtIsSlice(s, q, end, m.after);
  }

  lemma {:induction false} ReadMemberComplete(s: bytes, p: nat, end: nat, depth: nat, m: Member)
    requires WellFormedMember(m) && Depth(m.value) < depth && At(s, p, end, MemberText(m))
    requires var a := p + |MemberText(m)|; a < end && (s[a] == COMMA || s[a] == RBRACE)
    ensures ReadMember(s, p, end, depth) == Read(m, p + |MemberText(m)|)
    ensures var k := WsEnd(s, p, end); k < end && s[k] == QUOTE
    decreases m, 0
  {
    hide At, ReadMember, ReadItems, ReadValue, BodyText, Text, WellFormed, MemberText, Stops, Depth, AreItems, WsEnd;
    MemberKeyComplete(s, p, end, m);
    MemberValueComplete(s, p, end, m);
    var v := ValueAt(p, m);
    var q := v + |Text(m.value)|;
    ReadValueComplete(s, v, end, depth - 1, m.value);
    ReadMemberStages(s, p, end, depth, m, KeyAt(p, m) + |StringText(m.key)|, q, p + |MemberText(m)|);
  }

  lemma {:induction false} ReadMembersComplete(s: bytes, p: nat, end: nat, depth: nat, ms: Members)
    requires WellFormedMembers(ms) && MembersDepth(ms) < depth && At(s, p, end, MembersText(ms))
    ensures ReadMembers(s, p, end, depth) == Read(ms, p + |MembersText(ms)|)
    ensures var k := WsEnd(s, p, end); k < end && s[k] == QUOTE
    decreases ms, 1
  {
    hide At, ReadMember, MemberText, WellFormedMember, Depth;
    var a := p + |MemberText(ms.head)|;
    match ms
    case LastMember(m) =>
      AtConcat(s, p, end, MemberText(m), [RBRACE]);
      AtOne(s, a, end, RBRACE);
      ReadMemberComplete(s, p, end, depth, m);
    case MoreMembers(m, rest) =>
      AtConcat(s, p, end, MemberText(m), [COMMA] + MembersText(rest));
      AtCons(s, a, end, COMMA, MembersText(rest));
      ReadMemberComplete(s, p, end, depth, m);
      ReadMembersComplete(s, a + 1, end, depth, rest);
  }

  lemma {:induction false} ReadElementComplete(s: bytes, p: nat, end: nat, depth: nat, e: Element)
    requires AllWhitespace(e.before) && WellFormed(e.value) && AllWhitespace(e.after) && Depth(e.value) < depth
    requires At(s, p, end, e.before) && At(s, p + |e.before|, end, Text(e.value))
    requires At(s, p + |e.before| + |Text(e.value)|, end, e.after)
    requires var a := p + |e.before| + |Text(e.value)| + |e.after|; a < end && (s[a] == COMMA || s[a] == RBRACKET)
    ensures ReadElement(s, p, end, depth) == Read(e, p + |e.before| + |Text(e.value)| + |e.after|)
    ensures var w := WsEnd(s, p, end); w < end && s[w] != RBRACKET
    decreases e, 0
  {
    hide At, ReadValue, Text, WellFormed, Stops, Depth, WsEnd;
    var v := p + |e.before|;
    var q := v + |Text(e.value)|;
    FirstByte(e.value);
    AtByte(s, v, end, Text(e.value), 0);
    WsRun(s, p, end, e.before);
    if e.after != [] { AtByte(s, q, end, e.after, 0); }
    DelimitedStops(e.value, s, q, end);
    ReadValueComplete(s, v, end, depth - 1, e.value);
    WsRun(s, q, end, e.after);
    AtIsSlice(s, p, end, e.before);
    AtIsSlice(s, q, end, e.after);
  }

  lemma {:induction false} ReadElementsComplete(s: bytes, p: nat, end: nat, depth: nat, es: Elements)
    requires WellFormedElements(es) && ElementsDepth(es) < depth && At(s, p, end, ElementsText(es))
    ensures ReadElements(s, p, end, depth) == Read(es, p + |ElementsText(es)|)
    ensures var w := WsEnd(s, p, end); w < end && s[w] != RBRACKET
    decreases es, 1
  {
    hide At, ReadElement, Text, WellFormed, Depth;
    var a := p + |es.head.before| + |Text(es.head.value)| + |es.head.after|;
    match es
    case LastElement(e) =>
      ElementAt(s, p, end, e, [RBRACKET]);
      AtOne(s, a, end, RBRACKET);
      ReadElementComplete(s, p, end, depth, e);
    case MoreElements(e, rest) =>
      ElementAt(s, p, end, e, [COMMA] + ElementsText(rest));
      AtCons(s, a, end, COMMA, ElementsText(rest));
      ReadElementComplete(s, p, end, depth, e);
      ReadElementsComplete(s, a + 1, end, depth, rest);
  }

  // ----- what the scanner relies on -----

  /** The reader is the grammar, under the depth budget. */
  lemma ReadValueIff(s: bytes, p: nat, end: nat, depth: nat, v: Value, q: nat)
    requires p <= end <= |s|
    ensures ReadValue(s, p, end, depth) == Read(v, q) <==>
            && WellFormed(v) && Depth(v) <= depth
            && At(s, p, end, Text(v)) && q == p + |Text(v)| && Stops(v, s, q, end)
  {
    hide At, ReadValue, WellFormed, Depth, Text, Stops;
    if ReadValue(s, p, end, depth) == Read(v, q) {
      ReadValueSound(s, p, end, depth);
    }
    if WellFormed(v) && Depth(v) <= depth && At(s, p, end, Text(v)) && Stops(v, s, p + |Text(v)|, end) {
      ReadValueComplete(s, p, end, depth, v);
    }
  }

  ghost predicate SpellsValue(s: bytes, p: nat, q: nat, depth: nat, v: Value) {
    WellFormed(v) && Depth(v) <= depth && p <= q <= |s| && s[p..q] == Text(v)
  }

  /** Followed by a delimiter or the end, a value is recognised if and only if some tree spells it. */
  lemma DelimitedValueIff(s: bytes, p: nat, q: nat, end: nat, depth: nat)
    requires p <= q <= end <= |s| && Delimited(s, q, end)
    ensures (exists v :: ReadValue(s, p, end, depth) == Read(v, q)) <==> (exists v :: SpellsValue(s, p, q, depth, v))
  {
    hide ReadValue, WellFormed, Depth, Text, Stops;
    forall v ensures ReadValue(s, p, end, depth) == Read(v, q) <==> SpellsValue(s, p, q, depth, v) {
      ReadValueIff(s, p, end, depth, v, q);
      if WellFormed(v) { DelimitedStops(v, s, q, end); }
    }
  }

  /** A later walk with a tighter bound and a larger budget sees the same value. */
  lemma Locality(s: bytes, p: nat, end: nat, depth: nat, v: Value, q: nat, end': nat, depth': nat)
    requires p <= end <= |s| && ReadValue(s, p, end, depth) == Read(v, q)
    requires q <= end' <= end && depth <= depth'
    ensures ReadValue(s, p, end', depth') == Read(v, q)
  {
    ReadValueIff(s, p, end, depth, v, q);
    ReadValueIff(s, p, end', depth', v, q);
  }

  /** The slice of a value, taken alone, is a complete text of that value. */
  lemma SliceReads(s: bytes, p: nat, end: nat, depth: nat, v: Value, q: nat)
    requires p <= end <= |s| && ReadValue(s, p, end, depth) == Read(v, q)
    ensures p <= q <= end && s[p..q] == Text(v)
    ensures ReadValue(s[p..q], 0, q - p, depth) == Read(v, q - p)
  {
    hide ReadValue, WellFormed, Depth, Text;
    ReadValueIff(s, p, end, depth, v, q);
    AtIsSlice(s, p, end, Text(v));
    var slice := s[p..q];
    AtIsSlice(slice, 0, q - p, Text(v));
    assert slice[0..q - p] == slice;
    ReadValueIff(slice, 0, q - p, depth, v, q - p);
  }

  /** Two well-formed trees with the same text are the same tree. */
  lemma TextIsUnambiguous(v: Value, v': Value)
    requires WellFormed(v) && WellFormed(v') && Text(v) == Text(v')
    ensures v == v'
  {
    hide ReadValue, WellFormed, Depth;
    var s := Text(v);
    var d := Max(Depth(v), Depth(v'));
    ReadValueIff(s, 0, |s|, d, v, |s|);
    ReadValueIff(s, 0, |s|, d, v', |s|);
  }
}
