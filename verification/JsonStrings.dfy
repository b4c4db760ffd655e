/** Decoding a JSON string undoes every way of spelling it: RFC 8259 section 7. */
module JsonStrings {
  import opened Bytes
  import opened JsonGrammar
  import opened JsonReader
  import opened JsonTheorems

  /** A Unicode scalar value. */
  type scalar = x: int | 0 <= x < 0x11_0000 && !(0xD800 <= x <= 0xDFFF)

  function Utf8Of(c: scalar): bytes {
    if c < 0x80 then [c]
    else if c < 0x800 then [0xC0 + c / 64, 0x80 + c % 64]
    else if c < 0x1_0000 then [0xE0 + c / 4096, 0x80 + c / 64 % 64, 0x80 + c % 64]
    else [0xF0 + c / 262144, 0x80 + c / 4096 % 64, 0x80 + c / 64 % 64, 0x80 + c % 64]
  }

  function Utf16Of(c: scalar): units {
    if c < 0x1_0000 then [c] else [0xD800 + (c - 0x1_0000) / 0x400, 0xDC00 + (c - 0x1_0000) % 0x400]
  }

  function Utf8(text: seq<scalar>): bytes {
    if text == [] then [] else Utf8(text[..|text| - 1]) + Utf8Of(text[|text| - 1])
  }

  function Utf16(text: seq<scalar>): units {
    if text == [] then [] else Utf16(text[..|text| - 1]) + Utf16Of(text[|text| - 1])
  }

  /** The byte-order mark, U+FEFF. */
  const MARK: scalar := 0xFEFF

  function WithoutMark(text: seq<scalar>): seq<scalar> {
    if text != [] && text[0] == MARK then text[1..] else text
  }

  /** What is assumed of QString::fromUtf8: it decodes well-formed UTF-8, but for one byte-order mark in front. */
  ghost predicate DecodesUtf8(utf8: Utf8Decoder) {
    forall text: seq<scalar> :: utf8(Utf8(text)) == Utf16(WithoutMark(text))
  }

  /** One character of a string as a writer may spell it. */
  datatype Spelling =
    | Plain(c: scalar)
    | Abbreviated(letter: byte)
    | ByUnit(digits: bytes)
    | ByPair(high: bytes, low: bytes)

  ghost predicate Spellable(sp: Spelling) {
    match sp
    case Plain(c) => c != QUOTE && c != BACKSLASH
    case Abbreviated(c) => IsItem(Short(c))
    case ByUnit(h) => IsItem(Hex(h))
    case ByPair(h, l) => IsItem(Pair(h, l))
  }

  /** The character a spelling stands for. */
  ghost function Spelled(sp: Spelling): scalar
    requires Spellable(sp)
  {
    match sp
    case Plain(c) => c
    case Abbreviated(c) => ShortMeaning(c)
    case ByUnit(h) => Hex4Value(h)
    case ByPair(h, l) => 0x1_0000 + (Hex4Value(h) - 0xD800) * 0x400 + (Hex4Value(l) - 0xDC00)
  }

  ghost function SpelledText(sps: seq<Spelling>): seq<scalar>
    requires forall sp <- sps :: Spellable(sp)
  {
    seq(|sps|, i requires 0 <= i < |sps| => Spelled(sps[i]))
  }

  function Raws(b: bytes): seq<Item> {
    if b == [] then [] else [Raw(b[0])] + Raws(b[1..])
  }

  function SpellingItems(sp: Spelling): seq<Item> {
    match sp
    case Plain(c) => Raws(Utf8Of(c))
    case Abbreviated(c) => [Short(c)]
    case ByUnit(h) => [Hex(h)]
    case ByPair(h, l) => [Pair(h, l)]
  }

  function AllItems(sps: seq<Spelling>): seq<Item> {
    if sps == [] then [] else SpellingItems(sps[0]) + AllItems(sps[1..])
  }

  lemma {:induction false} RawsAreItems(b: bytes)
    requires forall i :: 0 <= i < |b| ==> b[i] != QUOTE && b[i] != BACKSLASH
    ensures AreItems(Raws(b))
    decreases |b|
  {
    if b != [] { RawsAreItems(b[1..]); }
  }

  lemma {:induction false} AllItemsAreItems(sps: seq<Spelling>)
    requires forall sp <- sps :: Spellable(sp)
    ensures AreItems(AllItems(sps))
    decreases |sps|
  {
    if sps != [] {
      AllItemsAreItems(sps[1..]);
      assert Spellable(sps[0]);
      if sps[0].Plain? { RawsAreItems(Utf8Of(sps[0].c)); }
    }
  }

  /** A run of raw bytes is passed to the decoder in one piece. */
  lemma {:induction false} RunGrows(b: bytes, rest: seq<Item>, run: bytes, utf8: Utf8Decoder)
    ensures DecodeFrom(Raws(b) + rest, run, utf8) == DecodeFrom(rest, run + b, utf8)
    decreases |b|
  {
    if b == [] {
      assert Raws(b) + rest == rest;
      assert run + b == run;
    } else {
      var items := Raws(b) + rest;
      assert items[0] == Raw(b[0]) && items[1..] == Raws(b[1..]) + rest;
      RunGrows(b[1..], rest, run + [b[0]], utf8);
      assert run + [b[0]] + b[1..] == run + b;
    }
  }

  lemma Utf16Concat(a: seq<scalar>, b: seq<scalar>)
    ensures Utf16(a + b) == Utf16(a) + Utf16(b)
    decreases |b|
  {
    if b == [] {
      assert a + b == a;
    } else {
      var n := |b| - 1;
      assert (a + b)[..|a + b| - 1] == a + b[..n];
      Utf16Concat(a, b[..n]);
    }
  }

  /** The units of an escape are the UTF-16 form of the character it stands for. */
  lemma EscapeIsUtf16(sp: Spelling)
    requires Spellable(sp) && !sp.Plain?
    ensures EscapeMeaning(SpellingItems(sp)[0]) == Utf16Of(Spelled(sp))
  {
    if sp.ByPair? {
      var h, l := Hex4Value(sp.high) - 0xD800, Hex4Value(sp.low) - 0xDC00;
      assert (h * 0x400 + l) / 0x400 == h && (h * 0x400 + l) % 0x400 == l;
    }
  }

  /** What a spelled text reads back as: each run of raw characters is decoded by itself, and loses a mark in front. */
  ghost function ReadBack(sps: seq<Spelling>, pending: seq<scalar>): seq<scalar>
    requires forall sp <- sps :: Spellable(sp)
    decreases |sps|
  {
    if sps == [] then WithoutMark(pending)
    else if sps[0].Plain? then ReadBack(sps[1..], pending + [sps[0].c])
    else WithoutMark(pending) + [Spelled(sps[0])] + ReadBack(sps[1..], [])
  }

  /** No run of raw characters starts with a byte-order mark. */
  predicate NoRunStartsWithMark(sps: seq<Spelling>, inRun: bool)
    decreases |sps|
  {
    sps == []
    || (if sps[0].Plain? then (inRun || sps[0].c != MARK) && NoRunStartsWithMark(sps[1..], true)
        else NoRunStartsWithMark(sps[1..], false))
  }

  lemma {:induction false} DecodeSpelled(sps: seq<Spelling>, pending: seq<scalar>, utf8: Utf8Decoder)
    requires DecodesUtf8(utf8)
    requires forall sp <- sps :: Spellable(sp)
    ensures DecodeFrom(AllItems(sps), Utf8(pending), utf8) == Utf16(ReadBack(sps, pending))
    decreases |sps|
  {
    FlushPending(pending, utf8);
    if sps != [] {
      var sp, rest := sps[0], sps[1..];
      assert Spellable(sp);
      var c := Spelled(sp);
      if sp.Plain? {
        RunGrows(Utf8Of(c), AllItems(rest), Utf8(pending), utf8);
        assert (pending + [c])[..|pending|] == pending;
        DecodeSpelled(rest, pending + [c], utf8);
      } else {
        var before := WithoutMark(pending);
        EscapeIsUtf16(sp);
        assert AllItems(sps)[1..] == AllItems(rest);
        DecodeSpelled(rest, [], utf8);
        assert (before + [c])[..|before|] == before;
        Utf16Concat(before + [c], ReadBack(rest, []));
      }
    }
  }

  lemma FlushPending(pending: seq<scalar>, utf8: Utf8Decoder)
    requires DecodesUtf8(utf8)
    ensures Flush(Utf8(pending), utf8) == Utf16(WithoutMark(pending))
  {
    assert pending != [] ==> |Utf8Of(pending[|pending| - 1])| > 0;
  }

  /** A mark that is lost makes the text shorter, and nothing else does. */
  lemma {:induction false} LostMarks(sps: seq<Spelling>, pending: seq<scalar>)
    requires forall sp <- sps :: Spellable(sp)
    ensures if NoRunStartsWithMark(sps, pending != []) && (pending == [] || pending[0] != MARK)
            then ReadBack(sps, pending) == pending + SpelledText(sps)
            else |Utf16(ReadBack(sps, pending))| < |Utf16(pending + SpelledText(sps))|
    ensures |Utf16(ReadBack(sps, pending))| <= |Utf16(pending + SpelledText(sps))|
    decreases |sps|
  {
    hide Utf16, Spelled, Spellable;
    WithoutMarkIsShorter(pending);
    if sps == [] {
      assert pending + SpelledText(sps) == pending;
    } else {
      var sp, rest := sps[0], sps[1..];
      SpelledCons(sps, pending);
      if sp.Plain? {
        LostMarks(rest, pending + [sp.c]);
      } else {
        LostMarks(rest, []);
        assert [] + SpelledText(rest) == SpelledText(rest);
        EscapeKeepsLength(WithoutMark(pending), Spelled(sp), ReadBack(rest, []));
        EscapeKeepsLength(pending, Spelled(sp), SpelledText(rest));
      }
    }
  }

  lemma SpelledCons(sps: seq<Spelling>, pending: seq<scalar>)
    requires sps != [] && forall sp <- sps :: Spellable(sp)
    ensures (forall sp <- sps[1..] :: Spellable(sp)) && Spellable(sps[0]) && (sps[0].Plain? ==> Spelled(sps[0]) == sps[0].c)
    ensures pending + SpelledText(sps) == pending + [Spelled(sps[0])] + SpelledText(sps[1..])
  {
    assert sps[0] in sps;
    assert SpelledText(sps) == [Spelled(sps[0])] + SpelledText(sps[1..]);
  }

  lemma EscapeKeepsLength(before: seq<scalar>, c: scalar, rest: seq<scalar>)
    ensures |Utf16(before + [c] + rest)| == |Utf16(before)| + |Utf16([c])| + |Utf16(rest)|
  {
    hide Utf16;
    Utf16Concat(before + [c], rest);
    Utf16Concat(before, [c]);
  }

  lemma WithoutMarkIsShorter(text: seq<scalar>)
    ensures if text != [] && text[0] == MARK then |Utf16(WithoutMark(text))| < |Utf16(text)| else WithoutMark(text) == text
  {
    if text != [] && text[0] == MARK {
      assert text == [MARK] + text[1..] && [MARK][..0] == [];
      Utf16Concat([MARK], text[1..]);
      assert |Utf16([MARK])| == 1;
    }
  }

  /**
   However a writer spells the characters of a text, each raw, abbreviated or as \u escapes of either
   digit case, the string is accepted, whatever follows its closing quote, and reads back as that text in
   UTF-16 if and only if no run of raw characters in it starts with a byte-order mark.
   */
  lemma EverySpellingIsUndone(sps: seq<Spelling>, s: bytes, p: nat, end: nat, utf8: Utf8Decoder)
    requires DecodesUtf8(utf8)
    requires forall sp <- sps :: Spellable(sp)
    requires At(s, p, end, BodyText(AllItems(sps)))
    ensures var r := ReadItems(s, p, end);
            && r.Read? && r.pos == p + |BodyText(AllItems(sps))|
            && (Decode(r.tree, utf8) == Utf16(SpelledText(sps)) <==> NoRunStartsWithMark(sps, false))
  {
    hide ReadBack, Utf16, SpelledText, ReadItems, AllItems, BodyText, At, DecodeFrom;
    AllItemsAreItems(sps);
    ReadItemsComplete(s, p, end, AllItems(sps));
    DecodeSpelled(sps, [], utf8);
    LostMarks(sps, []);
    assert [] + SpelledText(sps) == SpelledText(sps);
  }
}
