/** What the returned ranges are worth to the importer. */
module ScanTheorems {
  import opened Bytes
  import opened JsonGrammar
  import opened JsonReader
  import opened JsonTheorems
  import opened SetRanges

  // ----- the fields of a set: the last member that says something -----

  /** A string-valued member with this decoded key. */
  predicate SaysText(m: Placed, key: units, utf8: Utf8Decoder) {
    Decode(m.member.key, utf8) == key && m.member.value.Str?
  }

  predicate SaysCards(m: Placed, utf8: Utf8Decoder) {
    Decode(m.member.key, utf8) == CARDS_KEY && IsArray(m.member.value)
  }

  /** The text of the last member that says one under this key, or the default. */
  ghost predicate IsLastText(text: units, default: units, fields: seq<Placed>, key: units, utf8: Utf8Decoder) {
    || (text == default && forall i :: 0 <= i < |fields| ==> !SaysText(fields[i], key, utf8))
    || (exists i :: 0 <= i < |fields| && SaysText(fields[i], key, utf8)
                    && text == Decode(fields[i].member.value.items, utf8)
                    && forall j :: i < j < |fields| ==> !SaysText(fields[j], key, utf8))
  }

  ghost predicate IsLastCount(count: nat, fields: seq<Placed>, utf8: Utf8Decoder) {
    || (count == 0 && forall i :: 0 <= i < |fields| ==> !SaysCards(fields[i], utf8))
    || (exists i :: 0 <= i < |fields| && SaysCards(fields[i], utf8)
                    && count == Count(fields[i].member.value)
                    && forall j :: i < j < |fields| ==> !SaysCards(fields[j], utf8))
  }

  lemma LastTextAppend(before: units, after: units, default: units, fields: seq<Placed>, m: Placed,
                       key: units, utf8: Utf8Decoder)
    requires IsLastText(before, default, fields, key, utf8)
    requires after == if SaysText(m, key, utf8) then Decode(m.member.value.items, utf8) else before
    ensures IsLastText(after, default, fields + [m], key, utf8)
  {
    hide Decode;
    var all := fields + [m];
    assert all[|fields|] == m;
    if !SaysText(m, key, utf8) && !(forall i :: 0 <= i < |fields| ==> !SaysText(fields[i], key, utf8)) {
      var i :| 0 <= i < |fields| && SaysText(fields[i], key, utf8)
               && before == Decode(fields[i].member.value.items, utf8)
               && forall j :: i < j < |fields| ==> !SaysText(fields[j], key, utf8);
      assert SaysText(all[i], key, utf8);
    }
  }

  lemma LastCountAppend(before: nat, after: nat, fields: seq<Placed>, m: Placed, utf8: Utf8Decoder)
    requires IsLastCount(before, fields, utf8)
    requires after == if SaysCards(m, utf8) then Count(m.member.value) else before
    ensures IsLastCount(after, fields + [m], utf8)
  {
    hide SaysCards, Count;
    var all := fields + [m];
    assert all[|fields|] == m;
    if !SaysCards(m, utf8) && !(forall i :: 0 <= i < |fields| ==> !SaysCards(fields[i], utf8)) {
      var i :| 0 <= i < |fields| && SaysCards(fields[i], utf8) && before == Count(fields[i].member.value)
               && forall j :: i < j < |fields| ==> !SaysCards(fields[j], utf8);
      assert SaysCards(all[i], utf8);
    }
  }

  /** Each field of a range is what the last member says under its key; every other kind of value is ignored. */
  lemma {:induction false} FieldsAreLast(r: SetRange, fields: seq<Placed>, utf8: Utf8Decoder)
    requires r.cardCount == 0
    ensures var f := WithFields(r, fields, utf8);
            && f.start == r.start && f.length == r.length
            && IsLastText(f.code, r.code, fields, CODE_KEY, utf8)
            && IsLastText(f.name, r.name, fields, NAME_KEY, utf8)
            && IsLastText(f.setType, r.setType, fields, TYPE_KEY, utf8)
            && IsLastText(f.releaseDate, r.releaseDate, fields, RELEASE_DATE_KEY, utf8)
            && IsLastCount(f.cardCount, fields, utf8)
    decreases |fields|
  {
    hide IsLastText, IsLastCount;
    if fields == [] {
      LastOfNone(r, utf8);
    } else {
      var n := |fields| - 1;
      var m := fields[n];
      var before := WithFields(r, fields[..n], utf8);
      assert fields == fields[..n] + [m];
      FieldsAreLast(r, fields[..n], utf8);
      WithFieldsAppend(r, fields[..n], m, utf8);
      var after := WithField(before, m.member, utf8);
      LastTextAppend(before.code, after.code, r.code, fields[..n], m, CODE_KEY, utf8);
      LastTextAppend(before.name, after.name, r.name, fields[..n], m, NAME_KEY, utf8);
      LastTextAppend(before.setType, after.setType, r.setType, fields[..n], m, TYPE_KEY, utf8);
      LastTextAppend(before.releaseDate, after.releaseDate, r.releaseDate, fields[..n], m, RELEASE_DATE_KEY, utf8);
      LastCountAppend(before.cardCount, after.cardCount, fields[..n], m, utf8);
    }
  }

  lemma LastOfNone(r: SetRange, utf8: Utf8Decoder)
    requires r.cardCount == 0
    ensures IsLastText(r.code, r.code, [], CODE_KEY, utf8) && IsLastText(r.name, r.name, [], NAME_KEY, utf8)
    ensures IsLastText(r.setType, r.setType, [], TYPE_KEY, utf8)
    ensures IsLastText(r.releaseDate, r.releaseDate, [], RELEASE_DATE_KEY, utf8)
    ensures IsLastCount(r.cardCount, [], utf8)
  {}

  /** A set's code falls back to its own key, its other texts to nothing. */
  lemma RangeIsLast(m: Placed, utf8: Utf8Decoder)
    ensures var f, fields := RangeOf(m, utf8), MembersOf(m.member.value, m.at);
            && f.start == m.at && f.length == |Text(m.member.value)|
            && IsLastText(f.code, Decode(m.member.key, utf8), fields, CODE_KEY, utf8)
            && IsLastText(f.name, [], fields, NAME_KEY, utf8)
            && IsLastText(f.setType, [], fields, TYPE_KEY, utf8)
            && IsLastText(f.releaseDate, [], fields, RELEASE_DATE_KEY, utf8)
            && IsLastCount(f.cardCount, fields, utf8)
  {
    FieldsAreLast(FreshRange(m, utf8), MembersOf(m.member.value, m.at), utf8);
  }

  /** An array of n elements takes at least 2n bytes, so a card count fits an int below 4 GiB. */
  lemma {:induction false} CountIsSmall(v: Value)
    requires WellFormed(v)
    ensures 2 * Count(v) <= |Text(v)|
  {
    if v.Array? { ElementsAreLong(v.elements); }
  }

  lemma {:induction false} ElementsAreLong(es: Elements)
    requires WellFormedElements(es)
    ensures 2 * ElementCount(es) <= |ElementsText(es)|
    decreases es
  {
    FirstByte(es.head.value);
    if es.MoreElements? { ElementsAreLong(es.tail); }
  }

  // ----- the slices -----

  /** A value's bytes stand at its place, inside [lo, hi). */
  ghost predicate StandsIn(m: Placed, s: bytes, lo: nat, hi: nat) {
    && lo <= m.at && m.at + |Text(m.member.value)| <= hi <= |s|
    && WellFormed(m.member.value) && At(s, m.at, hi, Text(m.member.value))
    && Depth(m.member.value) < MAX_NESTING_DEPTH
  }

  predicate Before(m: Placed, m': Placed) {
    m.at + |Text(m.member.value)| <= m'.at
  }

  /** Members stand one after the other. */
  ghost predicate StandInOrder(members: seq<Placed>, s: bytes, lo: nat, hi: nat) {
    && (forall i :: 0 <= i < |members| ==> StandsIn(members[i], s, lo, hi))
    && (forall i, j :: 0 <= i < j < |members| ==> Before(members[i], members[j]))
  }

  lemma AtBound(s: bytes, p: nat, end: nat, end': nat, w: bytes)
    requires At(s, p, end, w) && p + |w| <= end' <= |s|
    ensures At(s, p, end', w)
  {}

  lemma FirstInOrder(m: Placed, rest: seq<Placed>, s: bytes, lo: nat, q: nat, hi: nat)
    requires StandsIn(m, s, lo, hi) && lo <= q && m.at + |Text(m.member.value)| <= q && StandInOrder(rest, s, q, hi)
    ensures StandInOrder([m] + rest, s, lo, hi)
  {
    hide At, WellFormed, Depth, Text;
    var all := [m] + rest;
    forall i | 0 <= i < |all| ensures StandsIn(all[i], s, lo, hi) {
      if i > 0 { assert all[i] == rest[i - 1]; }
    }
    forall i, j | 0 <= i < j < |all| ensures Before(all[i], all[j]) {
      assert all[j] == rest[j - 1] && StandsIn(rest[j - 1], s, q, hi);
      if i > 0 { assert all[i] == rest[i - 1]; }
    }
  }

  lemma HeadStands(ms: Members, s: bytes, p: nat, end: nat)
    requires WellFormedMembers(ms) && MembersDepth(ms) < MAX_NESTING_DEPTH && At(s, p, end, MembersText(ms))
    ensures var m, hi := Placed(ms.head, ValueAt(p, ms.head)), p + |MembersText(ms)|;
            && StandsIn(m, s, p, hi) && hi <= end <= |s|
            && m.at + |Text(m.member.value)| <= p + |MemberText(ms.head)| < hi
    ensures ms.MoreMembers? ==>
              var q := p + |MemberText(ms.head)| + 1;
              && At(s, q, end, MembersText(ms.tail)) && p + |MembersText(ms)| == q + |MembersText(ms.tail)|
              && WellFormedMembers(ms.tail) && MembersDepth(ms.tail) < MAX_NESTING_DEPTH
  {
    hide At, WellFormed, Depth, Text, MemberText, ReadValue, BodyText, AllWhitespace;
    AtIsSlice(s, p, end, MembersText(ms));
    if ms.LastMember? {
      AtConcat(s, p, end, MemberText(ms.head), [RBRACE]);
    } else {
      AtConcat(s, p, end, MemberText(ms.head), [COMMA] + MembersText(ms.tail));
      AtCons(s, p + |MemberText(ms.head)|, end, COMMA, MembersText(ms.tail));
    }
    MemberAt(s, p, end, ms.head);
    AtBound(s, ValueAt(p, ms.head), end, p + |MembersText(ms)|, Text(ms.head.value));
  }

  lemma {:induction false} PlacesInOrder(ms: Members, s: bytes, p: nat, end: nat)
    requires WellFormedMembers(ms) && MembersDepth(ms) < MAX_NESTING_DEPTH && At(s, p, end, MembersText(ms))
    ensures StandInOrder(PlaceFrom(ms, p), s, p, p + |MembersText(ms)|)
    decreases ms
  {
    hide At, MembersText, MemberText, Text, WellFormedMembers, MembersDepth, StandsIn;
    var m, hi := Placed(ms.head, ValueAt(p, ms.head)), p + |MembersText(ms)|;
    HeadStands(ms, s, p, end);
    if ms.MoreMembers? {
      var q := p + |MemberText(ms.head)| + 1;
      PlacesInOrder(ms.tail, s, q, end);
      FirstInOrder(m, PlaceFrom(ms.tail, q), s, p, q, hi);
    }
  }

  /** The members of a value that stands at a place. */
  lemma MembersInOrder(v: Value, s: bytes, at: nat, end: nat)
    requires WellFormed(v) && Depth(v) <= MAX_NESTING_DEPTH && At(s, at, end, Text(v))
    ensures StandInOrder(MembersOf(v, at), s, at, at + |Text(v)|)
  {
    hide At, PlaceFrom, WellFormedMembers, MembersDepth, MembersText;
    if v.Object? {
      AtCons(s, at, end, LBRACE, MembersText(v.members));
      PlacesInOrder(v.members, s, at + 1, end);
      var placed := PlaceFrom(v.members, at + 1);
      forall i | 0 <= i < |placed| ensures StandsIn(placed[i], s, at, at + |Text(v)|) {
        assert StandsIn(placed[i], s, at + 1, at + 1 + |MembersText(v.members)|);
      }
    }
  }

  /** A range whose slice is, on its own, a document the scanner reads: one object and nothing else. */
  ghost predicate GoodSlice(r: SetRange, s: bytes, lo: nat, hi: nat) {
    && lo <= r.start && r.length > 0 && r.start + r.length <= hi <= |s|
    && exists v :: IsDocument(s[r.start..r.start + r.length], Document([], v, []))
  }

  /** Good slices, each after the ones before it. */
  ghost predicate GoodSlices(rs: seq<SetRange>, s: bytes, lo: nat, hi: nat) {
    && (forall i :: 0 <= i < |rs| ==> GoodSlice(rs[i], s, lo, hi))
    && (forall i, j :: 0 <= i < j < |rs| ==> rs[i].start + rs[i].length <= rs[j].start)
  }

  lemma SetSlice(m: Placed, s: bytes, lo: nat, hi: nat, utf8: Utf8Decoder)
    requires StandsIn(m, s, lo, hi) && IsObject(m.member.value)
    ensures GoodSlice(RangeOf(m, utf8), s, lo, hi)
    ensures RangeOf(m, utf8).start == m.at && RangeOf(m, utf8).length == |Text(m.member.value)|
  {
    hide IsLastText, IsLastCount, RangeOf, WellFormed, Depth, Text;
    RangeIsLast(m, utf8);
    ObjectText(m.member.value);
    var r := RangeOf(m, utf8);
    var v := m.member.value;
    assert s[r.start..r.start + r.length] == [] + (Text(v) + []);
    assert IsDocument(s[r.start..r.start + r.length], Document([], v, []));
  }

  lemma {:induction false} SetSlices(sets: seq<Placed>, s: bytes, lo: nat, hi: nat, utf8: Utf8Decoder)
    requires StandInOrder(sets, s, lo, hi) && AllObjects(sets)
    ensures |RangesOf(sets, utf8)| == |sets|
    ensures forall i :: 0 <= i < |sets| ==> RangesOf(sets, utf8)[i] == RangeOf(sets[i], utf8)
    ensures GoodSlices(RangesOf(sets, utf8), s, lo, hi)
    decreases |sets|
  {
    hide GoodSlice, StandsIn, RangeOf;
    if sets != [] {
      var rest := sets[1..];
      SetSlices(rest, s, lo, hi, utf8);
      var rs := RangesOf(sets, utf8);
      forall i | 0 <= i < |sets| ensures rs[i] == RangeOf(sets[i], utf8) {
        if i > 0 { assert rs[i] == RangesOf(rest, utf8)[i - 1] && sets[i] == rest[i - 1]; }
      }
      forall i | 0 <= i < |rs|
        ensures GoodSlice(rs[i], s, lo, hi) && rs[i].start == sets[i].at && rs[i].length == |Text(sets[i].member.value)|
      {
        SetSlice(sets[i], s, lo, hi, utf8);
      }
      forall i, j | 0 <= i < j < |rs| ensures rs[i].start + rs[i].length <= rs[j].start {
        assert Before(sets[i], sets[j]);
      }
    }
  }

  /** The ranges of one top-level member lie inside its value. */
  lemma MemberSlices(m: Placed, s: bytes, lo: nat, hi: nat, utf8: Utf8Decoder)
    requires StandsIn(m, s, lo, hi) && (IsData(m, utf8) ==> IsObjectOfObjects(m.member.value, m.at))
    ensures GoodSlices(DataRanges(m, utf8), s, m.at, m.at + |Text(m.member.value)|)
  {
    hide GoodSlice, RangeOf, WellFormed, Depth, Text;
    if IsData(m, utf8) {
      MembersInOrder(m.member.value, s, m.at, hi);
      SetSlices(MembersOf(m.member.value, m.at), s, m.at, m.at + |Text(m.member.value)|, utf8);
    }
  }

  lemma Widen(rs: seq<SetRange>, s: bytes, lo: nat, hi: nat, lo': nat, hi': nat)
    requires GoodSlices(rs, s, lo, hi) && lo' <= lo && hi <= hi' <= |s|
    ensures GoodSlices(rs, s, lo', hi')
  {
    hide IsDocument;
    forall i | 0 <= i < |rs| ensures GoodSlice(rs[i], s, lo', hi') {
      assert GoodSlice(rs[i], s, lo, hi);
    }
  }

  lemma Join(a: seq<SetRange>, b: seq<SetRange>, s: bytes, lo: nat, mid: nat, hi: nat)
    requires GoodSlices(a, s, lo, mid) && GoodSlices(b, s, mid, hi) && lo <= mid <= hi <= |s|
    ensures GoodSlices(a + b, s, lo, hi)
  {
    hide IsDocument;
    Widen(a, s, lo, mid, lo, hi);
    Widen(b, s, mid, hi, lo, hi);
    var all := a + b;
    forall i | 0 <= i < |all| ensures GoodSlice(all[i], s, lo, hi) {
      if i < |a| { assert all[i] == a[i]; } else { assert all[i] == b[i - |a|]; }
    }
    forall i, j | 0 <= i < j < |all| ensures all[i].start + all[i].length <= all[j].start {
      if j < |a| {
        assert all[i] == a[i] && all[j] == a[j];
      } else if i >= |a| {
        assert all[i] == b[i - |a|] && all[j] == b[j - |a|];
      } else {
        assert GoodSlice(a[i], s, lo, mid) && GoodSlice(b[j - |a|], s, mid, hi);
      }
    }
  }

  lemma {:induction false} TopSlices(members: seq<Placed>, s: bytes, lo: nat, hi: nat, utf8: Utf8Decoder)
    requires lo <= hi <= |s| && StandInOrder(members, s, lo, hi) && DataWellShaped(members, utf8)
    ensures GoodSlices(AllRanges(members, utf8), s, lo, hi)
    decreases |members|
  {
    hide GoodSlices, StandsIn, DataRanges, IsData, IsObjectOfObjects;
    if members == [] {
      assert GoodSlices([], s, lo, hi) by { NoSlices(s, lo, hi); }
    } else {
      var m, rest := members[0], members[1..];
      assert StandsIn(m, s, lo, hi);
      MemberSlices(m, s, lo, hi, utf8);
      var mid := m.at + |Text(m.member.value)|;
      assert mid <= hi && lo <= m.at by { Bounds(m, s, lo, hi); }
      forall i | 0 <= i < |rest| ensures StandsIn(rest[i], s, mid, hi) {
        assert StandsIn(members[i + 1], s, lo, hi) && Before(members[0], members[i + 1]);
        Later(rest[i], s, lo, mid, hi);
      }
      TopSlices(rest, s, mid, hi, utf8);
      Widen(DataRanges(m, utf8), s, m.at, mid, lo, mid);
      Join(DataRanges(m, utf8), AllRanges(rest, utf8), s, lo, mid, hi);
    }
  }

  lemma NoSlices(s: bytes, lo: nat, hi: nat)
    ensures GoodSlices([], s, lo, hi)
  {}

  lemma Bounds(m: Placed, s: bytes, lo: nat, hi: nat)
    requires StandsIn(m, s, lo, hi)
    ensures lo <= m.at && m.at + |Text(m.member.value)| <= hi <= |s|
  {}

  lemma Later(m: Placed, s: bytes, lo: nat, mid: nat, hi: nat)
    requires StandsIn(m, s, lo, hi) && mid <= m.at
    ensures StandsIn(m, s, mid, hi)
  {}

  /**
   The ranges of a document that the scanner accepts are in document order, disjoint and in bounds,
   and each slice on its own is one complete object that the scanner reads within the nesting cap.
   */
  lemma SlicesAreGood(json: bytes, d: Document, utf8: Utf8Decoder)
    requires IsDocument(json, d) && DataWellShaped(TopMembers(d), utf8)
    ensures GoodSlices(AllRanges(TopMembers(d), utf8), json, 0, |json|)
  {
    hide GoodSlices, WellFormed, Depth, DataWellShaped, MembersOf, StandInOrder;
    var at := |d.before|;
    AtIsSlice(json, 0, |json|, json);
    AtConcat(json, 0, |json|, d.before, Text(d.root) + d.after);
    AtConcat(json, at, |json|, Text(d.root), d.after);
    MembersInOrder(d.root, json, at, |json|);
    TopSlices(TopMembers(d), json, at, at + |Text(d.root)|, utf8);
    Widen(AllRanges(TopMembers(d), utf8), json, at, at + |Text(d.root)|, 0, |json|);
  }
}
