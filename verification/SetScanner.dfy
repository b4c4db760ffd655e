/** scanSetRanges: the generic walk over an object's members and the three callbacks it is given. */
module SetScanner {
  import opened Bytes
  import opened JsonGrammar
  import opened JsonReader
  import opened JsonTheorems
  import opened ScanOffers
  import opened SetRanges
  import opened ScanProgress
  import opened RawJsonScanner

  /** Which callback a walk runs: on the document, on a "data" object, or on one set. */
  datatype Level = Top | Sets | Fields

  function Rank(level: Level): nat {
    match level
    case Top => 2
    case Sets => 1
    case Fields => 0
  }

  /** The nesting budget of each walk. */
  function Budget(level: Level): nat {
    MAX_NESTING_DEPTH - 2 + Rank(level)
  }

  /** The variables the callbacks capture. */
  datatype Captured = Captured(foundData: bool, ranges: seq<SetRange>, range: SetRange)

  /** What a level demands of its members. */
  ghost predicate Demands(level: Level, members: seq<Placed>, utf8: Utf8Decoder) {
    match level
    case Top => DataWellShaped(members, utf8)
    case Sets => AllObjects(members)
    case Fields => true
  }

  /** What walking the members does to the captured variables. */
  ghost predicate Walked(level: Level, a: Captured, b: Captured, members: seq<Placed>, utf8: Utf8Decoder) {
    match level
    case Top =>
      && b.ranges == a.ranges + AllRanges(members, utf8)
      && b.foundData == (a.foundData || HasData(members, utf8))
    case Sets =>
      && b.ranges == a.ranges + RangesOf(members, utf8)
      && b.foundData == a.foundData
    case Fields =>
      && b.ranges == a.ranges && b.foundData == a.foundData
      && b.range == WithFields(a.range, members, utf8)
  }

  /** What a level's callback offers on a member, past the skip of its value. */
  function CallbackOffers(level: Level, m: Placed, utf8: Utf8Decoder): seq<nat> {
    match level
    case Top => if IsData(m, utf8) then SetsOffers(MembersOf(m.member.value, m.at), utf8) else []
    case Sets => FieldsOffers(MembersOf(m.member.value, m.at), utf8)
    case Fields => CountOffers(m, utf8)
  }

  /** What a level's walk over the members offers. */
  function LevelOffers(level: Level, members: seq<Placed>, utf8: Utf8Decoder): seq<nat> {
    match level
    case Top => WalkOffers(members, utf8)
    case Sets => SetsOffers(members, utf8)
    case Fields => FieldsOffers(members, utf8)
  }

  lemma LevelOffersMore(level: Level, members: seq<Placed>, m: Placed, utf8: Utf8Decoder)
    ensures LevelOffers(level, [], utf8) == []
    ensures LevelOffers(level, members + [m], utf8)
            == LevelOffers(level, members, utf8) + (Offers(m.member.value, m.at) + CallbackOffers(level, m, utf8))
  {
    hide Offers, IsData, MembersOf, CountOffers;
    var all := members + [m];
    assert all[..|all| - 1] == members && all[|all| - 1] == m;
  }

  lemma WalkedNone(level: Level, a: Captured, utf8: Utf8Decoder)
    ensures Walked(level, a, a, [], utf8) && Demands(level, [], utf8)
  {}

  lemma HasDataAppend(members: seq<Placed>, m: Placed, utf8: Utf8Decoder)
    ensures HasData(members + [m], utf8) <==> HasData(members, utf8) || IsData(m, utf8)
    ensures HasData([m], utf8) <==> IsData(m, utf8)
  {
    hide IsData;
    var all := members + [m];
    assert all[|members|] == m && [m][0] == m;
    if HasData(members, utf8) {
      var i :| 0 <= i < |members| && IsData(members[i], utf8);
      assert IsData(all[i], utf8);
    }
    if IsData(m, utf8) { assert IsData([m][0], utf8) && IsData(all[|members|], utf8); }
  }

  lemma NoRangesYet(utf8: Utf8Decoder)
    ensures AllRanges([], utf8) == [] && RangesOf([], utf8) == [] && forall r: SetRange :: WithFields(r, [], utf8) == r
  {}

  lemma WalkedOneMore(level: Level, a: Captured, b: Captured, c: Captured,
                      members: seq<Placed>, m: Placed, utf8: Utf8Decoder)
    requires Walked(level, a, b, members, utf8) && Walked(level, b, c, [m], utf8)
    ensures Walked(level, a, c, members + [m], utf8)
  {
    hide HasData, DataRanges, RangeOf, WithField, WithFields, AllRanges, RangesOf;
    assert [] + [m] == [m];
    NoRangesYet(utf8);
    match level
    case Top =>
      AllRangesAppend(members, m, utf8);
      AllRangesAppend([], m, utf8);
      HasDataAppend(members, m, utf8);
    case Sets =>
      RangesOfAppend(members, m, utf8);
      RangesOfAppend([], m, utf8);
    case Fields =>
      WithFieldsAppend(a.range, members, m, utf8);
      WithFieldsAppend(b.range, [], m, utf8);
  }

  lemma DemandsSplit(level: Level, members: seq<Placed>, rest: seq<Placed>, utf8: Utf8Decoder)
    ensures Demands(level, members + rest, utf8) <==> Demands(level, members, utf8) && Demands(level, rest, utf8)
  {
    var all := members + rest;
    if Demands(level, all, utf8) {
      forall i | 0 <= i < |members| ensures members[i] == all[i] {}
      forall i | 0 <= i < |rest| ensures rest[i] == all[|members| + i] {}
      assert Demands(level, members, utf8);
    }
  }

  lemma HeadRejected(level: Level, done: seq<Placed>, m: Placed, ms: Members, p: nat, utf8: Utf8Decoder)
    requires !Demands(level, [m], utf8) && m == Placed(ms.head, ValueAt(p, ms.head))
    ensures !Demands(level, done + PlaceFrom(ms, p), utf8)
  {
    var rest := PlaceFrom(ms, p);
    assert rest == [m] + rest[1..];
    DemandsSplit(level, done, rest, utf8);
    DemandsSplit(level, [m], rest[1..], utf8);
  }

  /** The first byte tells what kind of value was read. */
  lemma ObjectFirst(s: bytes, p: nat, end: nat, depth: nat)
    requires p < end <= |s| && ReadValue(s, p, end, depth).Read?
    ensures IsObject(ReadValue(s, p, end, depth).tree) <==> s[p] == LBRACE
  {}

  lemma ArrayFirst(s: bytes, p: nat, end: nat, depth: nat)
    requires p < end <= |s| && ReadValue(s, p, end, depth).Read?
    ensures IsArray(ReadValue(s, p, end, depth).tree) <==> s[p] == LBRACKET
  {}

  lemma WsTwice(s: bytes, p: nat, end: nat)
    requires p <= end <= |s|
    ensures WsEnd(s, WsEnd(s, p, end), end) == WsEnd(s, p, end)
  {}

  /** The whole of an object's members from origin is those done followed by what is read from start. */
  ghost predicate Remaining(s: bytes, origin: nat, start: nat, end: nat, depth: nat, done: seq<Placed>)
    requires origin <= start <= end <= |s| && depth > 0
  {
    var whole, rest := ReadMembers(s, origin, end, depth), ReadMembers(s, start, end, depth);
    && Agree(whole, rest)
    && (whole.Read? ==> PlaceFrom(whole.tree, origin) == done + PlaceFrom(rest.tree, start))
  }

  lemma RemainingAll(s: bytes, origin: nat, end: nat, depth: nat)
    requires origin <= end <= |s| && depth > 0
    ensures Remaining(s, origin, origin, end, depth, [])
  {
    hide ReadMembers, PlaceFrom;
    var r := ReadMembers(s, origin, end, depth);
    if r.Read? { assert PlaceFrom(r.tree, origin) == [] + PlaceFrom(r.tree, origin); }
  }

  /** Reading on past a member is reading on from there. */
  lemma PastMember(s: bytes, start: nat, end: nat, depth: nat)
    requires start <= end <= |s| && depth > 0
    requires var r := ReadMember(s, start, end, depth); r.Read? && r.pos < end && s[r.pos] == COMMA
    ensures var r := ReadMember(s, start, end, depth);
            var rest, next := ReadMembers(s, start, end, depth), ReadMembers(s, r.pos + 1, end, depth);
            && Agree(rest, next)
            && (rest.Read? ==>
                  PlaceFrom(rest.tree, start) == [Placed(r.tree, ValueAt(start, r.tree))] + PlaceFrom(next.tree, r.pos + 1))
  {
    hide ReadMember, ReadMembers, ValueAt, MemberText, At, ReadValue, Text, WellFormedMember, Depth, BodyText, WsEnd;
    MembersStep(s, start, end, depth);
    ReadMemberSound(s, start, end, depth);
  }

  /** One member further on. */
  lemma RemainingNext(s: bytes, origin: nat, start: nat, end: nat, depth: nat, done: seq<Placed>)
    requires origin <= start <= end <= |s| && depth > 0 && Remaining(s, origin, start, end, depth, done)
    requires var r := ReadMember(s, start, end, depth); r.Read? && r.pos < end && s[r.pos] == COMMA
    ensures var r := ReadMember(s, start, end, depth);
            Remaining(s, origin, r.pos + 1, end, depth, done + [Placed(r.tree, ValueAt(start, r.tree))])
  {
    hide ReadMember, ReadMembers, ValueAt, MemberText, PlaceFrom;
    PastMember(s, start, end, depth);
    var r := ReadMember(s, start, end, depth);
    var m := Placed(r.tree, ValueAt(start, r.tree));
    var next := ReadMembers(s, r.pos + 1, end, depth);
    if next.Read? {
      assert done + ([m] + PlaceFrom(next.tree, r.pos + 1)) == (done + [m]) + PlaceFrom(next.tree, r.pos + 1);
    }
  }

  /** The last member, or none. */
  lemma RemainingEnds(s: bytes, origin: nat, start: nat, end: nat, depth: nat, done: seq<Placed>)
    requires origin <= start <= end <= |s| && depth > 0 && Remaining(s, origin, start, end, depth, done)
    requires var r := ReadMember(s, start, end, depth); r.NoRead? || r.pos == end || s[r.pos] != COMMA
    ensures var whole, r := ReadMembers(s, origin, end, depth), ReadMember(s, start, end, depth);
            if r.Read? && r.pos < end && s[r.pos] == RBRACE then
              && whole.Read? && whole.pos == r.pos + 1
              && PlaceFrom(whole.tree, origin) == done + [Placed(r.tree, ValueAt(start, r.tree))]
            else whole.NoRead?
  {
    hide ReadMember, ReadMembers, ValueAt, MemberText;
    MembersStep(s, start, end, depth);
  }

  /** A member the level rejects makes it reject the whole object. */
  lemma RemainingRejected(s: bytes, origin: nat, start: nat, end: nat, depth: nat, done: seq<Placed>,
                          level: Level, utf8: Utf8Decoder)
    requires origin <= start <= end <= |s| && depth > 0 && Remaining(s, origin, start, end, depth, done)
    requires ReadMember(s, start, end, depth).Read?
    requires var m := ReadMember(s, start, end, depth).tree; !Demands(level, [Placed(m, ValueAt(start, m))], utf8)
    ensures var whole := ReadMembers(s, origin, end, depth);
            whole.Read? ==> !Demands(level, PlaceFrom(whole.tree, origin), utf8)
  {
    hide ReadMember, ReadMembers, PlaceFrom, Demands;
    MembersStep(s, start, end, depth);
    var rest := ReadMembers(s, start, end, depth);
    if rest.Read? {
      HeadRejected(level, done, Placed(rest.tree.head, ValueAt(start, rest.tree.head)), rest.tree, start, utf8);
    }
  }

  /** The members read from origin, with their places. */
  ghost function PlacedMembers(s: bytes, origin: nat, end: nat, depth: nat): Read<seq<Placed>>
    requires origin <= end <= |s| && depth > 0
  {
    var r := ReadMembers(s, origin, end, depth);
    if r.Read? then Read(PlaceFrom(r.tree, origin), r.pos) else NoRead
  }

  /** The members of the value read at p, with their places. */
  ghost function MembersRead(s: bytes, p: nat, end: nat, depth: nat): Read<seq<Placed>>
    requires p <= end <= |s|
  {
    var r := ReadValue(s, p, end, depth);
    if r.Read? then Read(MembersOf(r.tree, p), r.pos) else NoRead
  }

  method DecodeStringMember(s: bytes, fs: nat, fe: nat, current: units, utf8: Utf8Decoder, ghost v: Value, ghost depth: nat)
    returns (ok: bool, out: units)
    requires fs <= fe <= |s| && ReadValue(s, fs, fe, depth) == Read(v, fe)
    ensures ok && out == if v.Str? then Decode(v.items, utf8) else current
  {
    out := current;
    if fs >= fe {
      return false, out;
    }
    if s[fs] != QUOTE {
      return true, out;
    }
    var p;
    ok, p, out := DecodeString(s, fs, fe, utf8);
  }

  class Walker {
    const json: bytes
    const utf8: Utf8Decoder
    const scan: Reporter
    var foundData: bool
    var malformedSetData: bool
    var ranges: seq<SetRange>
    var range: SetRange

    ghost predicate Valid()
      reads this, scan
    {
      scan.Valid() && scan.size == |json|
    }

    ghost function State(): Captured
      reads this
    {
      Captured(foundData, ranges, range)
    }

    constructor (json: bytes, utf8: Utf8Decoder, scan: Reporter)
      requires scan.Valid() && scan.size == |json|
      ensures Valid() && this.json == json && this.utf8 == utf8 && this.scan == scan
      ensures !foundData && !malformedSetData && ranges == []
    {
      this.json := json;
      this.utf8 := utf8;
      this.scan := scan;
      foundData, malformedSetData, ranges := false, false, [];
      range := SetRange(-1, 0, 0, [], [], [], []);
    }

    /** Key, colon and value of the member that starts at start; p is start or past some of its blanks. */
    method NextMember(p0: nat, end: nat, depth: nat, ghost start: nat)
      returns (ok: bool, key: units, valueStart: nat, valueEnd: nat)
      requires Valid() && start <= p0 <= end <= |json| && depth > 0
      requires WsEnd(json, start, end) == WsEnd(json, p0, end)
      modifies scan
      ensures Valid()
      ensures ok == ReadMember(json, start, end, depth).Read?
      ensures ok ==>
                var r := ReadMember(json, start, end, depth);
                && key == Decode(r.tree.key, utf8) && valueStart == ValueAt(start, r.tree) < valueEnd <= end
                && ReadValue(json, valueStart, end, depth - 1) == Read(r.tree.value, valueEnd)
                && r.pos == WsEnd(json, valueEnd, end)
                && scan.offered == old(scan.offered) + Offers(r.tree.value, valueStart)
    {
      hide ReadItems, ReadValue, ReadMember, WsEnd, Decode, ValueAt, Offers, BodyText, Text, Flush;
      MemberFound(json, start, end, depth);
      key, valueStart, valueEnd := [], 0, 0;
      var p := SkipWhitespace(json, p0, end);
      if p >= end || json[p] != QUOTE {
        ok := false;
        return;
      }
      ok, p, key := DecodeString(json, p, end, utf8);
      if !ok {
        return;
      }
      p := SkipWhitespace(json, p, end);
      if p >= end || json[p] != COLON {
        ok := false;
        return;
      }
      p := p + 1;
      valueStart := SkipWhitespace(json, p, end);
      WsTwice(json, p, end);
      ok, valueEnd := SkipValue(json, valueStart, end, depth - 1, scan);
    }

    /** The walk has gone through these members: it demands nothing more of them, and has taken in what they say. */
    ghost predicate Through(level: Level, done: seq<Placed>, before: Captured, was: seq<nat>)
      reads this, scan
    {
      && Walked(level, before, State(), done, utf8) && Demands(level, done, utf8)
      && scan.offered == was + LevelOffers(level, done, utf8)
    }

    lemma ThroughNone(level: Level)
      ensures Through(level, [], State(), scan.offered)
    {
      WalkedNone(level, State(), utf8);
    }

    /** One turn of the walk: the member at start is read and given to the callback. */
    method WalkMember(level: Level, p0: nat, end: nat, ghost start: nat, ghost done: seq<Placed>, ghost before: Captured,
                      ghost was: seq<nat>)
      returns (ok: bool, p: nat)
      requires Valid() && start <= p0 <= end <= |json| && WsEnd(json, start, end) == WsEnd(json, p0, end)
      requires Through(level, done, before, was)
      modifies this, scan
      ensures Valid()
      ensures var r := ReadMember(json, start, end, Budget(level));
              if r.NoRead? then !ok
              else
                var m := Placed(r.tree, ValueAt(start, r.tree));
                if ok then
                  && p == r.pos && malformedSetData == old(malformedSetData)
                  && Through(level, done + [m], before, was)
                else malformedSetData && !Demands(level, [m], utf8)
      decreases Rank(level), 1
    {
      hide ReadValue, ReadMember, ReadMembers, WsEnd, Walked, Demands, ValueAt, Offers, CallbackOffers, LevelOffers;
      var key, valueStart, valueEnd;
      p := p0;
      ok, key, valueStart, valueEnd := NextMember(p, end, Budget(level), start);
      if !ok {
        return;
      }
      ghost var value := ReadMember(json, start, end, Budget(level)).tree;
      ghost var m := Placed(value, valueStart);
      Locality(json, valueStart, end, Budget(level) - 1, value.value, valueEnd, valueEnd, Budget(level) - 1);
      ghost var middle := State();
      ok := MemberCallback(level, key, valueStart, valueEnd, m);
      if !ok {
        return;
      }
      WalkedOneMore(level, before, middle, State(), done, m, utf8);
      DemandsSplit(level, done, [m], utf8);
      LevelOffersMore(level, done, m, utf8);
      p := SkipWhitespace(json, valueEnd, end);
    }

    /** What a walk over the members r, placed from origin, has done when it ends with this verdict. */
    ghost predicate Verdict(level: Level, r: Read<seq<Placed>>, ok: bool, p: nat, before: Captured, was: seq<nat>)
      reads this, scan
    {
      if ok then
        r.Read? && p == r.pos && Through(level, r.tree, before, was)
      else r.NoRead? || (malformedSetData && !Demands(level, r.tree, utf8))
    }

    /** The loop over the members from origin; p0 is origin or past some blanks. */
    method WalkMembers(level: Level, p0: nat, end: nat, ghost origin: nat) returns (ok: bool, p: nat)
      requires Valid() && origin <= p0 <= end <= |json| && WsEnd(json, origin, end) == WsEnd(json, p0, end)
      modifies this, scan
      ensures Valid()
      ensures Verdict(level, PlacedMembers(json, origin, end, Budget(level)), ok, p, old(State()), old(scan.offered))
      ensures ok ==> p <= end && malformedSetData == old(malformedSetData)
      decreases Rank(level), 2
    {
      hide ReadMember, ReadMembers, WsEnd, Demands, ValueAt, PlaceFrom, Remaining, Through;
      var depth := Budget(level);
      p := p0;
      ghost var start, done := origin, [];
      ghost var before := State();
      ThroughNone(level);
      RemainingAll(json, origin, end, depth);
      while true
        invariant Valid() && origin <= start <= p <= end && WsEnd(json, start, end) == WsEnd(json, p, end)
        invariant Remaining(json, origin, start, end, depth, done)
        invariant Through(level, done, before, old(scan.offered))
        invariant malformedSetData == old(malformedSetData)
        decreases end - start
      {
        ghost var r := ReadMember(json, start, end, depth);
        ok, p := WalkMember(level, p, end, start, done, before, old(scan.offered));
        if !ok {
          if r.Read? { RemainingRejected(json, origin, start, end, depth, done, level, utf8); }
          else { RemainingEnds(json, origin, start, end, depth, done); }
          return;
        }
        if p < end && json[p] == COMMA {
          RemainingNext(json, origin, start, end, depth, done);
          done, start := done + [Placed(r.tree, ValueAt(start, r.tree))], p + 1;
          p := p + 1;
        } else {
          RemainingEnds(json, origin, start, end, depth, done);
          return p < end && json[p] == RBRACE, p + 1;
        }
      }
    }

    /** Runs the level's callback on every member of the object at p0, in order. */
    method ForEachObjectMember(level: Level, p0: nat, end: nat) returns (ok: bool, p: nat)
      requires Valid() && p0 < end <= |json| && json[p0] == LBRACE
      modifies this, scan
      ensures Valid()
      ensures Verdict(level, MembersRead(json, p0, end, Budget(level)), ok, p, old(State()), old(scan.offered))
      ensures ok ==> p <= end && malformedSetData == old(malformedSetData)
      decreases Rank(level), 3
    {
      hide ReadValue, ReadMembers, WsEnd, Demands, PlaceFrom, Through;
      ObjectStep(json, p0, end, Budget(level));
      if Budget(level) <= 0 {
        return false, p0;
      }
      p := SkipWhitespace(json, p0 + 1, end);
      if p < end && json[p] == RBRACE {
        ThroughNone(level);
        return true, p + 1;
      }
      WsTwice(json, p0 + 1, end);
      ok, p := WalkMembers(level, p, end, p0 + 1);
    }

    /** The callback of a level on one member; m is that member in the tree. */
    method MemberCallback(level: Level, key: units, valueStart: nat, valueEnd: nat, ghost m: Placed) returns (ok: bool)
      requires Valid() && valueStart < valueEnd <= |json|
      requires key == Decode(m.member.key, utf8) && m.at == valueStart
      requires ReadValue(json, valueStart, valueEnd, Budget(level) - 1) == Read(m.member.value, valueEnd)
      modifies this, scan
      ensures Valid()
      ensures ok <==> Demands(level, [m], utf8)
      ensures ok ==> Walked(level, old(State()), State(), [m], utf8) && malformedSetData == old(malformedSetData)
      ensures ok ==> scan.offered == old(scan.offered) + CallbackOffers(level, m, utf8)
      ensures !ok ==> malformedSetData
      decreases Rank(level), 0
    {
      match level
      case Top => ok := TopLevelCallback(key, valueStart, valueEnd, m);
      case Sets => ok := SetCallback(key, valueStart, valueEnd, m);
      case Fields => ok := FieldCallback(key, valueStart, valueEnd, m);
    }

    method TopLevelCallback(key: units, valueStart: nat, valueEnd: nat, ghost m: Placed) returns (ok: bool)
      requires Valid() && valueStart < valueEnd <= |json|
      requires key == Decode(m.member.key, utf8) && m.at == valueStart
      requires ReadValue(json, valueStart, valueEnd, Budget(Top) - 1) == Read(m.member.value, valueEnd)
      modifies this, scan
      ensures Valid()
      ensures ok <==> Demands(Top, [m], utf8)
      ensures ok ==> Walked(Top, old(State()), State(), [m], utf8) && malformedSetData == old(malformedSetData)
      ensures ok ==> scan.offered == old(scan.offered) + CallbackOffers(Top, m, utf8)
      ensures !ok ==> malformedSetData
      decreases 1, 4
    {
      AllRangesAppend([], m, utf8);
      assert [] + [m] == [m];
      assert [m][0] == m;
      if key != DATA_KEY {
        return true;
      }
      assert IsData([m][0], utf8);
      foundData := true;
      ObjectFirst(json, valueStart, valueEnd, Budget(Sets));
      if valueStart >= valueEnd || json[valueStart] != LBRACE {
        malformedSetData := true;
        return false;
      }
      var p;
      ok, p := ForEachObjectMember(Sets, valueStart, valueEnd);
      if !ok {
        malformedSetData := true;
      }
    }

    method SetCallback(key: units, valueStart: nat, valueEnd: nat, ghost m: Placed) returns (ok: bool)
      requires Valid() && valueStart < valueEnd <= |json|
      requires key == Decode(m.member.key, utf8) && m.at == valueStart
      requires ReadValue(json, valueStart, valueEnd, Budget(Sets) - 1) == Read(m.member.value, valueEnd)
      modifies this, scan
      ensures Valid()
      ensures ok <==> Demands(Sets, [m], utf8)
      ensures ok ==> Walked(Sets, old(State()), State(), [m], utf8) && malformedSetData == old(malformedSetData)
      ensures ok ==> scan.offered == old(scan.offered) + CallbackOffers(Sets, m, utf8)
      ensures !ok ==> malformedSetData
      decreases 0, 4
    {
      hide ReadValue, ReadMembers, PlaceFrom, WithFields, Decode;
      RangesOfAppend([], m, utf8);
      assert [] + [m] == [m];
      assert [m][0] == m;
      ReadValueSound(json, valueStart, valueEnd, Budget(Fields));
      ObjectFirst(json, valueStart, valueEnd, Budget(Fields));
      if valueStart >= valueEnd || json[valueStart] != LBRACE {
        malformedSetData := true;
        return false;
      }
      range := SetRange(valueStart, valueEnd - valueStart, 0, key, [], [], []);
      var p;
      ok, p := ForEachObjectMember(Fields, valueStart, valueEnd);
      malformedSetData := malformedSetData || !ok;
      ranges := if ok then ranges + [range] else ranges;
    }

    method FieldCallback(key: units, fs: nat, fe: nat, ghost m: Placed) returns (ok: bool)
      requires Valid() && fs < fe <= |json|
      requires key == Decode(m.member.key, utf8) && m.at == fs
      requires ReadValue(json, fs, fe, Budget(Fields) - 1) == Read(m.member.value, fe)
      modifies this, scan
      ensures Valid()
      ensures ok && Walked(Fields, old(State()), State(), [m], utf8) && malformedSetData == old(malformedSetData)
      ensures scan.offered == old(scan.offered) + CallbackOffers(Fields, m, utf8)
      decreases 0, 0
    {
      WithFieldsAppend(range, [], m, utf8);
      assert [] + [m] == [m];
      ghost var v, depth := m.member.value, Budget(Fields) - 1;
      ok := true;
      if key == CODE_KEY {
        var text;
        ok, text := DecodeStringMember(json, fs, fe, range.code, utf8, v, depth);
        range := range.(code := text);
      } else if key == NAME_KEY {
        var text;
        ok, text := DecodeStringMember(json, fs, fe, range.name, utf8, v, depth);
        range := range.(name := text);
      } else if key == TYPE_KEY {
        var text;
        ok, text := DecodeStringMember(json, fs, fe, range.setType, utf8, v, depth);
        range := range.(setType := text);
      } else if key == RELEASE_DATE_KEY {
        var text;
        ok, text := DecodeStringMember(json, fs, fe, range.releaseDate, utf8, v, depth);
        range := range.(releaseDate := text);
      } else if key == CARDS_KEY {
        if fs >= fe {
          return false;
        }
        ArrayFirst(json, fs, fe, depth);
        if json[fs] != LBRACKET {
          return true;
        }
        Locality(json, fs, fe, depth, v, fe, fe, Budget(Fields));
        var count := CountArrayElements(json, fs, fe, Budget(Fields), scan);
        if count < 0 {
          return false;
        }
        range := range.(cardCount := count);
      }
    }
  }

  datatype ScanError =
    | NoError
    | EmptyDocument
    | TopLevelNotAnObject
    | MalformedSetData
    | MalformedJson
    | TrailingContent
    | MissingData
    | NoSets

  /** The verdict on a document that is well formed. */
  ghost function Diagnosis(d: Document, utf8: Utf8Decoder): ScanError {
    if !DataWellShaped(TopMembers(d), utf8) then MalformedSetData
    else if !HasData(TopMembers(d), utf8) then MissingData
    else if AllRanges(TopMembers(d), utf8) == [] then NoSets
    else NoError
  }

  /** Where the scanner finds the parts of a document. */
  lemma DocumentFound(json: bytes, d: Document)
    requires IsDocument(json, d)
    ensures var w, n := WsEnd(json, 0, |json|), |json|;
            var r := MembersRead(json, w, n, Budget(Top));
            w < n && json[w] == LBRACE && r.Read? && r.pos <= n && r.tree == TopMembers(d) && WsEnd(json, r.pos, n) == n
  {
    hide ReadValue, WsEnd, WellFormed, Depth, Text, MembersOf;
    DocumentIsRead(json, d);
  }

  lemma FoundDocument(json: bytes, q: nat)
    requires var w, n := WsEnd(json, 0, |json|), |json|;
             var r := MembersRead(json, w, n, Budget(Top));
             w < n && json[w] == LBRACE && r.Read? && r.pos == q <= n && WsEnd(json, q, n) == n
    ensures exists d :: IsDocument(json, d)
  {
    hide ReadValue, WsEnd, WellFormed, Depth, Text, MembersOf;
    var w := WsEnd(json, 0, |json|);
    var r := ReadValue(json, w, |json|, Budget(Top));
    ObjectFirst(json, w, |json|, Budget(Top));
    ReadIsDocument(json, w, r.tree, q);
  }

  /** A diagnosis that fits every document there is decides acceptance. */
  lemma DiagnosisDecides(json: bytes, utf8: Utf8Decoder, error: ScanError)
    requires forall d | IsDocument(json, d) :: error == Diagnosis(d, utf8)
    requires error.NoError? ==> exists d :: IsDocument(json, d)
    ensures error.NoError? <==> Accepts(json, utf8)
  {
    hide IsDocument, DataWellShaped, HasData, AllRanges, TopMembers;
    if error.NoError? {
      var d :| IsDocument(json, d);
      assert IsImportable(d, utf8);
    }
  }

  /** What is reported of a walk that has offered these offsets: all that the throttle lets through. */
  ghost predicate ReportsOf(reported: seq<nat>, offers: seq<nat>, size: nat, hasCallback: bool) {
    reported == if hasCallback then Filtered(offers, size) else []
  }

  /** A complete walk of a document, with the end of the bytes for a successful one. */
  ghost function DocumentOffers(json: bytes, d: Document, utf8: Utf8Decoder): seq<nat> {
    WalkOffers(TopMembers(d), utf8) + if Diagnosis(d, utf8).NoError? then [|json|] else []
  }

  /** The set ranges of a document; reported lists the offsets the progress callback was given. */
  method ScanSetRanges(json: bytes, utf8: Utf8Decoder, hasCallback: bool)
    returns (ranges: seq<SetRange>, error: ScanError, reported: seq<nat>)
    ensures error.NoError? <==> Accepts(json, utf8)
    ensures forall d | IsDocument(json, d) :: error == Diagnosis(d, utf8)
    ensures error.NoError? ==> forall d | IsDocument(json, d) :: ranges == AllRanges(TopMembers(d), utf8)
    ensures !error.NoError? ==> ranges == []
    ensures forall d | IsDocument(json, d) && DataWellShaped(TopMembers(d), utf8) ::
              ReportsOf(reported, DocumentOffers(json, d, utf8), |json|, hasCallback)
    ensures Spaced(reported, |json|, StepOf(|json|), FineStep(StepOf(|json|)))
    ensures error.NoError? && hasCallback ==> reported != [] && reported[|reported| - 1] == |json|
    ensures !hasCallback ==> reported == []
  {
    hide ReadValue, WsEnd, TopMembers, IsDocument, DataWellShaped, MembersRead, AllRanges, HasData, Accepts, Spaced;
    hide WalkOffers, Filtered;
    forall d | IsDocument(json, d)
      ensures var w, n := WsEnd(json, 0, |json|), |json|;
              var r := MembersRead(json, w, n, Budget(Top));
              w < n && json[w] == LBRACE && r.Read? && r.pos <= n && r.tree == TopMembers(d) && WsEnd(json, r.pos, n) == n
    {
      DocumentFound(json, d);
    }
    ranges, error, reported := [], NoError, [];
    if |json| == 0 {
      error := EmptyDocument;
      assert Spaced([], 0, 1, 1) by { SpacedNone(0, 1, 1); }
    } else {
      var scan := new Reporter(|json|, hasCallback);
      var p := SkipWhitespace(json, 0, |json|);
      if p >= |json| || json[p] != LBRACE {
        error := TopLevelNotAnObject;
      } else {
        var scanner := new Walker(json, utf8, scan);
        var ok, q := scanner.ForEachObjectMember(Top, p, |json|);
        ghost var walked := scan.offered;
        assert ok ==> walked == WalkOffers(MembersRead(json, p, |json|, Budget(Top)).tree, utf8);
        assert walked + [] == walked;
        if !ok {
          error := if scanner.malformedSetData then MalformedSetData else MalformedJson;
        } else {
          var rest := SkipWhitespace(json, q, |json|);
          if rest != |json| {
            error := TrailingContent;
          } else {
            FoundDocument(json, q);
            if !scanner.foundData {
              error := MissingData;
            } else if scanner.ranges == [] {
              error := NoSets;
            } else {
              scan.Report(|json|);
              ranges := scanner.ranges;
            }
          }
        }
      }
      reported := scan.reported;
      SpacedReports(scan);
    }
    DiagnosisDecides(json, utf8, error);
  }

  lemma SpacedReports(scan: Reporter)
    requires scan.Valid()
    ensures Spaced(scan.reported, scan.size, StepOf(scan.size), FineStep(StepOf(scan.size)))
  {
    FilteredIsSpaced(scan.offered, scan.size);
    SpacedNone(scan.size, StepOf(scan.size), FineStep(StepOf(scan.size)));
  }
}
