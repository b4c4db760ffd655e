/**
 JSON pointers as scripts/authoring-batch.py writes and reads them (sections 3 and 4 of RFC 6901): what one
 replace escapes, the other undoes, and printing an index is undone by reading it.
 */
module JsonPointers {
  import opened Strings

  datatype Json =
    | Object(members: seq<Entry>)
    | Array(elements: seq<Json>)
    | Text(text: string)
    | Int(number: int)
    | Other(spelling: string)

  datatype Entry = Entry(key: string, value: Json)

  /** A dictionary has no key twice. */
  predicate DistinctKeys(members: seq<Entry>) {
    forall i, j :: 0 <= i < j < |members| ==> members[i].key != members[j].key
  }

  predicate IsJson(v: Json)
    decreases v
  {
    match v
    case Object(members) => DistinctKeys(members) && forall i :: 0 <= i < |members| ==> IsJson(members[i].value)
    case Array(elements) => forall i :: 0 <= i < |elements| ==> IsJson(elements[i])
    case _ => true
  }

  // ----- escaping -----

  /** str.replace of one character by a string. */
  function ReplaceChar(s: string, c: char, to: string): string {
    if s == "" then "" else (if s[0] == c then to else [s[0]]) + ReplaceChar(s[1..], c, to)
  }

  /** str.replace of a pair of characters by one, from left to right. */
  function ReplacePair(s: string, a: char, b: char, to: char): string {
    if s == "" then ""
    else if |s| >= 2 && s[0] == a && s[1] == b then [to] + ReplacePair(s[2..], a, b, to)
    else [s[0]] + ReplacePair(s[1..], a, b, to)
  }

  function Escape(key: string): string { ReplaceChar(ReplaceChar(key, '~', "~0"), '/', "~1") }

  function Unescape(part: string): string { ReplacePair(ReplacePair(part, '~', '1', '/'), '~', '0', '~') }

  function EscapeChar(c: char): string {
    if c == '~' then "~0" else if c == '/' then "~1" else [c]
  }

  /** The two passes escape character by character. */
  lemma EscapeStep(key: string)
    requires key != ""
    ensures Escape(key) == EscapeChar(key[0]) + Escape(key[1..])
  {
    var rest := ReplaceChar(key[1..], '~', "~0");
    if key[0] == '~' {
      var s := "~0" + rest;
      assert s[1..] == "0" + rest && ("0" + rest)[1..] == rest;
      assert ReplaceChar(s, '/', "~1") == "~" + ReplaceChar("0" + rest, '/', "~1");
      assert ReplaceChar("0" + rest, '/', "~1") == "0" + ReplaceChar(rest, '/', "~1");
    } else {
      assert ([key[0]] + rest)[1..] == rest;
    }
  }

  /** The first pass of unescaping brings the slashes back, and leaves "~0" for the second. */
  lemma {:induction false} FirstPass(key: string)
    ensures ReplacePair(Escape(key), '~', '1', '/') == ReplaceChar(key, '~', "~0")
    decreases |key|
  {
    if key != "" {
      EscapeStep(key);
      FirstPass(key[1..]);
      var s, rest := Escape(key), Escape(key[1..]);
      if key[0] == '~' {
        assert s == "~0" + rest && s[1..] == "0" + rest && ("0" + rest)[1..] == rest;
        assert ReplacePair(s, '~', '1', '/') == "~" + ReplacePair("0" + rest, '~', '1', '/');
        assert ReplacePair("0" + rest, '~', '1', '/') == "0" + ReplacePair(rest, '~', '1', '/');
      } else if key[0] == '/' {
        assert s[2..] == rest;
      } else {
        assert s[1..] == rest;
      }
    }
  }

  lemma {:induction false} SecondPass(key: string)
    ensures ReplacePair(ReplaceChar(key, '~', "~0"), '~', '0', '~') == key
    decreases |key|
  {
    if key != "" {
      SecondPass(key[1..]);
      var s, rest := ReplaceChar(key, '~', "~0"), ReplaceChar(key[1..], '~', "~0");
      if key[0] == '~' {
        assert s[2..] == rest;
      } else {
        assert s[1..] == rest;
      }
      assert key == [key[0]] + key[1..];
    }
  }

  /** Unescaping undoes escaping, whatever the key. */
  lemma UnescapeEscape(key: string)
    ensures Unescape(Escape(key)) == key
  {
    FirstPass(key);
    SecondPass(key);
  }

  lemma {:induction false} EscapeHasNoSlash(key: string)
    ensures '/' !in Escape(key)
    decreases |key|
  {
    if key != "" {
      EscapeStep(key);
      EscapeHasNoSlash(key[1..]);
    }
  }

  lemma {:induction false} NothingToUnescape(s: string, b: char, to: char)
    requires '~' !in s
    ensures ReplacePair(s, '~', b, to) == s
    decreases |s|
  {
    if s != "" {
      NothingToUnescape(s[1..], b, to);
      assert s == [s[0]] + s[1..];
    }
  }

  // ----- array indices -----

  function Digit(d: int): char
    requires 0 <= d < 10
  {
    "0123456789"[d]
  }

  predicate IsDecimalDigit(c: char) { '0' <= c <= '9' }

  /** How Python prints an index. */
  function Decimal(n: nat): string {
    if n < 10 then [Digit(n)] else Decimal(n / 10) + [Digit(n % 10)]
  }

  predicate AllDecimalDigits(s: string) { forall i :: 0 <= i < |s| ==> IsDecimalDigit(s[i]) }

  /** The regular expression 0|[1-9][0-9]*. */
  predicate IsCanonical(s: string) {
    s == "0" || (s != "" && AllDecimalDigits(s) && s[0] != '0')
  }

  /** int() of digits. */
  function Number(s: string): nat
    requires AllDecimalDigits(s)
  {
    if s == "" then 0 else 10 * Number(s[..|s| - 1]) + (s[|s| - 1] - '0') as int
  }

  /** A printed index is canonical and reads back as itself. */
  lemma {:induction false} DecimalReadsBack(n: nat)
    ensures AllDecimalDigits(Decimal(n)) && IsCanonical(Decimal(n)) && Number(Decimal(n)) == n
    ensures n > 0 ==> Decimal(n)[0] != '0'
    decreases n
  {
    var s := Decimal(n);
    if n >= 10 {
      DecimalReadsBack(n / 10);
      assert s[..|s| - 1] == Decimal(n / 10);
    } else {
      assert s[..0] == "";
    }
  }

  lemma {:induction false} CanonicalIsPositive(s: string)
    requires AllDecimalDigits(s) && s != "" && s[0] != '0'
    ensures Number(s) > 0
    decreases |s|
  {
    if |s| > 1 { CanonicalIsPositive(s[..|s| - 1]); } else { assert s[..0] == ""; }
  }

  /** Only the printed index is a canonical spelling of it. */
  lemma {:induction false} OneSpelling(s: string)
    requires IsCanonical(s)
    ensures AllDecimalDigits(s) && Decimal(Number(s)) == s
    decreases |s|
  {
    var init, d := s[..|s| - 1], (s[|s| - 1] - '0') as int;
    assert s == init + [s[|s| - 1]];
    if |s| > 1 {
      CanonicalIsPositive(init);
      OneSpelling(init);
      assert Number(s) / 10 == Number(init) && Number(s) % 10 == d;
    } else {
      assert Number(init) == 0;
    }
  }

  // ----- resolving -----

  /** The place of a key, or the number of members. */
  function KeyIndex(members: seq<Entry>, key: string): (i: nat)
    ensures i <= |members| && (i < |members| ==> members[i].key == key)
    ensures forall k :: 0 <= k < i ==> members[k].key != key
  {
    if members == [] then 0 else if members[0].key == key then 0 else 1 + KeyIndex(members[1..], key)
  }

  /** One part of a pointer, from the value it applies to. */
  function Step(v: Json, part: string): Option<Json> {
    match v
    case Array(elements) =>
      if IsCanonical(part) && Number(part) < |elements| then Some(elements[Number(part)]) else None
    case Object(members) =>
      var i := KeyIndex(members, part);
      if i < |members| then Some(members[i].value) else None
    case _ => None
  }

  function Follow(v: Json, parts: seq<string>): Option<Json> {
    if parts == [] then Some(v)
    else match Follow(v, parts[..|parts| - 1])
      case None => None
      case Some(u) => Step(u, Unescape(parts[|parts| - 1]))
  }

  predicate IsPointer(pointer: string) { pointer != "" && pointer[0] == '/' }

  /** The node a pointer stands for. */
  function Resolve(typed: Json, pointer: string): Option<Json> {
    Follow(typed, Split(pointer)[1..])
  }

  /** The resolver of validate_maps: from part to part, down the tree. */
  method ResolvePointer(typed: Json, pointer: string) returns (node: Option<Json>)
    ensures node == if IsPointer(pointer) then Resolve(typed, pointer) else None
  {
    if pointer == "" || pointer[0] != '/' {
      return None;
    }
    var parts := Split(pointer)[1..];
    var value := typed;
    for i := 0 to |parts|
      invariant Follow(typed, parts[..i]) == Some(value)
    {
      var next := parts[..i + 1];
      assert next[..i] == parts[..i] && next[i] == parts[i];
      var found := Step(value, Unescape(parts[i]));
      if found.None? {
        LostForGood(typed, parts, i + 1);
        return None;
      }
      value := found.value;
    }
    assert parts[..|parts|] == parts;
    return Some(value);
  }

  lemma {:induction false} LostForGood(v: Json, parts: seq<string>, k: nat)
    requires k <= |parts| && Follow(v, parts[..k]) == None
    ensures Follow(v, parts) == None
    decreases |parts|
  {
    if k < |parts| {
      var init := parts[..|parts| - 1];
      assert init[..k] == parts[..k];
      LostForGood(v, init, k);
    } else {
      assert parts[..k] == parts;
    }
  }

  /** A pointer made longer by one part resolves by one more step. */
  lemma ResolveLonger(typed: Json, pointer: string, part: string)
    requires (pointer == "" || IsPointer(pointer)) && '/' !in part
    ensures IsPointer(pointer + "/" + part)
    ensures Resolve(typed, pointer + "/" + part)
            == match Resolve(typed, pointer) case None => None case Some(v) => Step(v, Unescape(part))
  {
    SplitLast(pointer, part);
    var parts := Split(pointer)[1..];
    var longer := Split(pointer + "/" + part)[1..];
    assert longer == parts + [part] && longer[..|longer| - 1] == parts;
  }
}
