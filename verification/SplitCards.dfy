/**
 Merging the faces of a split card, picking a main type, and putting colours in WUBRG order:
 oracle/src/oracleimporter.cpp.
 */
module SplitCards {

  type Properties = map<string, string>

  function Get(p: Properties, key: string): string {
    if key in p then p[key] else ""
  }

  // ----- main types -----

  const MAIN_CARD_TYPE_PRIORITY: seq<string> :=
    ["Planeswalker", "Creature", "Land", "Sorcery", "Instant", "Artifact", "Enchantment"]

  /** QStringList::indexOf: the first place of s in the list, or -1. */
  function IndexOf(list: seq<string>, s: string): (i: int)
    ensures -1 <= i < |list|
    ensures i >= 0 ==> list[i] == s && forall j :: 0 <= j < i ==> list[j] != s
    ensures i < 0 ==> s !in list
  {
    if list == [] then -1
    else if list[0] == s then 0
    else
      var i := IndexOf(list[1..], s);
      if i < 0 then -1 else i + 1
  }

  /** The first of the known types, in priority order, that the card has. */
  function FirstKnown(order: seq<string>, types: seq<string>): seq<string> {
    if order == [] then [] else if order[0] in types then [order[0]] else FirstKnown(order[1..], types)
  }

  function GetMainCardType(types: seq<string>): string {
    if types == [] then ""
    else
      var known := FirstKnown(MAIN_CARD_TYPE_PRIORITY, types);
      if known != [] then known[0] else types[0]
  }

  /** A face's main type replaces the card's when it is known and ranks higher. */
  function BetterType(current: string, other: string): string {
    var c, o := IndexOf(MAIN_CARD_TYPE_PRIORITY, current), IndexOf(MAIN_CARD_TYPE_PRIORITY, other);
    if o >= 0 && (c < 0 || o < c) then other else current
  }

  // ----- merging properties -----

  const SPLIT_CARD_PROP_SEPARATOR := " // "
  const SPLIT_CARD_TEXT_SEPARATOR := "\n\n---\n\n"

  /** The value of one property after a further face has been merged in; "" is an absent value. */
  function MergeValue(key: string, original: string, other: string): string {
    if other == "" || original == other then original
    else if original == "" then other
    else if key == "colors" || key == "coloridentity" then original + other
    else if key == "maintype" then BetterType(original, other)
    else original + SPLIT_CARD_PROP_SEPARATOR + other
  }

  /** All faces in order, one property at a time: nothing here depends on an order of properties. */
  function MergedValue(key: string, faces: seq<Properties>): string
    decreases |faces|
  {
    if faces == [] then ""
    else MergeValue(key, MergedValue(key, faces[..|faces| - 1]), Get(faces[|faces| - 1], key))
  }

  function MergeMap(original: Properties, face: Properties): Properties {
    map key | key in original.Keys + face.Keys && (key in original || face[key] != "") ::
      MergeValue(key, Get(original, key), Get(face, key))
  }

  /** The properties of the merged card; the first face that has any is taken over as it is. */
  function MergedProperties(faces: seq<Properties>): Properties
    decreases |faces|
  {
    if faces == [] then map[]
    else
      var before := MergedProperties(faces[..|faces| - 1]);
      if before == map[] then faces[|faces| - 1] else MergeMap(before, faces[|faces| - 1])
  }

  /** One property of a face merged into the card. */
  method MergeProperty(card: Properties, prop: string, thisValue: string) returns (merged: Properties)
    ensures Get(merged, prop) == MergeValue(prop, Get(card, prop), thisValue)
    ensures prop in merged <==> prop in card || thisValue != ""
    ensures forall key :: key != prop ==> (key in merged <==> key in card) && Get(merged, key) == Get(card, key)
  {
    merged := card;
    var originalValue := Get(card, prop);
    if thisValue != "" && originalValue != thisValue {
      if originalValue == "" {
        merged := merged[prop := thisValue];
      } else if prop == "colors" || prop == "coloridentity" {
        merged := merged[prop := originalValue + thisValue];
      } else if prop == "maintype" {
        var current := IndexOf(MAIN_CARD_TYPE_PRIORITY, originalValue);
        var other := IndexOf(MAIN_CARD_TYPE_PRIORITY, thisValue);
        if other >= 0 && (current < 0 || other < current) {
          merged := merged[prop := thisValue];
        }
      } else {
        merged := merged[prop := originalValue + SPLIT_CARD_PROP_SEPARATOR + thisValue];
      }
    }
  }

  /** A property the loop has merged, or has yet to reach. */
  ghost predicate Progress(key: string, done: bool, original: Properties, face: Properties, merged: Properties) {
    if done then
      && (key in merged <==> key in original || Get(face, key) != "")
      && Get(merged, key) == MergeValue(key, Get(original, key), Get(face, key))
    else (key in merged <==> key in original) && Get(merged, key) == Get(original, key)
  }

  /** The loop over a face's properties, in whatever order its hash yields them. */
  method MergeFace(original: Properties, face: Properties) returns (merged: Properties)
    ensures merged == MergeMap(original, face)
  {
    merged := original;
    var pending := face.Keys;
    while pending != {}
      invariant pending <= face.Keys
      invariant forall key | key !in face || key in pending :: Progress(key, false, original, face, merged)
      invariant forall key | key in face && key !in pending :: Progress(key, true, original, face, merged)
      decreases pending
    {
      hide MergeValue;
      var prop :| prop in pending;
      assert Progress(prop, false, original, face, merged);
      ghost var before := merged;
      merged := MergeProperty(merged, prop, face[prop]);
      forall key | key !in face || key in pending - {prop} ensures Progress(key, false, original, face, merged) {
        assert Progress(key, false, original, face, before);
      }
      forall key | key in face && key !in pending - {prop} ensures Progress(key, true, original, face, merged) {
        assert key != prop ==> Progress(key, true, original, face, before);
      }
      pending := pending - {prop};
    }
    MergedMap(original, face, merged);
  }

  lemma MergedMap(original: Properties, face: Properties, merged: Properties)
    requires forall key | key !in face :: Progress(key, false, original, face, merged)
    requires forall key | key in face :: Progress(key, true, original, face, merged)
    ensures merged == MergeMap(original, face)
  {
    var expected := MergeMap(original, face);
    forall key ensures (key in merged <==> key in expected) && (key in merged ==> merged[key] == expected[key]) {
      assert Progress(key, key in face, original, face, merged);
      MergeNothing(key, Get(original, key));
    }
  }

  lemma MergeNothing(key: string, value: string)
    ensures MergeValue(key, value, "") == value
  {}

  method MergeProperties(faces: seq<Properties>) returns (merged: Properties)
    ensures merged == MergedProperties(faces)
  {
    merged := map[];
    for i := 0 to |faces|
      invariant merged == MergedProperties(faces[..i])
    {
      assert faces[..i + 1][..i] == faces[..i];
      if merged == map[] {
        merged := faces[i];
      } else {
        merged := MergeFace(merged, faces[i]);
      }
    }
    assert faces[..|faces|] == faces;
  }

  /** Every property of the merged card is the fold of that one property over the faces in order. */
  lemma {:induction false} MergedPropertyIsFold(faces: seq<Properties>, key: string)
    ensures Get(MergedProperties(faces), key) == MergedValue(key, faces)
    decreases |faces|
  {
    if faces != [] {
      MergedPropertyIsFold(faces[..|faces| - 1], key);
    }
  }

  // ----- the merged main type -----

  function NonEmpty(values: seq<string>): seq<string> {
    if values == [] then []
    else
      var rest := NonEmpty(values[..|values| - 1]);
      if values[|values| - 1] == "" then rest else rest + [values[|values| - 1]]
  }

  function Values(key: string, faces: seq<Properties>): seq<string> {
    seq(|faces|, i requires 0 <= i < |faces| => Get(faces[i], key))
  }

  lemma {:induction false} FirstKnownAppend(order: seq<string>, types: seq<string>, t: string)
    ensures FirstKnown(order, types + [t]) ==
            var known := FirstKnown(order, types);
            if known == [] then if t in order then [t] else []
            else if 0 <= IndexOf(order, t) < IndexOf(order, known[0]) then [t] else known
    ensures FirstKnown(order, types) != [] ==> FirstKnown(order, types)[0] in order
    ensures FirstKnown(order, types) == [] ==> forall x <- types :: x !in order
    decreases |order|
  {
    if order != [] {
      FirstKnownAppend(order[1..], types, t);
      FirstKnownMember(order[1..], types);
    }
  }

  lemma MainTypeAppend(types: seq<string>, t: string)
    requires types != []
    ensures GetMainCardType(types + [t]) == BetterType(GetMainCardType(types), t)
  {
    FirstKnownAppend(MAIN_CARD_TYPE_PRIORITY, types, t);
    assert types[0] in types;
  }

  /** The merged main type is the one getMainCardType picks from the faces' main types, in order. */
  lemma {:induction false} MergedMainType(faces: seq<Properties>)
    ensures MergedValue("maintype", faces) == GetMainCardType(NonEmpty(Values("maintype", faces)))
    decreases |faces|
  {
    if faces != [] {
      var n := |faces| - 1;
      MergedMainType(faces[..n]);
      assert Values("maintype", faces)[..n] == Values("maintype", faces[..n]);
      var before, t := NonEmpty(Values("maintype", faces[..n])), Get(faces[n], "maintype");
      NonEmptyHasNone(Values("maintype", faces[..n]));
      if t != "" {
        if before == [] {
          assert [] + [t] == [t];
          MainTypeOfOne(t);
        } else {
          MainTypeAppend(before, t);
          MainTypeIsMember(before);
        }
      }
    }
  }

  lemma MainTypeOfOne(t: string)
    ensures GetMainCardType([t]) == t
  {
    FirstKnownMember(MAIN_CARD_TYPE_PRIORITY, [t]);
  }

  lemma {:induction false} FirstKnownMember(order: seq<string>, types: seq<string>)
    ensures FirstKnown(order, types) != [] ==> FirstKnown(order, types)[0] in types
    decreases |order|
  {
    if order != [] { FirstKnownMember(order[1..], types); }
  }

  lemma MainTypeIsMember(types: seq<string>)
    requires types != []
    ensures GetMainCardType(types) in types
  {
    FirstKnownMember(MAIN_CARD_TYPE_PRIORITY, types);
  }

  /** The first known type of two lists is the better of the two lists' first known types. */
  lemma {:induction false} FirstKnownConcat(order: seq<string>, a: seq<string>, b: seq<string>)
    ensures var ka, kb := FirstKnown(order, a), FirstKnown(order, b);
            FirstKnown(order, a + b) ==
              if ka == [] then kb else if kb == [] then ka
              else if IndexOf(order, kb[0]) < IndexOf(order, ka[0]) then kb else ka
    ensures FirstKnown(order, a) != [] ==> FirstKnown(order, a)[0] in order
    ensures FirstKnown(order, b) != [] ==> FirstKnown(order, b)[0] in order
    ensures FirstKnown(order, a) == [] ==> forall t <- a :: t !in order
    ensures FirstKnown(order, b) == [] ==> forall t <- b :: t !in order
    decreases |order|
  {
    if order != [] {
      FirstKnownConcat(order[1..], a, b);
      FirstKnownMember(order[1..], a);
      FirstKnownMember(order[1..], b);
      assert order[0] in a + b <==> order[0] in a || order[0] in b;
    }
  }

  /** The main type of two type lines in a row is the better of their main types. */
  lemma MainTypeConcat(a: seq<string>, b: seq<string>)
    requires a != [] && b != []
    ensures GetMainCardType(a + b) == BetterType(GetMainCardType(a), GetMainCardType(b))
  {
    hide FirstKnown;
    FirstKnownConcat(MAIN_CARD_TYPE_PRIORITY, a, b);
    assert a[0] in a && b[0] in b && (a + b)[0] == a[0];
  }

  lemma {:induction false} NonEmptyHasNone(values: seq<string>)
    ensures "" !in NonEmpty(values)
    decreases |values|
  {
    if values != [] { NonEmptyHasNone(values[..|values| - 1]); }
  }
}
