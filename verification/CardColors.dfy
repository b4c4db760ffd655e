/** sortAndReduceColors of oracle/src/oracleimporter.cpp: a sort that is not stable, then std::unique. */
module CardColors {
  const WUBRG := "WUBRG"

  /** colorOrder: a colour's rank, and INT_MAX for anything else. */
  function Rank(c: char): nat {
    if c == 'W' then 0 else if c == 'U' then 1 else if c == 'B' then 2
    else if c == 'R' then 3 else if c == 'G' then 4 else 0x7FFF_FFFF
  }

  predicate IsColor(c: char) { Rank(c) < 5 }

  predicate AreColors(s: string) { forall c <- s :: IsColor(c) }

  predicate SortedByRank(s: string) {
    forall i, j :: 0 <= i < j < |s| ==> Rank(s[i]) <= Rank(s[j])
  }

  /** std::sort may return any sorted permutation: it is not stable. */
  ghost predicate MaySortTo(s: string, t: string) {
    multiset(t) == multiset(s) && SortedByRank(t)
  }

  /** std::unique: of neighbours that are equal only the first stays. */
  function Unique(s: string): string {
    if |s| < 2 then s
    else if s[|s| - 2] == s[|s| - 1] then Unique(s[..|s| - 1])
    else Unique(s[..|s| - 1]) + [s[|s| - 1]]
  }

  predicate Distinct(s: string) {
    forall i, j :: 0 <= i < j < |s| ==> s[i] != s[j]
  }

  predicate Increasing(s: string) {
    forall i, j :: 0 <= i < j < |s| ==> Rank(s[i]) < Rank(s[j])
  }

  /** The colours of this rank and up among a set of characters, each once, in WUBRG order. */
  function InOrderFrom(colors: set<char>, rank: nat): string
    requires rank <= 5
    decreases 5 - rank
  {
    if rank == 5 then ""
    else (if WUBRG[rank] in colors then [WUBRG[rank]] else "") + InOrderFrom(colors, rank + 1)
  }

  function InOrder(colors: set<char>): string {
    InOrderFrom(colors, 0)
  }

  function Chars(s: string): set<char> { set c | c in s }

  lemma {:induction false} UniqueMembers(s: string)
    ensures forall c :: c in Unique(s) <==> c in s
    ensures |s| > 0 ==> |Unique(s)| > 0 && Unique(s)[|Unique(s)| - 1] == s[|s| - 1]
    ensures |Unique(s)| <= |s|
    decreases |s|
  {
    if |s| >= 2 {
      var t, last := s[..|s| - 1], s[|s| - 1];
      UniqueMembers(t);
      assert s == t + [last];
      assert s[|s| - 2] == t[|t| - 1] && t[|t| - 1] in t;
    }
  }

  /** Where equal rank means equal character, a sorted string loses exactly its duplicates. */
  lemma {:induction false} UniqueIncreases(s: string)
    requires SortedByRank(s) && AreColors(s)
    ensures Increasing(Unique(s))
    decreases |s|
  {
    if |s| >= 2 {
      hide Rank, IsColor;
      var t, last := s[..|s| - 1], s[|s| - 1];
      assert forall c <- t :: c in s;
      UniqueIncreases(t);
      UniqueMembers(t);
      var u := Unique(t);
      if t[|t| - 1] != last {
        assert last in s && t[|t| - 1] in s;
        forall i | 0 <= i < |u| ensures Rank(u[i]) < Rank(last) {
          assert Rank(u[i]) <= Rank(u[|u| - 1]);
          assert Rank(s[|s| - 2]) <= Rank(s[|s| - 1]);
        }
      }
    }
  }

  /** The lowest colour there may be leads the string if it is in it. */
  lemma Leads(s: string, c: char)
    requires Increasing(s) && c in s && forall x :: x in s ==> Rank(x) >= Rank(c)
    requires forall x :: Rank(x) == Rank(c) ==> x == c
    ensures s == [c] + s[1..] && Increasing(s[1..])
    ensures forall x :: x in s[1..] <==> x in s && x != c
  {
    hide Rank;
    var i :| 0 <= i < |s| && s[i] == c;
    assert s[0] in s;
    assert i == 0;
    var t := s[1..];
    forall x | x in t ensures x != c && x in s {
      var j :| 0 <= j < |t| && t[j] == x;
      assert s[j + 1] == x && Rank(s[0]) < Rank(s[j + 1]);
    }
  }

  lemma SomeMember(s: string)
    ensures s != "" ==> exists x :: x in s
  {
    if s != "" { assert s[0] in s; }
  }

  /** An increasing string of colours is determined by its characters. */
  lemma {:induction false} IncreasingIsInOrder(s: string, colors: set<char>, rank: nat)
    requires rank <= 5 && Increasing(s)
    requires forall x :: x in s <==> x in colors && IsColor(x) && Rank(x) >= rank
    ensures s == InOrderFrom(colors, rank)
    decreases 5 - rank
  {
    hide Rank;
    if rank == 5 {
      SomeMember(s);
    } else {
      var c := WUBRG[rank];
      RankOfLetter(rank);
      var t := s;
      if c in s {
        Leads(s, c);
        t := s[1..];
      }
      forall x ensures x in t <==> x in colors && IsColor(x) && Rank(x) >= rank + 1 {
        assert x in t <==> x in s && x != c;
      }
      IncreasingIsInOrder(t, colors, rank + 1);
    }
  }

  lemma RankOfLetter(rank: nat)
    requires rank < 5
    ensures Rank(WUBRG[rank]) == rank
    ensures forall x :: Rank(x) == rank ==> x == WUBRG[rank]
  {}

  /** However std::sort breaks ties, colours come out each once and in WUBRG order. */
  lemma SortAndReduceColors(s: string, t: string)
    requires AreColors(s) && MaySortTo(s, t)
    ensures Unique(t) == InOrder(Chars(s))
  {
    SameChars(s, t);
    assert AreColors(t);
    UniqueIncreases(t);
    UniqueMembers(t);
    assert AreColors(Unique(t));
    IncreasingIsInOrder(Unique(t), Chars(s), 0);
  }

  lemma SameChars(s: string, t: string)
    requires multiset(s) == multiset(t)
    ensures forall c :: c in s <==> c in t
  {
    forall c ensures c in s <==> c in t {
      assert c in s <==> c in multiset(s);
      assert c in t <==> c in multiset(t);
    }
  }

  // ----- exactly when every character comes out once -----

  function RemoveOne(s: string, c: char): string
    requires c in s
    decreases |s|
  {
    if s[0] == c then s[1..] else [s[0]] + RemoveOne(s[1..], c)
  }

  lemma {:induction false} RemoveOneMultiset(s: string, c: char)
    requires c in s
    ensures multiset(s) == multiset(RemoveOne(s, c)) + multiset{c}
    decreases |s|
  {
    assert s == [s[0]] + s[1..];
    if s[0] != c {
      RemoveOneMultiset(s[1..], c);
    }
  }

  function Insert(c: char, s: string): string {
    if s == "" || Rank(c) <= Rank(s[0]) then [c] + s else [s[0]] + Insert(c, s[1..])
  }

  function SortByRank(s: string): string {
    if s == "" then "" else Insert(s[0], SortByRank(s[1..]))
  }

  lemma {:induction false} InsertSorts(c: char, s: string)
    requires SortedByRank(s)
    ensures SortedByRank(Insert(c, s)) && multiset(Insert(c, s)) == multiset{c} + multiset(s)
    ensures Insert(c, s)[0] == c || (s != "" && Insert(c, s)[0] == s[0])
    decreases |s|
  {
    hide Rank;
    if s != "" {
      assert s == [s[0]] + s[1..];
      if !(Rank(c) <= Rank(s[0])) {
        InsertSorts(c, s[1..]);
        var t := Insert(c, s[1..]);
        assert t[0] == c || Rank(s[0]) <= Rank(t[0]);
        forall i | 0 <= i < |t| ensures Rank(s[0]) <= Rank(t[i]) {
          assert Rank(t[0]) <= Rank(t[i]);
        }
      }
    }
  }

  lemma {:induction false} SortSorts(s: string)
    ensures MaySortTo(s, SortByRank(s))
    decreases |s|
  {
    if s != "" {
      assert s == [s[0]] + s[1..];
      SortSorts(s[1..]);
      InsertSorts(s[0], SortByRank(s[1..]));
    }
  }

  /** Equal characters stand together. */
  predicate Grouped(s: string) {
    forall i, j, k :: 0 <= i < k < j < |s| && s[i] == s[j] ==> s[k] == s[i]
  }

  lemma {:induction false} UniqueOfGrouped(s: string)
    requires Grouped(s)
    ensures Distinct(Unique(s))
    decreases |s|
  {
    if |s| >= 2 {
      var t, last := s[..|s| - 1], s[|s| - 1];
      UniqueOfGrouped(t);
      UniqueMembers(t);
      if t[|t| - 1] != last {
        forall i | 0 <= i < |t| ensures t[i] != last {
          assert s[i] == t[i] && s[|s| - 2] == t[|t| - 1];
        }
        var u := Unique(t);
        forall i | 0 <= i < |u| ensures u[i] != last { assert u[i] in t; }
      }
    }
  }

  lemma TwiceCounts(s: string, i: nat, j: nat)
    requires i < j < |s| && s[i] == s[j]
    ensures multiset(s)[s[i]] >= 2
  {
    assert s == s[..j] + s[j..];
    assert s[i] == s[..j][i] && s[..j][i] in multiset(s[..j]);
    assert s[j] == s[j..][0] && s[j..][0] in multiset(s[j..]);
  }

  /** At most one character that is no colour, or none of them twice. */
  ghost predicate DedupesReliably(s: string) {
    || (forall c, d :: c in s && d in s && !IsColor(c) && !IsColor(d) ==> c == d)
    || (forall c :: c in s && !IsColor(c) ==> multiset(s)[c] == 1)
  }

  lemma ReliableGroups(s: string, t: string)
    requires DedupesReliably(s) && MaySortTo(s, t)
    ensures Grouped(t)
  {
    hide Rank;
    SameChars(s, t);
    forall i, j, k | 0 <= i < k < j < |t| && t[i] == t[j] ensures t[k] == t[i] {
      assert Rank(t[i]) <= Rank(t[k]) <= Rank(t[j]);
      assert t[i] in t && t[k] in t;
      if IsColor(t[i]) {
        SameColor(t[i], t[k]);
      } else {
        TwiceCounts(t, i, j);
      }
    }
  }

  lemma SameColor(c: char, d: char)
    requires IsColor(c) && Rank(c) == Rank(d)
    ensures c == d
  {}

  lemma SameRankElsewhere(c: char, d: char)
    requires !IsColor(c)
    ensures Rank(d) <= Rank(c) && (!IsColor(d) ==> Rank(d) == Rank(c))
  {}

  /** Two characters c that are no colours, with another d between them: std::unique keeps both. */
  lemma DuplicateSurvives(rest: string, c: char, d: char)
    requires c != d
    ensures !Distinct(Unique(rest + [c, d] + [c]))
  {
    var t := rest + [c, d] + [c];
    assert t[..|t| - 1] == rest + [c, d];
    var u := Unique(rest + [c, d]);
    UniqueMembers(rest + [c, d]);
    assert (rest + [c, d])[|rest|] == c;
    assert c in u;
    var i :| 0 <= i < |u| && u[i] == c;
    assert Unique(t)[i] == Unique(t)[|u|];
  }

  /** Every outcome of the sort is deduplicated if and only if the condition holds. */
  lemma DedupesExactlyWhen(s: string)
    ensures (forall t | MaySortTo(s, t) :: Distinct(Unique(t))) <==> DedupesReliably(s)
  {
    if DedupesReliably(s) {
      forall t | MaySortTo(s, t) ensures Distinct(Unique(t)) {
        ReliableGroups(s, t);
        UniqueOfGrouped(t);
      }
    } else {
      var c :| c in s && !IsColor(c) && multiset(s)[c] != 1;
      var d: char :| d in s && !IsColor(d) && c != d by {
        var a, b :| a in s && b in s && !IsColor(a) && !IsColor(b) && a != b;
        assert a != c || b != c;
      }
      UnreliableSort(s, c, d);
    }
  }

  /** Two c and a d taken out of the string. */
  lemma PullOut(s: string, c: char, d: char) returns (rest: string)
    requires c != d && multiset(s)[c] >= 2 && multiset(s)[d] >= 1
    ensures multiset(s) == multiset(rest) + multiset{c, d, c}
  {
    hide RemoveOne;
    assert c in multiset(s);
    var s1 := RemoveOne(s, c);
    RemoveOneMultiset(s, c);
    assert c in multiset(s1);
    var s2 := RemoveOne(s1, c);
    RemoveOneMultiset(s1, c);
    assert d in multiset(s2);
    rest := RemoveOne(s2, d);
    RemoveOneMultiset(s2, d);
  }

  lemma UnreliableSort(s: string, c: char, d: char)
    requires c in s && d in s && !IsColor(c) && !IsColor(d) && c != d && multiset(s)[c] != 1
    ensures exists t :: MaySortTo(s, t) && !Distinct(Unique(t))
  {
    hide Unique, SortByRank, SortedByRank, Distinct, IsColor;
    assert c in multiset(s) && d in multiset(s);
    var others := PullOut(s, c, d);
    SortSorts(others);
    var rest := SortByRank(others);
    var t := rest + [c, d] + [c];
    DuplicateSurvives(rest, c, d);
    LastRanks(rest, c, d);
    assert multiset(t) == multiset(rest) + multiset{c, d, c};
    assert MaySortTo(s, t);
  }

  lemma LastRanks(rest: string, c: char, d: char)
    requires SortedByRank(rest) && !IsColor(c) && !IsColor(d)
    ensures SortedByRank(rest + [c, d] + [c])
  {
    hide Rank;
    var t := rest + [c, d] + [c];
    forall i, j | 0 <= i < j < |t| ensures Rank(t[i]) <= Rank(t[j]) {
      SameRankElsewhere(c, t[i]);
      SameRankElsewhere(d, t[i]);
    }
  }
}
