/** Strings cut at slashes and put together again, as Python's str.split and str.join do it. */
module Strings {

  datatype Option<+T> = None | Some(value: T) {
    function GetOr(default: T): T {
      match this case None => default case Some(value) => value
    }
  }

  function Join(parts: seq<string>): string {
    if parts == [] then ""
    else if |parts| == 1 then parts[0]
    else parts[0] + "/" + Join(parts[1..])
  }

  function Split(s: string): (parts: seq<string>)
    ensures parts != []
    ensures forall part <- parts :: '/' !in part
  {
    if s == "" then [""]
    else
      var rest := Split(s[1..]);
      if s[0] == '/' then [""] + rest else [[s[0]] + rest[0]] + rest[1..]
  }

  lemma {:induction false} SplitOne(part: string)
    requires '/' !in part
    ensures Split(part) == [part]
    decreases |part|
  {
    if part != "" {
      SplitOne(part[1..]);
      assert part == [part[0]] + part[1..];
    }
  }

  lemma {:induction false} SplitFirst(part: string, s: string)
    requires '/' !in part
    ensures Split(part + "/" + s) == [part] + Split(s)
    decreases |part|
  {
    if part == "" {
      assert part + "/" + s == "/" + s;
      assert ("/" + s)[1..] == s;
    } else {
      assert (part + "/" + s)[1..] == part[1..] + "/" + s;
      SplitFirst(part[1..], s);
      assert part == [part[0]] + part[1..];
    }
  }

  /** Splitting undoes joining. */
  lemma {:induction false} SplitJoin(parts: seq<string>)
    requires parts != [] && forall part <- parts :: '/' !in part
    ensures Split(Join(parts)) == parts
    decreases |parts|
  {
    if |parts| == 1 {
      SplitOne(parts[0]);
    } else {
      SplitJoin(parts[1..]);
      SplitFirst(parts[0], Join(parts[1..]));
      assert parts == [parts[0]] + parts[1..];
    }
  }

  lemma {:induction false} JoinSplit(s: string)
    ensures Join(Split(s)) == s
    decreases |s|
  {
    if s != "" {
      JoinSplit(s[1..]);
      var rest := Split(s[1..]);
      assert Split(s)[1..] == if s[0] == '/' then rest else rest[1..];
      assert s == [s[0]] + s[1..];
    }
  }

  /** What follows the last slash is the last part. */
  lemma {:induction false} SplitLast(s: string, part: string)
    requires '/' !in part
    ensures Split(s + "/" + part) == Split(s) + [part]
    decreases |s|
  {
    if s == "" {
      assert s + "/" + part == "" + "/" + part;
      SplitFirst("", part);
      SplitOne(part);
    } else {
      assert (s + "/" + part)[1..] == s[1..] + "/" + part;
      SplitLast(s[1..], part);
    }
  }
}
