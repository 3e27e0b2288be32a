/** Splitting and joining text. */
module Strings {

  /** String.prototype.split: leftmost, non-overlapping occurrences of the separator. */
  function Split(s: string, sep: string): (parts: seq<string>)
    requires sep != []
    ensures parts != []
    decreases |s|
  {
    if |s| < |sep| then [s]
    else if s[..|sep|] == sep then [[]] + Split(s[|sep|..], sep)
    else
      var rest := Split(s[1..], sep);
      [[s[0]] + rest[0]] + rest[1..]
  }

  function Join(parts: seq<string>, sep: string): string {
    if parts == [] then []
    else if |parts| == 1 then parts[0]
    else parts[0] + sep + Join(parts[1..], sep)
  }

  // Text without the separator is one part; text up to its first occurrence is the first part.
  lemma {:induction false} SplitWhole(s: string, c: char)
    requires c !in s
    ensures Split(s, [c]) == [s]
    decreases |s|
  {
    if s != [] {
      assert s[..1] == [s[0]];
      SplitWhole(s[1..], c);
      assert s == [s[0]] + s[1..];
    }
  }

  lemma {:induction false} SplitFirst(a: string, c: char, b: string)
    requires c !in a
    ensures Split(a + [c] + b, [c]) == [a] + Split(b, [c])
    decreases |a|
  {
    var s := a + [c] + b;
    if a == [] {
      assert s[..1] == [c] && s[1..] == b;
    } else {
      assert s[..1] == [a[0]];
      assert s[1..] == a[1..] + [c] + b;
      SplitFirst(a[1..], c, b);
      assert a == [a[0]] + a[1..];
    }
  }

  /** Splitting undoes joining when no part holds the separator. */
  lemma {:induction false} SplitJoin(parts: seq<string>, c: char)
    requires parts != [] && forall i :: 0 <= i < |parts| ==> c !in parts[i]
    ensures Split(Join(parts, [c]), [c]) == parts
    decreases |parts|
  {
    if |parts| == 1 {
      SplitWhole(parts[0], c);
    } else {
      SplitJoin(parts[1..], c);
      SplitFirst(parts[0], c, Join(parts[1..], [c]));
      assert parts == [parts[0]] + parts[1..];
    }
  }

  /** Joining undoes splitting. */
  lemma {:induction false} JoinSplit(s: string, sep: string)
    requires sep != []
    ensures Join(Split(s, sep), sep) == s
    decreases |s|
  {
    if |s| < |sep| {
    } else if s[..|sep|] == sep {
      JoinSplit(s[|sep|..], sep);
      var rest := Split(s[|sep|..], sep);
      assert ([[]] + rest)[1..] == rest;
      assert [] + sep + Join(rest, sep) == sep + Join(rest, sep);
      assert s == sep + s[|sep|..];
    } else {
      JoinSplit(s[1..], sep);
      JoinOfLonger(s[0], Split(s[1..], sep), sep);
      assert s == [s[0]] + s[1..];
    }
  }

  lemma JoinOfLonger(c: char, parts: seq<string>, sep: string)
    requires parts != []
    ensures Join([[c] + parts[0]] + parts[1..], sep) == [c] + Join(parts, sep)
  {
    var longer := [[c] + parts[0]] + parts[1..];
    if |parts| > 1 {
      assert longer[1..] == parts[1..];
      var rest := Join(parts[1..], sep);
      assert ([c] + parts[0]) + sep + rest == [c] + (parts[0] + sep + rest);
    }
  }

  lemma {:induction false} PartsHaveNo(s: string, c: char, sep: char)
    requires c == sep || c !in s
    ensures forall i :: 0 <= i < |Split(s, [sep])| ==> c !in Split(s, [sep])[i]
    decreases |s|
  {
    if s != [] { PartsHaveNo(s[1..], c, sep); }
  }
}
