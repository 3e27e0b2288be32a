/** The canonical text of a JSON value that request bodies are hashed from. */
module StableJson {
  import opened Base

  datatype Keyed<+T> = Keyed(key: Text, value: T)

  /**
   * A parsed body. A number is the text it is written with; one too large for a double, such as
   * 1e400, is parsed as an infinity. An object lists its properties in the order the client sent them.
   */
  datatype Json =
    | Undefined
    | Null
    | Bool(b: bool)
    | Number(digits: Text)
    | Infinite(negative: bool)
    | String(text: Text)
    | Array(items: seq<Json>)
    | Object(entries: seq<Keyed<Json>>)

  // ---- Quoted strings ----

  const QUOTE: Unit := 34
  const BACKSLASH: Unit := 92
  const COMMA: Unit := 44
  const COLON: Unit := 58
  const LBRACKET: Unit := 91
  const RBRACKET: Unit := 93
  const LBRACE: Unit := 123
  const RBRACE: Unit := 125

  predicate IsHigh(u: Unit) { 0xD800 <= u < 0xDC00 }

  predicate IsLow(u: Unit) { 0xDC00 <= u < 0xE000 }

  function HexDigit(n: int): Unit
    requires 0 <= n < 16
  {
    if n < 10 then 48 + n else 87 + n
  }

  function Hex4(u: Unit): Text {
    [HexDigit(u / 4096), HexDigit(u / 256 % 16), HexDigit(u / 16 % 16), HexDigit(u % 16)]
  }

  function Escape(u: Unit): Text {
    if u == QUOTE || u == BACKSLASH then [BACKSLASH, u]
    else if u == 8 then [BACKSLASH, 98]
    else if u == 9 then [BACKSLASH, 116]
    else if u == 10 then [BACKSLASH, 110]
    else if u == 12 then [BACKSLASH, 102]
    else if u == 13 then [BACKSLASH, 114]
    else if u < 32 || IsHigh(u) || IsLow(u) then [BACKSLASH, 117] + Hex4(u)
    else [u]
  }

  /** A surrogate pair is written as it is; a lone surrogate is escaped. */
  predicate StartsWithPair(s: Text) { |s| > 1 && IsHigh(s[0]) && IsLow(s[1]) }

  function HeadLength(s: Text): nat
    requires s != []
    ensures 1 <= HeadLength(s) <= |s|
  {
    if StartsWithPair(s) then 2 else 1
  }

  function HeadText(s: Text): Text
    requires s != []
  {
    if StartsWithPair(s) then s[..2] else Escape(s[0])
  }

  function Escaped(s: Text): Text {
    if s == [] then [] else HeadText(s) + Escaped(s[HeadLength(s)..])
  }

  /** JSON.stringify of a string. */
  function Quote(s: Text): Text { [QUOTE] + Escaped(s) + [QUOTE] }

  lemma Nibbles(u: Unit)
    ensures u == 4096 * (u / 4096) + 256 * (u / 256 % 16) + 16 * (u / 16 % 16) + u % 16
  {
    assert u / 256 == 16 * (u / 4096) + u / 256 % 16;
    assert u / 16 == 16 * (u / 256) + u / 16 % 16;
  }

  lemma HexIsInjective(u: Unit, v: Unit)
    requires Hex4(u) == Hex4(v)
    ensures u == v
  {
    assert Hex4(u)[0] == Hex4(v)[0] && Hex4(u)[1] == Hex4(v)[1] && Hex4(u)[2] == Hex4(v)[2] && Hex4(u)[3] == Hex4(v)[3];
    DigitIsInjective(u / 4096, v / 4096);
    DigitIsInjective(u / 256 % 16, v / 256 % 16);
    DigitIsInjective(u / 16 % 16, v / 16 % 16);
    DigitIsInjective(u % 16, v % 16);
    hide HexDigit;
    Nibbles(u);
    Nibbles(v);
  }

  lemma DigitIsInjective(m: int, n: int)
    requires 0 <= m < 16 && 0 <= n < 16
    ensures HexDigit(m) == HexDigit(n) ==> m == n
  {
  }

  lemma EscapesAreUnambiguous(u: Unit, v: Unit, x: Text, y: Text)
    requires Escape(u) + x == Escape(v) + y
    ensures u == v && x == y
  {
    var l, r := Escape(u) + x, Escape(v) + y;
    assert l[0] == Escape(u)[0] && r[0] == Escape(v)[0];
    if |Escape(u)| > 1 && |Escape(v)| > 1 {
      assert l[1] == Escape(u)[1] && r[1] == Escape(v)[1];
      if |Escape(u)| > 2 && |Escape(v)| > 2 {
        assert l[2..6] == Hex4(u) && r[2..6] == Hex4(v);
        HexIsInjective(u, v);
      }
    }
    assert l[|Escape(u)|..] == x && r[|Escape(v)|..] == y;
  }

  lemma HeadsAreUnambiguous(s: Text, t: Text, x: Text, y: Text)
    requires s != [] && t != [] && HeadText(s) + x == HeadText(t) + y
    ensures HeadLength(s) == HeadLength(t) && s[..HeadLength(s)] == t[..HeadLength(t)] && x == y
  {
    var l, r := HeadText(s) + x, HeadText(t) + y;
    assert l[0] == HeadText(s)[0] && r[0] == HeadText(t)[0];
    if StartsWithPair(s) && StartsWithPair(t) {
      assert l[..2] == s[..2] && r[..2] == t[..2] && l[2..] == x && r[2..] == y;
    } else if !StartsWithPair(s) && !StartsWithPair(t) {
      EscapesAreUnambiguous(s[0], t[0], x, y);
    }
  }

  lemma HeadIsNotQuote(s: Text)
    requires s != []
    ensures HeadText(s) != [] && HeadText(s)[0] != QUOTE
  {
    hide Hex4;
  }

  /** A quoted string ends where it seems to end: what follows it cannot change how it reads. */
  lemma {:induction false} QuotesAreUnambiguous(s: Text, t: Text, x: Text, y: Text)
    requires Escaped(s) + [QUOTE] + x == Escaped(t) + [QUOTE] + y
    ensures s == t && x == y
    decreases |s|
  {
    hide HeadText, StartsWithPair;
    var l, r := Escaped(s) + [QUOTE] + x, Escaped(t) + [QUOTE] + y;
    if s != [] { HeadIsNotQuote(s); assert l[0] == HeadText(s)[0]; }
    if t != [] { HeadIsNotQuote(t); assert r[0] == HeadText(t)[0]; } else { assert r[0] == QUOTE; }
    if s == [] {
      assert l[0] == QUOTE;
      assert l[1..] == x && r[1..] == y;
    } else if t != [] {
      var s', t' := s[HeadLength(s)..], t[HeadLength(t)..];
      assert l == HeadText(s) + (Escaped(s') + [QUOTE] + x);
      assert r == HeadText(t) + (Escaped(t') + [QUOTE] + y);
      HeadsAreUnambiguous(s, t, Escaped(s') + [QUOTE] + x, Escaped(t') + [QUOTE] + y);
      QuotesAreUnambiguous(s', t', x, y);
      assert s == s[..HeadLength(s)] + s' && t == t[..HeadLength(t)] + t';
    }
  }

  // ---- Sorting by key ----

  function InsertByKey<T>(e: Keyed<T>, sorted: seq<Keyed<T>>): seq<Keyed<T>> {
    if sorted == [] || Less(e.key, sorted[0].key) then [e] + sorted
    else [sorted[0]] + InsertByKey(e, sorted[1..])
  }

  /** Object.keys(value).sort(), carrying each key's value along. */
  function SortByKey<T>(entries: seq<Keyed<T>>): seq<Keyed<T>> {
    if entries == [] then [] else InsertByKey(entries[0], SortByKey(entries[1..]))
  }

  predicate DistinctKeys<T>(entries: seq<Keyed<T>>) {
    forall i, j :: 0 <= i < j < |entries| ==> entries[i].key != entries[j].key
  }

  predicate Ascending<T>(entries: seq<Keyed<T>>) {
    forall i, j :: 0 <= i < j < |entries| ==> Less(entries[i].key, entries[j].key)
  }

  lemma {:induction false} InsertKeeps<T(!new)>(e: Keyed<T>, sorted: seq<Keyed<T>>)
    ensures |InsertByKey(e, sorted)| == |sorted| + 1
    ensures forall x :: x in InsertByKey(e, sorted) <==> x == e || x in sorted
    ensures Ascending(sorted) && (forall x :: x in sorted ==> x.key != e.key) ==> Ascending(InsertByKey(e, sorted))
  {
    hide Less;
    if sorted != [] && !Less(e.key, sorted[0].key) {
      InsertKeeps(e, sorted[1..]);
      if Ascending(sorted) && forall x :: x in sorted ==> x.key != e.key {
        var rest := InsertByKey(e, sorted[1..]);
        LessIsTotal(e.key, sorted[0].key);
        assert sorted[0] in sorted;
        forall j | 0 <= j < |rest| ensures Less(sorted[0].key, rest[j].key) {
          assert rest[j] in rest;
          if rest[j] != e {
            var tail := sorted[1..];
            assert rest[j] in tail;
            var k :| 0 <= k < |tail| && tail[k] == rest[j];
            assert sorted[k + 1] == rest[j];
          }
        }
      }
    } else if sorted != [] && Ascending(sorted) {
      forall j | 0 <= j < |sorted| ensures Less(e.key, sorted[j].key) {
        if j > 0 { LessIsTransitive(e.key, sorted[0].key, sorted[j].key); }
      }
    }
  }

  lemma {:induction false} SortKeeps<T(!new)>(entries: seq<Keyed<T>>)
    ensures |SortByKey(entries)| == |entries|
    ensures forall x :: x in SortByKey(entries) <==> x in entries
    ensures DistinctKeys(entries) ==> Ascending(SortByKey(entries))
  {
    if entries != [] {
      SortKeeps(entries[1..]);
      InsertKeeps(entries[0], SortByKey(entries[1..]));
      if DistinctKeys(entries) {
        forall x | x in SortByKey(entries[1..]) ensures x.key != entries[0].key {
          var tail := entries[1..];
          assert x in tail;
          var k :| 0 <= k < |tail| && tail[k] == x;
          assert entries[k + 1] == x;
        }
      }
    }
  }

  /** There is one ascending sequence of given entries. */
  lemma {:induction false} AscendingIsUnique<T(!new)>(a: seq<Keyed<T>>, b: seq<Keyed<T>>)
    requires Ascending(a) && Ascending(b) && forall x :: x in a <==> x in b
    ensures a == b
    decreases |a|
  {
    assert (a != [] ==> a[0] in b) && (b != [] ==> b[0] in a);
    if a != [] && b != [] {
      SmallestIsFirst(a, b);
      forall x | x in a[1..] ensures x in b[1..] { NotFirst(a, x); }
      forall x | x in b[1..] ensures x in a[1..] { NotFirst(b, x); }
      AscendingIsUnique(a[1..], b[1..]);
      assert a == [a[0]] + a[1..] && b == [b[0]] + b[1..];
    }
  }

  lemma SmallestIsFirst<T(!new)>(a: seq<Keyed<T>>, b: seq<Keyed<T>>)
    requires a != [] && b != [] && Ascending(a) && Ascending(b) && a[0] in b && b[0] in a
    ensures a[0] == b[0]
  {
    var i :| 0 <= i < |b| && b[i] == a[0];
    var j :| 0 <= j < |a| && a[j] == b[0];
    if i > 0 && j > 0 { LessIsAsymmetric(b[0].key, a[0].key); }
  }

  lemma NotFirst<T(!new)>(a: seq<Keyed<T>>, x: Keyed<T>)
    requires a != [] && Ascending(a) && x in a[1..]
    ensures x != a[0] && x in a
  {
    var i :| 0 <= i < |a[1..]| && a[1..][i] == x;
    assert a[i + 1] == x && Less(a[0].key, a[i + 1].key);
    LessIsAsymmetric(a[0].key, x.key);
  }

  // ---- Rendering ----

  /** Array.prototype.join(","). */
  function Join(parts: seq<Text>): Text {
    if parts == [] then [] else if |parts| == 1 then parts[0] else parts[0] + [COMMA] + Join(parts[1..])
  }

  const UNDEFINED: Text := [117, 110, 100, 101, 102, 105, 110, 101, 100]
  const NULL: Text := [110, 117, 108, 108]
  const TRUE: Text := [116, 114, 117, 101]
  const FALSE: Text := [102, 97, 108, 115, 101]

  function EntryText(e: Keyed<Text>): Text { Quote(e.key) + [COLON] + e.value }

  function EntryTexts(entries: seq<Keyed<Text>>): (texts: seq<Text>)
    ensures |texts| == |entries|
  {
    seq(|entries|, i requires 0 <= i < |entries| => EntryText(entries[i]))
  }

  /**
   * The canonical text: like JSON.stringify, but every object's properties come in key order.
   * Rendering each value before the sort gives the same text as sorting first.
   */
  function Stringify(j: Json): Text
    decreases j, 1
  {
    match j
    case Undefined => UNDEFINED
    case Null => NULL
    case Bool(b) => if b then TRUE else FALSE
    case Number(digits) => digits
    case Infinite(_) => NULL
    case String(text) => Quote(text)
    case Array(items) => [LBRACKET] + Join(StringifyAll(items)) + [RBRACKET]
    case Object(entries) => [LBRACE] + Join(EntryTexts(SortByKey(StringifyEntries(entries)))) + [RBRACE]
  }

  function StringifyAll(items: seq<Json>): (r: seq<Text>)
    ensures |r| == |items|
    decreases items, 0
  {
    if items == [] then [] else [Stringify(items[0])] + StringifyAll(items[1..])
  }

  function StringifyEntries(entries: seq<Keyed<Json>>): (r: seq<Keyed<Text>>)
    ensures |r| == |entries|
    decreases entries, 0
  {
    if entries == [] then [] else [Keyed(entries[0].key, Stringify(entries[0].value))] + StringifyEntries(entries[1..])
  }

  // ---- The same value up to key order ----

  /**
   * What every parsed body satisfies: an object's keys differ, and a finite number's text is made
   * of number characters.
   */
  predicate WellFormed(j: Json)
    decreases j
  {
    match j
    case Number(digits) => IsNumberText(digits)
    case Array(items) => forall i :: 0 <= i < |items| ==> WellFormed(items[i])
    case Object(entries) => DistinctKeys(entries) && forall i :: 0 <= i < |entries| ==> WellFormed(entries[i].value)
    case _ => true
  }

  /** Without an infinity at any depth. */
  predicate IsFinite(j: Json)
    decreases j
  {
    match j
    case Infinite(_) => false
    case Array(items) => forall i :: 0 <= i < |items| ==> IsFinite(items[i])
    case Object(entries) => forall i :: 0 <= i < |entries| ==> IsFinite(entries[i].value)
    case _ => true
  }

  predicate IsPlain(j: Json) { WellFormed(j) && IsFinite(j) }

  predicate IsNumberUnit(u: Unit) { 48 <= u <= 57 || u == 43 || u == 45 || u == 46 || u == 101 }

  predicate IsNumberText(t: Text) {
    t != [] && (48 <= t[0] <= 57 || t[0] == 45) && forall i :: 0 <= i < |t| ==> IsNumberUnit(t[i])
  }

  /** Equal up to the order of object properties, at every depth. */
  predicate Same(a: Json, b: Json)
    decreases a, 1
  {
    match a
    case Array(items) =>
      b.Array? && |items| == |b.items| && forall i :: 0 <= i < |items| ==> Same(items[i], b.items[i])
    case Object(entries) =>
      && b.Object?
      && (forall i :: 0 <= i < |entries| ==> HasCounterpart(entries[i], b.entries))
      && (forall k :: 0 <= k < |b.entries| ==> IsCounterpart(entries, b.entries[k]))
    case _ => a == b
  }

  predicate HasCounterpart(e: Keyed<Json>, b: seq<Keyed<Json>>)
    decreases e, 0
  {
    exists k :: 0 <= k < |b| && e.key == b[k].key && Same(e.value, b[k].value)
  }

  predicate IsCounterpart(a: seq<Keyed<Json>>, f: Keyed<Json>)
    decreases a, 0
  {
    exists i :: 0 <= i < |a| && a[i].key == f.key && Same(a[i].value, f.value)
  }

  lemma {:induction false} AllAt(items: seq<Json>, i: int)
    requires 0 <= i < |items|
    ensures StringifyAll(items)[i] == Stringify(items[i])
  {
    hide Stringify;
    if i > 0 { AllAt(items[1..], i - 1); }
  }

  lemma {:induction false} EntriesAt(entries: seq<Keyed<Json>>, i: int)
    requires 0 <= i < |entries|
    ensures StringifyEntries(entries)[i] == Keyed(entries[i].key, Stringify(entries[i].value))
  {
    hide Stringify;
    if i > 0 { EntriesAt(entries[1..], i - 1); }
  }

  /** The properties of an object as rendered, in key order. */
  function SortedTexts(entries: seq<Keyed<Json>>): seq<Keyed<Text>> { SortByKey(StringifyEntries(entries)) }

  // The sorted texts are the renderings of the object's properties, each once.
  lemma SortedTextsAre(entries: seq<Keyed<Json>>)
    requires DistinctKeys(entries)
    ensures Ascending(SortedTexts(entries)) && |SortedTexts(entries)| == |entries|
    ensures forall e :: e in SortedTexts(entries) <==>
              exists i :: 0 <= i < |entries| && e.key == entries[i].key && e.value == Stringify(entries[i].value)
  {
    hide Stringify, Less;
    var texts := StringifyEntries(entries);
    forall i | 0 <= i < |entries| ensures texts[i] == Keyed(entries[i].key, Stringify(entries[i].value)) {
      EntriesAt(entries, i);
    }
    SortKeeps(texts);
    forall e | e in texts
        ensures exists i :: 0 <= i < |entries| && e.key == entries[i].key && e.value == Stringify(entries[i].value) {
      var i :| 0 <= i < |texts| && texts[i] == e;
      assert texts[i] == Keyed(entries[i].key, Stringify(entries[i].value));
    }
    forall e: Keyed<Text>, i | 0 <= i < |entries| && e.key == entries[i].key && e.value == Stringify(entries[i].value)
        ensures e in texts {
      assert e == texts[i];
    }
  }

  /** Values that are equal up to key order have the same text. */
  lemma {:induction false} SameHasSameText(a: Json, b: Json)
    requires IsPlain(a) && IsPlain(b) && Same(a, b)
    ensures Stringify(a) == Stringify(b)
    decreases a, 1
  {
    hide Stringify;
    match a
    case Array(items) =>
      var x, y := StringifyAll(items), StringifyAll(b.items);
      forall i | 0 <= i < |items| ensures x[i] == y[i] {
        AllAt(items, i);
        AllAt(b.items, i);
        SameHasSameText(items[i], b.items[i]);
      }
      assert x == y;
      ArrayText(a);
      ArrayText(b);
    case Object(entries) =>
      SameProperties(entries, b.entries);
      ObjectText(a);
      ObjectText(b);
    case _ =>
  }

  lemma {:induction false} SameProperties(a: seq<Keyed<Json>>, b: seq<Keyed<Json>>)
    requires DistinctKeys(a) && DistinctKeys(b)
    requires forall i :: 0 <= i < |a| ==> IsPlain(a[i].value)
    requires forall k :: 0 <= k < |b| ==> IsPlain(b[k].value)
    requires forall i :: 0 <= i < |a| ==> HasCounterpart(a[i], b)
    requires forall k :: 0 <= k < |b| ==> IsCounterpart(a, b[k])
    ensures SortedTexts(a) == SortedTexts(b)
    decreases a, 0
  {
    hide Stringify, IsPlain, Same, SortedTexts, Ascending;
    SortedTextsAre(a);
    SortedTextsAre(b);
    forall e | e in SortedTexts(a) ensures e in SortedTexts(b) {
      var i :| 0 <= i < |a| && e.key == a[i].key && e.value == Stringify(a[i].value);
      assert HasCounterpart(a[i], b);
      var k :| 0 <= k < |b| && a[i].key == b[k].key && Same(a[i].value, b[k].value);
      SameHasSameText(a[i].value, b[k].value);
    }
    forall e | e in SortedTexts(b) ensures e in SortedTexts(a) {
      var k :| 0 <= k < |b| && e.key == b[k].key && e.value == Stringify(b[k].value);
      assert IsCounterpart(a, b[k]);
      var i :| 0 <= i < |a| && a[i].key == b[k].key && Same(a[i].value, b[k].value);
      SameHasSameText(a[i].value, b[k].value);
    }
    AscendingIsUnique(SortedTexts(a), SortedTexts(b));
  }

  lemma ArrayText(a: Json)
    requires a.Array?
    ensures Stringify(a) == [LBRACKET] + Join(StringifyAll(a.items)) + [RBRACKET]
  {
  }

  lemma ObjectText(a: Json)
    requires a.Object?
    ensures Stringify(a) == [LBRACE] + Join(EntryTexts(SortedTexts(a.entries))) + [RBRACE]
  {
  }

  // ---- Unambiguous reading ----

  /** What may follow a value inside a larger text: nothing, a comma, or a closing bracket or brace. */
  predicate Delimited(x: Text) { x == [] || x[0] == COMMA || x[0] == RBRACKET || x[0] == RBRACE }

  lemma Overlap(d: Text, e: Text, x: Text, y: Text)
    requires d + x == e + y && |d| < |e|
    ensures x != [] && x[0] == e[|d|]
  {
    assert (d + x)[|d|] == (e + y)[|d|];
  }

  lemma NumbersAreUnambiguous(d: Text, e: Text, x: Text, y: Text)
    requires IsNumberText(d) && IsNumberText(e) && Delimited(x) && Delimited(y) && d + x == e + y
    ensures d == e && x == y
  {
    if |d| < |e| { Overlap(d, e, x, y); }
    if |e| < |d| { Overlap(e, d, y, x); }
    SamePrefix(d, x, e, y);
  }

  // The first unit of a value's text tells what kind of value it is, and is never a delimiter.
  predicate Opens(j: Json, u: Unit) {
    match j
    case Undefined => u == 117
    case Null => u == 110
    case Bool(b) => u == if b then 116 else 102
    case Number(_) => 48 <= u <= 57 || u == 45
    case Infinite(_) => u == 110
    case String(_) => u == QUOTE
    case Array(_) => u == LBRACKET
    case Object(_) => u == LBRACE
  }

  lemma FirstUnit(j: Json)
    requires IsPlain(j)
    ensures Stringify(j) != [] && Opens(j, Stringify(j)[0])
  {
  }

  lemma SamePrefix(t: Text, x: Text, u: Text, y: Text)
    requires t + x == u + y && |t| == |u|
    ensures t == u && x == y
  {
    assert (t + x)[..|t|] == t && (u + y)[..|u|] == u && (t + x)[|t|..] == x && (u + y)[|u|..] == y;
  }

  lemma LeafText(j: Json)
    requires !j.Array? && !j.Object?
    ensures j.Number? ==> Stringify(j) == j.digits
    ensures j.String? ==> Stringify(j) == [QUOTE] + Escaped(j.text) + [QUOTE]
  {
  }

  lemma DropFirst(u: Unit, v: Unit, x: Text, y: Text)
    requires [u] + x == [v] + y
    ensures u == v && x == y
  {
    assert ([u] + x)[0] == u && ([v] + y)[0] == v && ([u] + x)[1..] == x && ([v] + y)[1..] == y;
  }

  // A finite value's text reads as that value only, up to key order, whatever delimited text follows it.
  lemma {:induction false} PlainReadsOneWay(j: Json, k: Json, x: Text, y: Text)
    requires IsPlain(j) && IsPlain(k) && Delimited(x) && Delimited(y)
    requires Stringify(j) + x == Stringify(k) + y
    ensures Same(j, k) && x == y
    decreases j, 2
  {
    hide Stringify, Escaped, Join, SortedTexts, EntryTexts;
    FirstUnit(j);
    FirstUnit(k);
    assert (Stringify(j) + x)[0] == Stringify(j)[0] && (Stringify(k) + y)[0] == Stringify(k)[0];
    match j
    case Number(d) =>
      LeafText(j);
      LeafText(k);
      NumbersAreUnambiguous(d, k.digits, x, y);
    case String(s) =>
      LeafText(j);
      LeafText(k);
      assert Stringify(j) + x == [QUOTE] + (Escaped(s) + [QUOTE] + x);
      assert Stringify(k) + y == [QUOTE] + (Escaped(k.text) + [QUOTE] + y);
      DropFirst(QUOTE, QUOTE, Escaped(s) + [QUOTE] + x, Escaped(k.text) + [QUOTE] + y);
      QuotesAreUnambiguous(s, k.text, x, y);
    case Array(items) =>
      ArrayText(j);
      ArrayText(k);
      var p, q := Join(StringifyAll(items)) + [RBRACKET] + x, Join(StringifyAll(k.items)) + [RBRACKET] + y;
      assert Stringify(j) + x == [LBRACKET] + p;
      assert Stringify(k) + y == [LBRACKET] + q;
      DropFirst(LBRACKET, LBRACKET, p, q);
      ItemsReadOneWay(items, k.items, x, y);
    case Object(entries) => ObjectsReadOneWay(j, k, x, y);
    case _ => SamePrefix(Stringify(j), x, Stringify(k), y);
  }

  lemma {:induction false} ObjectsReadOneWay(j: Json, k: Json, x: Text, y: Text)
    requires IsPlain(j) && IsPlain(k) && j.Object? && k.Object? && Stringify(j) + x == Stringify(k) + y
    ensures Same(j, k) && x == y
    decreases j, 1
  {
    hide Stringify, Join, SortedTexts, EntryTexts;
    var a, b := j.entries, k.entries;
    ObjectText(j);
    ObjectText(k);
    var p, q := Join(EntryTexts(SortedTexts(a))) + [RBRACE] + x, Join(EntryTexts(SortedTexts(b))) + [RBRACE] + y;
    assert Stringify(j) + x == [LBRACE] + p;
    assert Stringify(k) + y == [LBRACE] + q;
    DropFirst(LBRACE, LBRACE, p, q);
    SortedTextsAre(a);
    SortedTextsAre(b);
    EntriesReadOneWay(a, b, SortedTexts(a), SortedTexts(b), x, y);
    PropertiesAreSame(a, b);
  }

  // A nonempty list of texts is its first text, then the closing unit or a comma and the rest.
  lemma JoinSplits(parts: seq<Text>, close: Unit, x: Text)
    requires parts != []
    ensures Join(parts) + [close] + x ==
            parts[0] + (if |parts| == 1 then [close] + x else [COMMA] + (Join(parts[1..]) + [close] + x))
  {
    JoinUnfolds(parts);
    hide Join;
    if |parts| == 1 {
      Regroup(parts[0], [close], x);
    } else {
      RegroupTail(parts[0], [COMMA], Join(parts[1..]), [close], x);
    }
  }

  lemma JoinUnfolds(parts: seq<Text>)
    requires parts != []
    ensures Join(parts) == if |parts| == 1 then parts[0] else parts[0] + [COMMA] + Join(parts[1..])
  {
  }

  lemma Regroup(a: Text, b: Text, c: Text)
    ensures a + b + c == a + (b + c)
  {
  }

  lemma RegroupTail(a: Text, b: Text, c: Text, d: Text, e: Text)
    ensures a + b + c + d + e == a + (b + (c + d + e))
  {
    Regroup(a + b + c, d, e);
    Regroup(a + b, c, d + e);
    Regroup(a, b, c + (d + e));
    Regroup(c, d, e);
  }

  lemma {:induction false} ItemsReadOneWay(items: seq<Json>, others: seq<Json>, x: Text, y: Text)
    requires forall i :: 0 <= i < |items| ==> IsPlain(items[i])
    requires forall i :: 0 <= i < |others| ==> IsPlain(others[i])
    requires Join(StringifyAll(items)) + [RBRACKET] + x == Join(StringifyAll(others)) + [RBRACKET] + y
    ensures |items| == |others| && (forall i :: 0 <= i < |items| ==> Same(items[i], others[i])) && x == y
    decreases items, 0
  {
    hide Stringify, IsPlain, Same;
    var p, q := StringifyAll(items), StringifyAll(others);
    var l, r := Join(p) + [RBRACKET] + x, Join(q) + [RBRACKET] + y;
    if items != [] { AllAt(items, 0); FirstUnit(items[0]); JoinSplits(p, RBRACKET, x); assert l[0] == p[0][0]; } else {
      assert l == [RBRACKET] + x;
    }
    if others != [] { AllAt(others, 0); FirstUnit(others[0]); JoinSplits(q, RBRACKET, y); assert r[0] == q[0][0]; }
        else {
      assert r == [RBRACKET] + y;
    }
    if items == [] {
      assert l[1..] == x && r[1..] == y;
    } else if others != [] {
      var x' := if |items| == 1 then [RBRACKET] + x else [COMMA] + (Join(p[1..]) + [RBRACKET] + x);
      var y' := if |others| == 1 then [RBRACKET] + y else [COMMA] + (Join(q[1..]) + [RBRACKET] + y);
      PlainReadsOneWay(items[0], others[0], x', y');
      assert x'[0] == y'[0] && x'[1..] == y'[1..];
      if |items| == 1 {
        assert x'[1..] == x && y'[1..] == y;
      } else {
        assert x'[1..] == Join(p[1..]) + [RBRACKET] + x && y'[1..] == Join(q[1..]) + [RBRACKET] + y;
        ItemsReadOneWay(items[1..], others[1..], x, y);
        forall i | 0 <= i < |items| ensures Same(items[i], others[i]) {
          if i > 0 { assert items[i] == items[1..][i - 1] && others[i] == others[1..][i - 1]; }
        }
      }
    }
  }

  lemma {:induction false} EntryReadsOneWay(e: Keyed<Text>, f: Keyed<Text>, v: Json, w: Json, x: Text, y: Text)
    requires IsPlain(v) && IsPlain(w) && e.value == Stringify(v) && f.value == Stringify(w) && Delimited(x)
              && Delimited(y)
    requires EntryText(e) + x == EntryText(f) + y
    ensures e == f && x == y
    decreases v, 3
  {
    hide Stringify, Escaped, IsPlain, Same;
    var p, q := [COLON] + (e.value + x), [COLON] + (f.value + y);
    assert EntryText(e) + x == [QUOTE] + (Escaped(e.key) + [QUOTE] + p);
    assert EntryText(f) + y == [QUOTE] + (Escaped(f.key) + [QUOTE] + q);
    DropFirst(QUOTE, QUOTE, Escaped(e.key) + [QUOTE] + p, Escaped(f.key) + [QUOTE] + q);
    QuotesAreUnambiguous(e.key, f.key, p, q);
    DropFirst(COLON, COLON, e.value + x, f.value + y);
    PlainReadsOneWay(v, w, x, y);
    SamePrefix(e.value, x, f.value, y);
  }

  ghost predicate RendersOf(p: seq<Keyed<Text>>, a: seq<Keyed<Json>>) {
    forall e :: e in p ==> exists i :: 0 <= i < |a| && e.key == a[i].key && e.value == Stringify(a[i].value)
  }

  lemma EntryTextOpens(e: Keyed<Text>)
    ensures EntryText(e) != [] && EntryText(e)[0] == QUOTE
  {
  }

  // The renderings of one object's properties can be told apart from those of another.
  lemma {:induction false} EntriesReadOneWay(
    a: seq<Keyed<Json>>, b: seq<Keyed<Json>>, p: seq<Keyed<Text>>, q: seq<Keyed<Text>>, x: Text, y: Text)
    requires forall i :: 0 <= i < |a| ==> IsPlain(a[i].value)
    requires forall i :: 0 <= i < |b| ==> IsPlain(b[i].value)
    requires RendersOf(p, a) && RendersOf(q, b)
    requires Join(EntryTexts(p)) + [RBRACE] + x == Join(EntryTexts(q)) + [RBRACE] + y
    ensures p == q && x == y
    decreases a, 0, 2 * |p|
  {
    hide Stringify, IsPlain, EntryText;
    var s, t := EntryTexts(p), EntryTexts(q);
    var l, r := Join(s) + [RBRACE] + x, Join(t) + [RBRACE] + y;
    if p != [] { JoinSplits(s, RBRACE, x); EntryTextOpens(p[0]); assert l[0] == QUOTE; } else {
      assert l == [RBRACE] + x;
    }
    if q != [] { JoinSplits(t, RBRACE, y); EntryTextOpens(q[0]); assert r[0] == QUOTE; } else {
      assert r == [RBRACE] + y;
    }
    if p == [] {
      assert l[1..] == x && r[1..] == y;
    } else if q != [] {
      var x' := if |p| == 1 then [RBRACE] + x else [COMMA] + (Join(s[1..]) + [RBRACE] + x);
      var y' := if |q| == 1 then [RBRACE] + y else [COMMA] + (Join(t[1..]) + [RBRACE] + y);
      assert p[0] in p && q[0] in q;
      var i :| 0 <= i < |a| && p[0].key == a[i].key && p[0].value == Stringify(a[i].value);
      var k :| 0 <= k < |b| && q[0].key == b[k].key && q[0].value == Stringify(b[k].value);
      EntryReadsOneWay(p[0], q[0], a[i].value, b[k].value, x', y');
      EntriesRest(a, b, p, q, x, y);
    }
  }

  lemma {:induction false} EntriesRest(
    a: seq<Keyed<Json>>, b: seq<Keyed<Json>>, p: seq<Keyed<Text>>, q: seq<Keyed<Text>>, x: Text, y: Text)
    requires p != [] && q != [] && p[0] == q[0]
    requires forall i :: 0 <= i < |a| ==> IsPlain(a[i].value)
    requires forall i :: 0 <= i < |b| ==> IsPlain(b[i].value)
    requires RendersOf(p, a) && RendersOf(q, b)
    requires (if |p| == 1 then [RBRACE] + x else [COMMA] + (Join(EntryTexts(p)[1..]) + [RBRACE] + x))
          == (if |q| == 1 then [RBRACE] + y else [COMMA] + (Join(EntryTexts(q)[1..]) + [RBRACE] + y))
    ensures p == q && x == y
    decreases a, 0, 2 * |p| - 1
  {
    hide Stringify, IsPlain, EntryTexts, Join, RendersOf;
    var m, n := Join(EntryTexts(p)[1..]) + [RBRACE] + x, Join(EntryTexts(q)[1..]) + [RBRACE] + y;
    DropFirst(if |p| == 1 then RBRACE else COMMA, if |q| == 1 then RBRACE else COMMA,
              if |p| == 1 then x else m, if |q| == 1 then y else n);
    if |p| > 1 {
      TailRenders(p, a);
      TailRenders(q, b);
      EntriesReadOneWay(a, b, p[1..], q[1..], x, y);
    }
    assert p == [p[0]] + p[1..] && q == [q[0]] + q[1..];
  }

  lemma TailRenders(p: seq<Keyed<Text>>, a: seq<Keyed<Json>>)
    requires p != [] && RendersOf(p, a)
    ensures RendersOf(p[1..], a) && EntryTexts(p)[1..] == EntryTexts(p[1..])
  {
    hide Stringify, EntryText;
    assert forall e :: e in p[1..] ==> e in p;
  }

  lemma {:induction false} PropertiesAreSame(a: seq<Keyed<Json>>, b: seq<Keyed<Json>>)
    requires DistinctKeys(a) && DistinctKeys(b) && SortedTexts(a) == SortedTexts(b)
    requires forall i :: 0 <= i < |a| ==> IsPlain(a[i].value)
    requires forall i :: 0 <= i < |b| ==> IsPlain(b[i].value)
    ensures forall i :: 0 <= i < |a| ==> HasCounterpart(a[i], b)
    ensures forall k :: 0 <= k < |b| ==> IsCounterpart(a, b[k])
    decreases a, 0
  {
    hide Stringify, IsPlain, Same, SortedTexts;
    SortedTextsAre(a);
    SortedTextsAre(b);
    forall i | 0 <= i < |a| ensures HasCounterpart(a[i], b) {
      var e := Keyed(a[i].key, Stringify(a[i].value));
      assert e in SortedTexts(a);
      var k :| 0 <= k < |b| && e.key == b[k].key && e.value == Stringify(b[k].value);
      PlainReadsOneWay(a[i].value, b[k].value, [], []);
    }
    forall k | 0 <= k < |b| ensures IsCounterpart(a, b[k]) {
      var e := Keyed(b[k].key, Stringify(b[k].value));
      assert e in SortedTexts(b);
      var i :| 0 <= i < |a| && e.key == a[i].key && e.value == Stringify(a[i].value);
      PlainReadsOneWay(a[i].value, b[k].value, [], []);
    }
  }

  // ---- Infinities ----

  /** The value as it is written: JSON.stringify writes null for an infinity. */
  function AsWritten(j: Json): Json
    decreases j
  {
    match j
    case Infinite(_) => Null
    case Array(items) => Array(seq(|items|, i requires 0 <= i < |items| => AsWritten(items[i])))
    case Object(entries) =>
      Object(seq(|entries|, i requires 0 <= i < |entries| => Keyed(entries[i].key, AsWritten(entries[i].value))))
    case _ => j
  }

  lemma {:induction false} WrittenIsPlain(j: Json)
    requires WellFormed(j)
    ensures IsPlain(AsWritten(j))
    decreases j
  {
    match j
    case Array(items) =>
      forall i | 0 <= i < |items| ensures IsPlain(AsWritten(items[i])) { WrittenIsPlain(items[i]); }
    case Object(entries) =>
      forall i | 0 <= i < |entries| ensures IsPlain(AsWritten(entries[i].value)) { WrittenIsPlain(entries[i].value); }
    case _ =>
  }

  lemma {:induction false} WrittenHasSameText(j: Json)
    ensures Stringify(AsWritten(j)) == Stringify(j)
    decreases j
  {
    match j
    case Array(items) =>
      var written := AsWritten(j).items;
      forall i | 0 <= i < |items| ensures StringifyAll(written)[i] == StringifyAll(items)[i] {
        AllAt(items, i);
        AllAt(written, i);
        WrittenHasSameText(items[i]);
      }
      assert StringifyAll(written) == StringifyAll(items);
    case Object(entries) =>
      var written := AsWritten(j).entries;
      forall i | 0 <= i < |entries| ensures StringifyEntries(written)[i] == StringifyEntries(entries)[i] {
        EntriesAt(entries, i);
        EntriesAt(written, i);
        WrittenHasSameText(entries[i].value);
      }
      assert StringifyEntries(written) == StringifyEntries(entries);
    case _ =>
  }

  lemma {:induction false} FiniteIsWritten(j: Json)
    requires IsFinite(j)
    ensures AsWritten(j) == j
    decreases j
  {
    match j
    case Array(items) =>
      forall i | 0 <= i < |items| ensures AsWritten(items[i]) == items[i] { FiniteIsWritten(items[i]); }
      assert AsWritten(j).items == items;
    case Object(entries) =>
      forall i | 0 <= i < |entries| ensures AsWritten(entries[i].value) == entries[i].value {
        FiniteIsWritten(entries[i].value);
      }
      assert AsWritten(j).entries == entries;
    case _ =>
  }

  // A value with an infinity is not the value it is written as.
  lemma {:induction false} InfiniteIsNotWritten(j: Json)
    requires WellFormed(j) && !IsFinite(j)
    ensures !Same(j, AsWritten(j))
    decreases j
  {
    match j
    case Array(items) =>
      var i :| 0 <= i < |items| && !IsFinite(items[i]);
      InfiniteIsNotWritten(items[i]);
    case Object(entries) =>
      var i :| 0 <= i < |entries| && !IsFinite(entries[i].value);
      InfiniteIsNotWritten(entries[i].value);
      NoCounterpart(entries, AsWritten(j).entries, i);
    case _ =>
  }

  lemma NoCounterpart(a: seq<Keyed<Json>>, b: seq<Keyed<Json>>, i: int)
    requires DistinctKeys(a) && 0 <= i < |a| == |b| && (forall k :: 0 <= k < |a| ==> a[k].key == b[k].key)
    requires !Same(a[i].value, b[i].value)
    ensures !HasCounterpart(a[i], b)
  {
    hide Same;
  }

  /**
   * A value's text reads one way only, up to key order and with infinities read as null, whatever
   * delimited text follows it.
   */
  lemma ReadsOneWay(j: Json, k: Json, x: Text, y: Text)
    requires WellFormed(j) && WellFormed(k) && Delimited(x) && Delimited(y)
    requires Stringify(j) + x == Stringify(k) + y
    ensures Same(AsWritten(j), AsWritten(k)) && x == y
  {
    hide Stringify, Same, AsWritten;
    WrittenIsPlain(j);
    WrittenIsPlain(k);
    WrittenHasSameText(j);
    WrittenHasSameText(k);
    PlainReadsOneWay(AsWritten(j), AsWritten(k), x, y);
  }

  /** Two bodies have the same text exactly when, with infinities read as null, they are equal up to key order. */
  lemma CanonicalIff(a: Json, b: Json)
    requires WellFormed(a) && WellFormed(b)
    ensures Stringify(a) == Stringify(b) <==> Same(AsWritten(a), AsWritten(b))
  {
    hide Stringify, Same, AsWritten;
    if Same(AsWritten(a), AsWritten(b)) {
      WrittenIsPlain(a);
      WrittenIsPlain(b);
      WrittenHasSameText(a);
      WrittenHasSameText(b);
      SameHasSameText(AsWritten(a), AsWritten(b));
    }
    if Stringify(a) == Stringify(b) { ReadsOneWay(a, b, [], []); }
  }

  /**
   * The text is a canonical form of exactly the finite bodies: one with an infinity shares its text
   * with a different body.
   */
  lemma CanonicalIffFinite(a: Json)
    requires WellFormed(a)
    ensures IsFinite(a) <==>
            forall b :: IsPlain(b) && Stringify(a) == Stringify(b) ==> Same(a, b)
  {
    hide Stringify, Same, AsWritten, WellFormed, IsFinite;
    if IsFinite(a) {
      FiniteIsWritten(a);
      forall b | IsPlain(b) && Stringify(a) == Stringify(b) ensures Same(a, b) {
        FiniteIsWritten(b);
        CanonicalIff(a, b);
      }
    } else {
      WrittenIsPlain(a);
      WrittenHasSameText(a);
      InfiniteIsNotWritten(a);
    }
  }

  /** The bodies {"a":1e400} and {"a":null} differ and have one text. */
  lemma InfinityIsWrittenAsNull()
    ensures var a, b := Object([Keyed([97], Infinite(false))]), Object([Keyed([97], Null)]);
            WellFormed(a) && WellFormed(b) && Stringify(a) == Stringify(b) && !Same(a, b)
  {
    var a, b := Object([Keyed([97], Infinite(false))]), Object([Keyed([97], Null)]);
    assert !IsFinite(a.entries[0].value);
    assert AsWritten(a).entries == b.entries;
    WrittenHasSameText(a);
    InfiniteIsNotWritten(a);
  }
}
