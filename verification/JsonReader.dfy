/** A reader of JSON texts as RFC 8259 lays them down, without white space, against which the canonical text is held. */
module JsonReader {
  import opened Base
  import opened StableJson

  datatype Read<T> = NoJson | Read(value: T, rest: Text)

  // ---- Strings, section 7 ----

  function ReadHexDigit(u: Unit): (n: Option<int>)
    ensures n.Some? ==> 0 <= n.value < 16
  {
    if 48 <= u <= 57 then Some(u - 48)
    else if 97 <= u <= 102 then Some(u - 97 + 10)
    else if 65 <= u <= 70 then Some(u - 65 + 10)
    else None
  }

  function ReadHex4(t: Text): Option<Unit>
    requires |t| == 4
  {
    var a, b, c, d := ReadHexDigit(t[0]), ReadHexDigit(t[1]), ReadHexDigit(t[2]), ReadHexDigit(t[3]);
    if a.None? || b.None? || c.None? || d.None? then None
    else Some(4096 * a.value + 256 * b.value + 16 * c.value + d.value)
  }

  /** The character a two-character escape stands for. */
  function ReadEscape(u: Unit): Option<Unit> {
    if u == 34 || u == 92 || u == 47 then Some(u)
    else if u == 98 then Some(8)
    else if u == 102 then Some(12)
    else if u == 110 then Some(10)
    else if u == 114 then Some(13)
    else if u == 116 then Some(9)
    else None
  }

  function Prepend(u: Unit, r: Read<Text>): Read<Text> {
    if r.Read? then Read([u] + r.value, r.rest) else NoJson
  }

  /** What stands before the next quotation mark, with the escapes resolved. */
  function ReadChars(t: Text): (r: Read<Text>)
    ensures r.Read? ==> |r.rest| < |t|
    decreases |t|
  {
    if t == [] then NoJson
    else if t[0] == 34 then Read([], t[1..])
    else if t[0] == 92 then
      if |t| < 2 then NoJson
      else if t[1] == 117 then
        if |t| < 6 || ReadHex4(t[2..6]).None? then NoJson
        else Prepend(ReadHex4(t[2..6]).value, ReadChars(t[6..]))
      else if ReadEscape(t[1]).None? then NoJson
      else Prepend(ReadEscape(t[1]).value, ReadChars(t[2..]))
    else if t[0] < 32 then NoJson
    else Prepend(t[0], ReadChars(t[1..]))
  }

  // ---- Values, sections 3 to 6 ----

  function NumberLength(t: Text): (n: nat)
    ensures n <= |t|
  {
    if t == [] || !IsNumberUnit(t[0]) then 0 else 1 + NumberLength(t[1..])
  }

  function ReadValue(t: Text): (r: Read<Json>)
    ensures r.Read? ==> |r.rest| < |t|
    decreases |t|, 0
  {
    if t == [] then NoJson
    else if t[0] == 34 then
      var s := ReadChars(t[1..]);
      if s.Read? then Read(String(s.value), s.rest) else NoJson
    else if t[0] == 91 then
      if |t| > 1 && t[1] == 93 then Read(Array([]), t[2..])
      else
        var items := ReadItems(t[1..]);
        if items.Read? then Read(Array(items.value), items.rest) else NoJson
    else if t[0] == 123 then
      if |t| > 1 && t[1] == 125 then Read(Object([]), t[2..])
      else
        var entries := ReadEntries(t[1..]);
        if entries.Read? then Read(Object(entries.value), entries.rest) else NoJson
    else if 48 <= t[0] <= 57 || t[0] == 45 then
      var n := NumberLength(t);
      if n == 0 then NoJson else Read(Number(t[..n]), t[n..])
    else ReadWord(t)
  }

  function ReadWord(t: Text): (r: Read<Json>)
    ensures r.Read? ==> |r.rest| < |t|
  {
    if |t| >= 4 && IsWord(t[..4], "null") then Read(Null, t[4..])
    else if |t| >= 4 && IsWord(t[..4], "true") then Read(Bool(true), t[4..])
    else if |t| >= 5 && IsWord(t[..5], "false") then Read(Bool(false), t[5..])
    else NoJson
  }

  predicate IsWord(t: Text, word: string) {
    |t| == |word| && forall i :: 0 <= i < |t| ==> t[i] == word[i] as int
  }

  /** The items of an array up to its bracket. */
  function ReadItems(t: Text): (r: Read<seq<Json>>)
    ensures r.Read? ==> |r.rest| < |t|
    decreases |t|, 1
  {
    var v := ReadValue(t);
    if v.NoJson? || v.rest == [] then NoJson
    else if v.rest[0] == 93 then Read([v.value], v.rest[1..])
    else if v.rest[0] == 44 then
      var more := ReadItems(v.rest[1..]);
      if more.Read? then Read([v.value] + more.value, more.rest) else NoJson
    else NoJson
  }

  /** The properties of an object up to its brace. */
  function ReadEntries(t: Text): (r: Read<seq<Keyed<Json>>>)
    ensures r.Read? ==> |r.rest| < |t|
    decreases |t|, 1
  {
    if t == [] || t[0] != 34 then NoJson
    else
      var key := ReadChars(t[1..]);
      if key.NoJson? || key.rest == [] || key.rest[0] != 58 then NoJson
      else
        var v := ReadValue(key.rest[1..]);
        if v.NoJson? || v.rest == [] then NoJson
        else if v.rest[0] == 125 then Read([Keyed(key.value, v.value)], v.rest[1..])
        else if v.rest[0] == 44 then
          var more := ReadEntries(v.rest[1..]);
          if more.Read? then Read([Keyed(key.value, v.value)] + more.value, more.rest) else NoJson
        else NoJson
  }

  // ---- Strings read back ----

  lemma HexIsRead(u: Unit)
    ensures ReadHex4(Hex4(u)) == Some(u)
  {
    Nibbles(u);
    DigitIsRead(u / 4096);
    DigitIsRead(u / 256 % 16);
    DigitIsRead(u / 16 % 16);
    DigitIsRead(u % 16);
  }

  lemma DigitIsRead(n: int)
    requires 0 <= n < 16
    ensures ReadHexDigit(HexDigit(n)) == Some(n)
  {
  }

  lemma EscapeIsRead(u: Unit, rest: Text)
    ensures ReadChars(Escape(u) + rest) == Prepend(u, ReadChars(rest))
  {
    hide ReadHex4, HexDigit;
    var t := Escape(u) + rest;
    assert t[|Escape(u)|..] == rest;
    assert t[0] == Escape(u)[0] && (|Escape(u)| > 1 ==> t[1] == Escape(u)[1]);
    if |Escape(u)| == 6 {
      assert t[2..6] == Hex4(u);
      HexIsRead(u);
    }
  }

  lemma PairIsRead(a: Unit, b: Unit, rest: Text)
    requires IsHigh(a) && IsLow(b)
    ensures ReadChars([a, b] + rest) == Prepend(a, Prepend(b, ReadChars(rest)))
  {
    var t := [a, b] + rest;
    assert t[1..] == [b] + rest && t[1..][1..] == rest;
  }

  lemma EndIsRead(rest: Text)
    ensures ReadChars([34] + rest) == Read([], rest)
  {
    assert ([34] + rest)[1..] == rest;
  }

  // The first character or pair, before text that reads as the rest of the string.
  lemma HeadIsRead(s: Text, more: Text, rest: Text)
    requires s != [] && ReadChars(more) == Read(s[HeadLength(s)..], rest)
    ensures ReadChars(HeadText(s) + more) == Read(s, rest)
  {
    hide Escape, ReadChars, IsHigh, IsLow;
    if StartsWithPair(s) {
      assert HeadText(s) == [s[0], s[1]];
      PairIsRead(s[0], s[1], more);
      assert s == [s[0]] + ([s[1]] + s[2..]);
    } else {
      EscapeIsRead(s[0], more);
      assert s == [s[0]] + s[1..];
    }
  }

  lemma EscapedUnfolds(s: Text, rest: Text)
    requires s != []
    ensures Escaped(s) + [34] + rest == HeadText(s) + (Escaped(s[HeadLength(s)..]) + [34] + rest)
  {
    hide HeadText;
  }

  /** Quoting loses nothing and writes only what a JSON string may hold: reading it gives the string back. */
  lemma {:induction false} QuoteIsRead(s: Text, rest: Text)
    ensures ReadChars(Escaped(s) + [34] + rest) == Read(s, rest)
    decreases |s|
  {
    hide ReadChars, HeadText, StartsWithPair;
    if s == [] {
      assert Escaped(s) + [34] + rest == [34] + rest;
      EndIsRead(rest);
    } else {
      hide Escaped;
      var tail := s[HeadLength(s)..];
      QuoteIsRead(tail, rest);
      EscapedUnfolds(s, rest);
      HeadIsRead(s, Escaped(tail) + [34] + rest, rest);
    }
  }

  // ---- Values read back ----

  /** JSON has no undefined; a parsed body holds none, and a missing body is one. */
  predicate IsDefined(j: Json)
    decreases j
  {
    match j
    case Undefined => false
    case Array(items) => forall i :: 0 <= i < |items| ==> IsDefined(items[i])
    case Object(entries) => forall i :: 0 <= i < |entries| ==> IsDefined(entries[i].value)
    case _ => true
  }

  /** A number that stands before this text ends there. */
  predicate Stops(rest: Text) { rest == [] || !IsNumberUnit(rest[0]) }

  lemma {:induction false} NumberIsMeasured(d: Text, rest: Text)
    requires Stops(rest) && forall i :: 0 <= i < |d| ==> IsNumberUnit(d[i])
    ensures NumberLength(d + rest) == |d|
  {
    hide IsNumberUnit;
    if d == [] {
      assert d + rest == rest;
    } else {
      NumberIsMeasured(d[1..], rest);
      assert (d + rest)[1..] == d[1..] + rest && (d + rest)[0] == d[0];
    }
  }

  lemma WordIsRead(j: Json, rest: Text)
    requires j.Null? || j.Bool?
    ensures ReadValue(Stringify(j) + rest) == Read(j, rest)
  {
    var word := Stringify(j);
    var t := word + rest;
    assert t[..|word|] == word && t[|word|..] == rest;
    assert t[0] == word[0];
    assert |t| >= 4 && t[..4][0] == t[0];
  }

  lemma LeafIsRead(j: Json, rest: Text)
    requires IsPlain(j) && IsDefined(j) && Stops(rest) && !j.Array? && !j.Object?
    ensures ReadValue(Stringify(j) + rest) == Read(j, rest)
  {
    hide ReadChars, Escaped;
    var t := Stringify(j) + rest;
    match j
    case Number(digits) =>
      NumberIsMeasured(digits, rest);
      assert t[0] == digits[0] && t[..|digits|] == digits && t[|digits|..] == rest;
    case String(text) =>
      assert t[0] == 34 && t[1..] == Escaped(text) + [34] + rest;
      QuoteIsRead(text, rest);
    case _ =>
      WordIsRead(j, rest);
  }

  /** Every text of a finite value reads as that value, up to the order of properties, and leaves what follows it. */
  ghost predicate IsReadAs(t: Text, j: Json, rest: Text) {
    var r := ReadValue(t);
    r.Read? && r.rest == rest && Same(r.value, j)
  }

  lemma SameLeaf(j: Json)
    requires !j.Array? && !j.Object?
    ensures Same(j, j)
  {
  }

  lemma {:induction false} PlainIsRead(j: Json, rest: Text)
    requires IsPlain(j) && IsDefined(j) && Stops(rest)
    ensures IsReadAs(Stringify(j) + rest, j, rest)
    decreases j, 2, 0
  {
    hide Stringify, ReadValue;
    match j
    case Array(items) =>
      ArrayIsRead(j, rest);
    case Object(entries) =>
      ObjectIsRead(j, rest);
    case _ =>
      LeafIsRead(j, rest);
      SameLeaf(j);
  }

  lemma {:induction false} ArrayIsRead(j: Json, rest: Text)
    requires IsPlain(j) && IsDefined(j) && j.Array?
    ensures IsReadAs(Stringify(j) + rest, j, rest)
    decreases j, 1, 0
  {
    hide ReadItems, Join, Stringify;
    ArrayText(j);
    var t := Stringify(j) + rest;
    if j.items == [] {
      assert StringifyAll(j.items) == [];
      assert t == [91, 93] + rest by { EmptyBrackets(91, 93, rest); }
      assert t[2..] == rest;
    } else {
      var body := Join(StringifyAll(j.items)) + [93] + rest;
      assert t == [91] + body;
      assert t[1..] == body;
      FirstOfItems(j, rest);
      ItemsAreRead(j, 0, rest);
      assert j.items[0..] == j.items;
    }
  }

  lemma EmptyBrackets(open: Unit, close: Unit, rest: Text)
    ensures [open] + Join([]) + [close] + rest == [open, close] + rest
  {
  }

  lemma FirstOfItems(j: Json, rest: Text)
    requires IsPlain(j) && j.Array? && j.items != []
    ensures var body := Join(StringifyAll(j.items)) + [93] + rest; body != [] && body[0] != 93
  {
    hide Join, Stringify;
    var parts := StringifyAll(j.items);
    JoinSplits(parts, 93, rest);
    AllAt(j.items, 0);
    FirstUnit(j.items[0]);
    assert (Join(parts) + [93] + rest)[0] == parts[0][0];
  }

  ghost predicate ItemsRead(r: Read<seq<Json>>, items: seq<Json>, k: nat, rest: Text)
    requires k <= |items|
  {
    && r.Read? && r.rest == rest && |r.value| == |items| - k
    && forall i :: 0 <= i < |r.value| ==> Same(r.value[i], items[k + i])
  }

  lemma {:induction false} ItemsAreRead(j: Json, k: nat, rest: Text)
    requires IsPlain(j) && IsDefined(j) && j.Array? && k < |j.items|
    ensures ItemsRead(ReadItems(Join(StringifyAll(j.items[k..])) + [93] + rest), j.items, k, rest)
    decreases j, 0, |j.items| - k
  {
    hide Join, Stringify, ReadValue;
    var items := j.items;
    var parts := StringifyAll(items[k..]);
    var t := Join(parts) + [93] + rest;
    JoinSplits(parts, 93, rest);
    assert parts[0] == Stringify(items[k]) && parts[1..] == StringifyAll(items[k + 1..]) by {
      assert items[k..][0] == items[k] && items[k..][1..] == items[k + 1..];
    }
    if k + 1 == |items| {
      PlainIsRead(items[k], [93] + rest);
      assert ([93] + rest)[1..] == rest;
    } else {
      var more := Join(StringifyAll(items[k + 1..])) + [93] + rest;
      PlainIsRead(items[k], [COMMA] + more);
      assert ([COMMA] + more)[1..] == more;
      ItemsAreRead(j, k + 1, rest);
    }
  }

  /** The text is that of the i-th property. */
  ghost predicate IsTextOf(e: Keyed<Text>, entries: seq<Keyed<Json>>, i: int) {
    0 <= i < |entries| && e.key == entries[i].key && e.value == Stringify(entries[i].value)
  }

  ghost predicate AllTextsOf(texts: seq<Keyed<Text>>, entries: seq<Keyed<Json>>) {
    forall e :: e in texts ==> exists i :: IsTextOf(e, entries, i)
  }

  /** What was read is a property of the object. */
  ghost predicate IsEntryOf(e: Keyed<Json>, entries: seq<Keyed<Json>>, i: int) {
    0 <= i < |entries| && e.key == entries[i].key && Same(e.value, entries[i].value)
  }

  ghost predicate IsReadFrom(e: Keyed<Json>, text: Keyed<Text>, entries: seq<Keyed<Json>>) {
    e.key == text.key && exists i :: IsEntryOf(e, entries, i)
  }

  ghost predicate EntriesRead(
    r: Read<seq<Keyed<Json>>>, texts: seq<Keyed<Text>>, entries: seq<Keyed<Json>>, rest: Text)
  {
    && r.Read? && r.rest == rest && |r.value| == |texts|
    && forall k :: 0 <= k < |texts| ==> IsReadFrom(r.value[k], texts[k], entries)
  }

  // One property, up to what follows its value.
  lemma EntryIsRead(e: Keyed<Text>, more: Text)
    ensures var t := EntryText(e) + more;
            && t != [] && t[0] == 34 && ReadChars(t[1..]) == Read(e.key, [58] + e.value + more)
            && ([58] + e.value + more)[1..] == e.value + more
  {
    hide ReadChars, Escaped;
    var t := EntryText(e) + more;
    assert t[1..] == Escaped(e.key) + [34] + ([58] + e.value + more);
    QuoteIsRead(e.key, [58] + e.value + more);
  }

  // The first property, when its value is followed by a brace or by a comma and more properties.
  lemma FirstEntryIsRead(e: Keyed<Text>, tail: Text, v: Json)
    requires tail != [] && (tail[0] == 125 || tail[0] == 44) && ReadValue(e.value + tail) == Read(v, tail)
    ensures ReadEntries(EntryText(e) + tail) ==
              if tail[0] == 125 then Read([Keyed(e.key, v)], tail[1..])
              else
                var more := ReadEntries(tail[1..]);
                if more.Read? then Read([Keyed(e.key, v)] + more.value, more.rest) else NoJson
  {
    hide ReadValue, ReadChars, EntryText;
    EntryIsRead(e, tail);
  }

  lemma {:induction false} EntriesAreRead(j: Json, texts: seq<Keyed<Text>>, rest: Text)
    requires IsPlain(j) && IsDefined(j) && j.Object? && texts != [] && AllTextsOf(texts, j.entries)
    ensures EntriesRead(ReadEntries(Join(EntryTexts(texts)) + [125] + rest), texts, j.entries, rest)
    decreases j, 0, |texts|
  {
    hide Join, Stringify, ReadValue, ReadEntries, EntryText, Same, IsPlain;
    var parts := EntryTexts(texts);
    JoinSplits(parts, 125, rest);
    assert parts[1..] == EntryTexts(texts[1..]);
    var e := texts[0];
    assert e in texts;
    var i :| IsTextOf(e, j.entries, i);
    var more := Join(EntryTexts(texts[1..])) + [125] + rest;
    var tail := if |texts| == 1 then [125] + rest else [COMMA] + more;
    ValueIsPlain(j, i);
    PlainIsRead(j.entries[i].value, tail);
    var v := ReadValue(e.value + tail).value;
    FirstEntryIsRead(e, tail, v);
    assert IsEntryOf(Keyed(e.key, v), j.entries, i);
    if |texts| == 1 {
      assert tail[1..] == rest;
    } else {
      assert tail[1..] == more;
      assert forall x :: x in texts[1..] ==> x in texts;
      EntriesAreRead(j, texts[1..], rest);
      OneMoreEntry(Keyed(e.key, v), texts, ReadEntries(more), j.entries, rest);
    }
  }

  lemma ValueIsPlain(j: Json, i: int)
    requires IsPlain(j) && j.Object? && 0 <= i < |j.entries|
    ensures IsPlain(j.entries[i].value)
  {
  }

  lemma OneMoreEntry(
    first: Keyed<Json>, texts: seq<Keyed<Text>>, r: Read<seq<Keyed<Json>>>, entries: seq<Keyed<Json>>, rest: Text)
    requires texts != [] && IsReadFrom(first, texts[0], entries) && EntriesRead(r, texts[1..], entries, rest)
    ensures EntriesRead(Read([first] + r.value, r.rest), texts, entries, rest)
  {
    hide IsReadFrom;
    var all := [first] + r.value;
    forall k | 0 <= k < |texts| ensures IsReadFrom(all[k], texts[k], entries) {
      if k > 0 {
        assert all[k] == r.value[k - 1] && texts[k] == texts[1..][k - 1];
        assert IsReadFrom(r.value[k - 1], texts[1..][k - 1], entries);
      }
    }
  }

  lemma {:induction false} ObjectIsRead(j: Json, rest: Text)
    requires IsPlain(j) && IsDefined(j) && j.Object?
    ensures IsReadAs(Stringify(j) + rest, j, rest)
    decreases j, 1, 0
  {
    hide ReadEntries, Join, Stringify, SortedTexts, EntryTexts;
    ObjectText(j);
    SortedTextsAre(j.entries);
    var texts := SortedTexts(j.entries);
    var t := Stringify(j) + rest;
    if j.entries == [] {
      assert EntryTexts(texts) == [];
      EmptyBrackets(123, 125, rest);
      assert t == [123, 125] + rest;
      assert t[2..] == rest;
    } else {
      var body := Join(EntryTexts(texts)) + [125] + rest;
      assert t == [123] + body;
      assert t[1..] == body;
      forall e | e in texts ensures exists i :: IsTextOf(e, j.entries, i) { TextHasEntry(j.entries, e); }
      EntriesAreRead(j, texts, rest);
      OpensWithQuote(texts, rest);
      EntriesAreSame(j, texts, ReadEntries(body).value, rest);
    }
  }

  lemma TextHasEntry(entries: seq<Keyed<Json>>, e: Keyed<Text>)
    requires DistinctKeys(entries) && e in SortedTexts(entries)
    ensures exists i :: IsTextOf(e, entries, i)
  {
    hide Stringify, SortedTexts;
    SortedTextsAre(entries);
    var i :| 0 <= i < |entries| && e.key == entries[i].key && e.value == Stringify(entries[i].value);
    assert IsTextOf(e, entries, i);
  }

  lemma OpensWithQuote(texts: seq<Keyed<Text>>, rest: Text)
    requires texts != []
    ensures var body := Join(EntryTexts(texts)) + [125] + rest; body != [] && body[0] == 34
  {
    hide Join, EntryText;
    var parts := EntryTexts(texts);
    JoinSplits(parts, 125, rest);
    EntryTextOpens(texts[0]);
    assert (Join(parts) + [125] + rest)[0] == parts[0][0];
  }

  // The properties that were read are those of the object, each once.
  lemma EntriesAreSame(j: Json, texts: seq<Keyed<Text>>, read: seq<Keyed<Json>>, rest: Text)
    requires j.Object? && DistinctKeys(j.entries) && texts == SortedTexts(j.entries)
    requires EntriesRead(Read(read, rest), texts, j.entries, rest)
    ensures Same(Object(read), j)
  {
    hide Stringify, SortedTexts, Same;
    SortedTextsAre(j.entries);
    forall k | 0 <= k < |read| ensures HasCounterpart(read[k], j.entries) {
      assert IsReadFrom(read[k], texts[k], j.entries);
      var i :| IsEntryOf(read[k], j.entries, i);
    }
    forall i | 0 <= i < |j.entries| ensures IsCounterpart(read, j.entries[i]) {
      var e := Keyed(j.entries[i].key, Stringify(j.entries[i].value));
      assert e in texts;
      var k :| 0 <= k < |texts| && texts[k] == e;
      assert IsReadFrom(read[k], texts[k], j.entries);
      var i' :| IsEntryOf(read[k], j.entries, i');
      assert i' == i;
    }
    SameObjects(read, j);
  }

  lemma SameObjects(read: seq<Keyed<Json>>, j: Json)
    requires j.Object?
    requires forall k :: 0 <= k < |read| ==> HasCounterpart(read[k], j.entries)
    requires forall i :: 0 <= i < |j.entries| ==> IsCounterpart(read, j.entries[i])
    ensures Same(Object(read), j)
  {
  }

  lemma {:induction false} WrittenIsDefined(j: Json)
    requires IsDefined(j)
    ensures IsDefined(AsWritten(j))
    decreases j
  {
    match j
    case Array(items) =>
      forall i | 0 <= i < |items| ensures IsDefined(AsWritten(items[i])) { WrittenIsDefined(items[i]); }
    case Object(entries) =>
      forall i | 0 <= i < |entries| ensures IsDefined(AsWritten(entries[i].value)) {
        WrittenIsDefined(entries[i].value);
      }
    case _ =>
  }

  /**
   * The canonical text of every parsed body is a JSON text, and reading it gives the body back: up to the
   * order of properties, and with null for an infinity.
   */
  lemma ReadUndoesStringify(j: Json)
    requires WellFormed(j) && IsDefined(j)
    ensures var r := ReadValue(Stringify(j)); r.Read? && r.rest == [] && Same(r.value, AsWritten(j))
  {
    hide Stringify, AsWritten, ReadValue, IsDefined, WellFormed, Same;
    WrittenIsPlain(j);
    WrittenIsDefined(j);
    WrittenHasSameText(j);
    PlainIsRead(AsWritten(j), []);
    assert Stringify(j) + [] == Stringify(j);
  }

  /** A missing body is hashed as a word that is no JSON text, so it is taken for no other body. */
  lemma MissingBody()
    ensures IsWord(Stringify(Undefined), "undefined") && ReadValue(Stringify(Undefined)).NoJson?
  {
  }

  // ---- Surrogates ----

  predicate IsPairedAt(t: Text, i: nat)
    requires i < |t|
  {
    && (0xD800 <= t[i] < 0xDC00 ==> i + 1 < |t| && 0xDC00 <= t[i + 1] < 0xE000)
    && (0xDC00 <= t[i] < 0xE000 ==> i > 0 && 0xD800 <= t[i - 1] < 0xDC00)
  }

  /** Every surrogate of the text has its partner: a text that is sent as UTF-8 is received as it was. */
  predicate IsWellFormed(t: Text) { forall i :: 0 <= i < |t| ==> IsPairedAt(t, i) }

  lemma HexIsAscii(u: Unit)
    ensures forall i :: 0 <= i < |Hex4(u)| ==> Hex4(u)[i] < 128
  {
  }

  lemma HeadIsWellFormed(s: Text)
    requires s != []
    ensures IsWellFormed(HeadText(s))
  {
    HexIsAscii(s[0]);
    hide Hex4;
    var t := HeadText(s);
    if |t| > 2 { assert t == [BACKSLASH, 117] + Hex4(s[0]); }
  }

  lemma WellFormedConcat(a: Text, b: Text)
    requires IsWellFormed(a) && IsWellFormed(b)
    ensures IsWellFormed(a + b)
  {
    var t := a + b;
    forall i: nat | i < |t| ensures IsPairedAt(t, i) {
      if i < |a| {
        assert IsPairedAt(a, i) && t[i] == a[i];
      } else {
        assert IsPairedAt(b, i - |a|) && t[i] == b[i - |a|];
      }
    }
  }

  lemma {:induction false} QuoteIsWellFormed(s: Text)
    ensures IsWellFormed(Escaped(s))
    decreases |s|
  {
    hide HeadText, IsWellFormed;
    if s == [] {
      EmptyIsWellFormed();
    } else {
      QuoteIsWellFormed(s[HeadLength(s)..]);
      HeadIsWellFormed(s);
      WellFormedConcat(HeadText(s), Escaped(s[HeadLength(s)..]));
    }
  }

  lemma EmptyIsWellFormed()
    ensures IsWellFormed([])
  {
  }
}
