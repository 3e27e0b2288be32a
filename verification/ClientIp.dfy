/** Client addresses as rate-limit bucket keys. */
module ClientIp {
  import opened Base
  import opened Strings

  // ---- Numerals ----

  function DigitChar(d: int): char
    requires 0 <= d < 16
  {
    if d < 10 then '0' + d as char else 'a' + (d - 10) as char
  }

  function DigitValue(c: char): int {
    if '0' <= c <= '9' then c as int - '0' as int
    else if 'a' <= c <= 'f' then c as int - 'a' as int + 10
    else if 'A' <= c <= 'F' then c as int - 'A' as int + 10
    else 16
  }

  /** The digits of the two bases in both cases, each with its value; nothing else is a digit. */
  lemma DigitsAre(c: char, i: nat)
    ensures i < 16 ==> DigitValue("0123456789abcdef"[i]) == i && DigitChar(i) == "0123456789abcdef"[i]
    ensures i < 6 ==> DigitValue("ABCDEF"[i]) == 10 + i
    ensures DigitValue(c) < 16 ==> c in "0123456789abcdef" || c in "ABCDEF"
    ensures DigitValue(c) <= 16
  {
    var v := DigitValue(c);
    if v < 16 {
      assert "0123456789abcdef"[v] == c || (v >= 10 && "ABCDEF"[v - 10] == c);
    }
  }

  // Division by the two bases in use.
  function Quotient(n: nat, base: nat): nat { if base == 10 then n / 10 else n / 16 }

  function Remainder(n: nat, base: nat): nat { if base == 10 then n % 10 else n % 16 }

  function Times(n: int, base: nat): int { if base == 10 then 10 * n else 16 * n }

  /** Number.prototype.toString: no leading zeros, lower case. */
  function Numeral(n: nat, base: nat): (s: string)
    requires base == 10 || base == 16
    ensures s != [] && forall i :: 0 <= i < |s| ==> DigitValue(s[i]) < base
    decreases n
  {
    if n < base then [DigitChar(n)] else Numeral(Quotient(n, base), base) + [DigitChar(Remainder(n, base))]
  }

  function Value(s: string, base: nat): int {
    if s == [] then 0 else Times(Value(s[..|s| - 1], base), base) + DigitValue(s[|s| - 1])
  }

  function DigitsPrefix(s: string, base: nat): nat
    ensures DigitsPrefix(s, base) <= |s|
  {
    if s == [] || DigitValue(s[0]) >= base then 0 else 1 + DigitsPrefix(s[1..], base)
  }

  /**
   * Number.parseInt on text that starts with neither space, sign nor 0x: the longest run of digits,
   * or not a number.
   */
  function ParseInt(s: string, base: nat): Option<int> {
    var n := DigitsPrefix(s, base);
    if n == 0 then None else Some(Value(s[..n], base))
  }

  lemma {:induction false} ValueOfNumeral(n: nat, base: nat)
    requires base == 10 || base == 16
    ensures Value(Numeral(n, base), base) == n
    decreases n
  {
    if n >= base {
      ValueOfNumeral(Quotient(n, base), base);
      var s := Numeral(n, base);
      assert s[..|s| - 1] == Numeral(Quotient(n, base), base);
    }
  }

  lemma {:induction false} AllDigits(s: string, base: nat)
    requires forall i :: 0 <= i < |s| ==> DigitValue(s[i]) < base
    ensures DigitsPrefix(s, base) == |s|
  {
    if s != [] { AllDigits(s[1..], base); }
  }

  lemma ParseNumeral(n: nat, base: nat)
    requires base == 10 || base == 16
    ensures ParseInt(Numeral(n, base), base) == Some(n)
  {
    var s := Numeral(n, base);
    AllDigits(s, base);
    ValueOfNumeral(n, base);
    assert s[..|s|] == s;
  }

  // ---- IPv6 text ----

  type Group = x: int | 0 <= x < 0x1_0000

  /** The eight 16-bit groups of an IPv6 address. */
  type Groups = g: seq<Group> | |g| == 8 witness [0, 0, 0, 0, 0, 0, 0, 0]

  function Hextets(g: seq<Group>): (parts: seq<string>)
    ensures |parts| == |g| && forall i :: 0 <= i < |g| ==> parts[i] == Numeral(g[i], 16)
  {
    seq(|g|, i requires 0 <= i < |g| => Numeral(g[i], 16))
  }

  /** How many zero groups stand at i. */
  function ZerosAt(g: seq<Group>, i: nat): (n: nat)
    requires i <= |g|
    ensures i + n <= |g| && (forall k :: i <= k < i + n ==> g[k] == 0) && (i + n < |g| ==> g[i + n] != 0)
    decreases |g| - i
  {
    if i == |g| || g[i] != 0 then 0 else 1 + ZerosAt(g, i + 1)
  }

  /** Where the first of the longest runs of zeros among the first n positions starts. */
  function LongestRun(g: seq<Group>, n: nat): (best: nat)
    requires 1 <= n <= |g|
    ensures best < n
    ensures forall i :: 0 <= i < n ==> ZerosAt(g, i) <= ZerosAt(g, best)
    ensures forall i :: 0 <= i < best ==> ZerosAt(g, i) < ZerosAt(g, best)
  {
    if n == 1 then 0
    else
      var best := LongestRun(g, n - 1);
      if ZerosAt(g, n - 1) > ZerosAt(g, best) then n - 1 else best
  }

  /** Canonical text, section 4 of RFC 5952: the first longest run of two or more zero groups is written "::". */
  function Serialise(g: Groups): string {
    var i := LongestRun(g, 8);
    var n := ZerosAt(g, i);
    if n < 2 then Join(Hextets(g), ":")
    else Join(Hextets(g[..i]), ":") + "::" + Join(Hextets(g[i + n..]), ":")
  }

  function ParsePart(part: string): seq<Option<int>> {
    if part == [] then [] else ParseAll(Split(part, ":"))
  }

  function ParseAll(parts: seq<string>): (r: seq<Option<int>>)
    ensures |r| == |parts| && forall i :: 0 <= i < |parts| ==> r[i] == ParseInt(parts[i], 16)
  {
    seq(|parts|, i requires 0 <= i < |parts| => ParseInt(parts[i], 16))
  }

  function Values(parsed: seq<Option<int>>): (r: seq<Group>)
    requires forall i :: 0 <= i < |parsed| ==> parsed[i].Some? && 0 <= parsed[i].value <= 0xFFFF
    ensures |r| == |parsed| && forall i :: 0 <= i < |parsed| ==> parsed[i] == Some(r[i])
  {
    seq(|parsed|, i requires 0 <= i < |parsed| => parsed[i].value)
  }

  function ExpandIpv6(canonical: string): Option<Groups> {
    var parts := Split(canonical, "::");
    if |parts| > 2 then None
    else
      var left := ParsePart(parts[0]);
      var right := if |parts| == 1 then [] else ParsePart(parts[1]);
      var missing := 8 - |left| - |right|;
      if (if |parts| == 1 then missing != 0 else missing < 0) then None
      else
        var groups := left + seq(missing, _ => Some(0)) + right;
        if forall i :: 0 <= i < |groups| ==> groups[i].Some? && 0 <= groups[i].value <= 0xFFFF then Some(Values(groups))
        else None
  }

  // ---- Reading canonical text back ----

  predicate Plain(s: string) {
    && (forall i :: 0 <= i < |s| - 1 ==> !(s[i] == ':' && s[i + 1] == ':'))
    && (s != [] ==> s[0] != ':' && s[|s| - 1] != ':')
  }

  lemma {:induction false} PlainIsWhole(s: string)
    requires forall i :: 0 <= i < |s| - 1 ==> !(s[i] == ':' && s[i + 1] == ':')
    ensures Split(s, "::") == [s]
    decreases |s|
  {
    if |s| >= 2 {
      assert s[..2] != "::" by { assert s[..2][0] == s[0] && s[..2][1] == s[1]; }
      PlainIsWhole(s[1..]);
      assert s == [s[0]] + s[1..];
    }
  }

  lemma {:induction false} PlainSplits(a: string, b: string)
    requires Plain(a) && Plain(b)
    ensures Split(a + "::" + b, "::") == [a, b]
  {
    SplitsAfter(a, b);
  }

  lemma {:induction false} SplitsAfter(a: string, b: string)
    requires forall i :: 0 <= i < |a| - 1 ==> !(a[i] == ':' && a[i + 1] == ':')
    requires a != [] ==> a[|a| - 1] != ':'
    requires Plain(b)
    ensures Split(a + "::" + b, "::") == [a, b]
    decreases |a|
  {
    var s := a + "::" + b;
    if a == [] {
      assert s[..2] == "::" && s[2..] == b;
      PlainIsWhole(b);
    } else {
      assert s[..2][0] == a[0] && (|a| > 1 ==> s[..2][1] == a[1]);
      assert s[..2] != "::";
      assert s[1..] == a[1..] + "::" + b;
      SplitsAfter(a[1..], b);
      assert a == [a[0]] + a[1..];
    }
  }

  lemma NumeralHasNo(n: nat, base: nat, c: char)
    requires (base == 10 || base == 16) && DigitValue(c) == 16
    ensures c !in Numeral(n, base)
  {
  }

  lemma {:induction false} HextetsArePlain(g: seq<Group>)
    ensures Plain(Join(Hextets(g), ":"))
    ensures g != [] ==> Join(Hextets(g), ":") != []
    decreases |g|
  {
    hide Numeral;
    if g != [] {
      var h := Numeral(g[0], 16);
      NumeralHasNo(g[0], 16, ':');
      assert ':' !in h;
      assert h[0] in h && h[|h| - 1] in h;
      if |g| > 1 {
        HextetsArePlain(g[1..]);
        assert Hextets(g)[1..] == Hextets(g[1..]);
        var rest := Join(Hextets(g[1..]), ":");
        assert Join(Hextets(g), ":") == h + ":" + rest;
        PlainJoin(h, rest);
      }
    }
  }

  lemma PlainJoin(h: string, rest: string)
    requires h != [] && ':' !in h && rest != [] && Plain(rest)
    ensures Plain(h + ":" + rest)
  {
    var s := h + ":" + rest;
    forall i | 0 <= i < |s| - 1 ensures !(s[i] == ':' && s[i + 1] == ':') {
      if i < |h| { assert s[i] in h; }
      else if i > |h| { assert s[i] == rest[i - |h| - 1] && s[i + 1] == rest[i - |h|]; }
    }
    assert s[0] in h;
  }

  lemma ParsesBack(g: seq<Group>)
    ensures |ParsePart(Join(Hextets(g), ":"))| == |g|
    ensures forall i :: 0 <= i < |g| ==> ParsePart(Join(Hextets(g), ":"))[i] == Some(g[i])
  {
    hide Numeral, ParseInt, Split, Join;
    if g != [] {
      HextetsArePlain(g);
      forall i | 0 <= i < |g| ensures ':' !in Hextets(g)[i] && ParseInt(Hextets(g)[i], 16) == Some(g[i]) {
        NumeralHasNo(g[i], 16, ':');
        ParseNumeral(g[i], 16);
      }
      SplitJoin(Hextets(g), ':');
    } else {
      EmptyJoin(Hextets(g));
    }
  }

  lemma EmptyJoin(parts: seq<string>)
    requires parts == []
    ensures Join(parts, ":") == []
  {
  }

  // What ExpandIpv6 makes of text with no "::", and of text with one.
  lemma ExpandsWhole(s: string, g: Groups)
    requires Split(s, "::") == [s] && |ParsePart(s)| == 8
    requires forall k :: 0 <= k < 8 ==> ParsePart(s)[k] == Some(g[k])
    ensures ExpandIpv6(s) == Some(g)
  {
    hide ParsePart, Split;
    var groups := ParsePart(s) + seq(0, _ => Some(0)) + [];
    assert groups == ParsePart(s);
    assert Values(groups) == g;
  }

  lemma ExpandsPair(s: string, a: string, b: string, g: Groups, i: nat, n: nat)
    requires Split(s, "::") == [a, b] && i + n <= 8 && |ParsePart(a)| == i && |ParsePart(b)| == 8 - i - n
    requires forall k :: 0 <= k < i ==> ParsePart(a)[k] == Some(g[k])
    requires forall k :: i <= k < i + n ==> g[k] == 0
    requires forall k :: i + n <= k < 8 ==> ParsePart(b)[k - i - n] == Some(g[k])
    ensures ExpandIpv6(s) == Some(g)
  {
    hide ParsePart, Split;
    var groups := ParsePart(a) + seq(n, _ => Some(0)) + ParsePart(b);
    assert forall k :: 0 <= k < 8 ==> groups[k] == Some(g[k]);
    assert Values(groups) == g;
  }

  /** Reading canonical text gives the groups back, for every address. */
  lemma ExpandInvertsSerialise(g: Groups)
    ensures ExpandIpv6(Serialise(g)) == Some(g)
  {
    hide Numeral, ParsePart, Split, Join, Plain, LongestRun, ZerosAt, ExpandIpv6;
    var i := LongestRun(g, 8);
    var n := ZerosAt(g, i);
    if n < 2 {
      HextetsArePlain(g);
      WholeSplit(g);
      ParsesBack(g);
      ExpandsWhole(Serialise(g), g);
    } else {
      var a, b := Join(Hextets(g[..i]), ":"), Join(Hextets(g[i + n..]), ":");
      HextetsArePlain(g[..i]);
      HextetsArePlain(g[i + n..]);
      PlainSplits(a, b);
      ParsesBack(g[..i]);
      ParsesBack(g[i + n..]);
      ExpandsPair(Serialise(g), a, b, g, i, n);
    }
  }

  lemma WholeSplit(g: seq<Group>)
    requires Plain(Join(Hextets(g), ":"))
    ensures Split(Join(Hextets(g), ":"), "::") == [Join(Hextets(g), ":")]
  {
    PlainIsWhole(Join(Hextets(g), ":"));
  }

  // ---- Bucket keys ----

  type Byte = x: int | 0 <= x < 256

  function Dotted(a: Byte, b: Byte, c: Byte, d: Byte): string {
    Join([Numeral(a, 10), Numeral(b, 10), Numeral(c, 10), Numeral(d, 10)], ".")
  }

  /** What isIP accepts as version 4. */
  ghost predicate IsIpv4(s: string) {
    exists a: Byte, b: Byte, c: Byte, d: Byte :: s == Dotted(a, b, c, d)
  }

  /** The text after a percent sign is the zone. */
  function WithoutZone(raw: string): string { Split(raw, "%")[0] }

  function KeyOf(g: Groups): string {
    if g[0] == 0 && g[1] == 0 && g[2] == 0 && g[3] == 0 && g[4] == 0 && g[5] == 0xFFFF
    then Dotted(g[6] / 256, g[6] % 256, g[7] / 256, g[7] % 256)
    else Join([Numeral(g[0], 16), Numeral(g[1], 16), Numeral(g[2], 16), Numeral(g[3], 16)], ":") + "::/64"
  }

  /** The bucket key; `parse` is what the platform's URL parser makes of an IPv6 host, if it accepts it. */
  ghost function NormalizeClientIp(raw: Option<string>, parse: string -> Option<Groups>): Option<string> {
    if raw.None? then None
    else
      var address := WithoutZone(raw.value);
      if IsIpv4(address) then Some(address)
      else if parse(address).None? then None
      else
        var hextets := ExpandIpv6(Serialise(parse(address).value));
        if hextets.None? then None else Some(KeyOf(hextets.value))
  }

  /** Which clients share a bucket: one IPv4 host however it is written, or one /64 network. */
  datatype Bucket = Host(a: Byte, b: Byte, c: Byte, d: Byte) | Network(prefix: seq<Group>)

  function BucketOf(g: Groups): Bucket {
    if g[..6] == [0, 0, 0, 0, 0, 0xFFFF] then Host(g[6] / 256, g[6] % 256, g[7] / 256, g[7] % 256)
    else Network(g[..4])
  }

  ghost predicate IsIn(raw: string, parse: string -> Option<Groups>, b: Bucket) {
    var address := WithoutZone(raw);
    if IsIpv4(address) then b.Host? && address == Dotted(b.a, b.b, b.c, b.d)
    else parse(address).Some? && b == BucketOf(parse(address).value)
  }

  function BucketKey(b: Bucket): string
    requires b.Network? ==> |b.prefix| == 4
  {
    if b.Host? then Dotted(b.a, b.b, b.c, b.d) else Join(Hextets(b.prefix), ":") + "::/64"
  }

  lemma NormalizeIs(raw: string, parse: string -> Option<Groups>, b: Bucket)
    requires IsIn(raw, parse, b)
    ensures b.Network? ==> |b.prefix| == 4
    ensures NormalizeClientIp(Some(raw), parse) == Some(BucketKey(b))
  {
    hide Numeral, Join, ExpandIpv6, Serialise, IsIpv4, WithoutZone;
    var address := WithoutZone(raw);
    if !IsIpv4(address) {
      var g := parse(address).value;
      ExpandInvertsSerialise(g);
      if b.Network? {
        assert Hextets(b.prefix) == [Numeral(g[0], 16), Numeral(g[1], 16), Numeral(g[2], 16), Numeral(g[3], 16)];
      }
    }
  }

  lemma NumeralIsInjective(m: nat, n: nat, base: nat)
    requires (base == 10 || base == 16) && Numeral(m, base) == Numeral(n, base)
    ensures m == n
  {
    ValueOfNumeral(m, base);
    ValueOfNumeral(n, base);
  }

  lemma HostKeyIsInjective(x: Bucket, y: Bucket)
    requires x.Host? && y.Host? && BucketKey(x) == BucketKey(y)
    ensures x == y
  {
    hide Numeral, Join, Split;
    var p := [Numeral(x.a, 10), Numeral(x.b, 10), Numeral(x.c, 10), Numeral(x.d, 10)];
    var q := [Numeral(y.a, 10), Numeral(y.b, 10), Numeral(y.c, 10), Numeral(y.d, 10)];
    NoDots(x.a); NoDots(x.b); NoDots(x.c); NoDots(x.d);
    NoDots(y.a); NoDots(y.b); NoDots(y.c); NoDots(y.d);
    SplitJoin(p, '.');
    SplitJoin(q, '.');
    assert p[0] == q[0] && p[1] == q[1] && p[2] == q[2] && p[3] == q[3];
    NumeralIsInjective(x.a, y.a, 10);
    NumeralIsInjective(x.b, y.b, 10);
    NumeralIsInjective(x.c, y.c, 10);
    NumeralIsInjective(x.d, y.d, 10);
  }

  lemma NoDots(n: nat)
    ensures '.' !in Numeral(n, 10)
  {
    NumeralHasNo(n, 10, '.');
  }

  lemma NetworkKeyIsInjective(x: Bucket, y: Bucket)
    requires x.Network? && y.Network? && |x.prefix| == |y.prefix| == 4 && BucketKey(x) == BucketKey(y)
    ensures x == y
  {
    hide Numeral, Join, Split;
    var p, q := Hextets(x.prefix), Hextets(y.prefix);
    SameStem(Join(p, ":"), Join(q, ":"), "::/64");
    forall i | 0 <= i < 4 ensures ':' !in p[i] && ':' !in q[i] {
      NumeralHasNo(x.prefix[i], 16, ':');
      NumeralHasNo(y.prefix[i], 16, ':');
    }
    SplitJoin(p, ':');
    SplitJoin(q, ':');
    forall i | 0 <= i < 4 ensures x.prefix[i] == y.prefix[i] {
      assert p[i] == q[i];
      NumeralIsInjective(x.prefix[i], y.prefix[i], 16);
    }
  }

  lemma SameStem(a: string, b: string, end: string)
    requires a + end == b + end
    ensures a == b
  {
    assert a == (a + end)[..|a|] && b == (b + end)[..|b|];
  }

  /** IPv4 keys hold no colon, IPv6 keys do. */
  lemma KeysDoNotCollide(x: Bucket, y: Bucket)
    requires x.Host? && y.Network? && |y.prefix| == 4
    ensures BucketKey(x) != BucketKey(y)
  {
    hide Numeral;
    HostKeyHasNo(x, ':');
    var stem := Join(Hextets(y.prefix), ":");
    assert BucketKey(y)[|stem|] == ':';
  }

  lemma HostKeyHasNo(x: Bucket, c: char)
    requires x.Host? && DigitValue(c) == 16 && c != '.'
    ensures c !in BucketKey(x)
  {
    hide Numeral;
    var p := [Numeral(x.a, 10), Numeral(x.b, 10), Numeral(x.c, 10), Numeral(x.d, 10)];
    NumeralHasNo(x.a, 10, c);
    NumeralHasNo(x.b, 10, c);
    NumeralHasNo(x.c, 10, c);
    NumeralHasNo(x.d, 10, c);
    assert p[1..][1..] == p[2..] && p[2..][1..] == p[3..];
    assert Join(p[3..], ".") == p[3];
    assert Join(p[2..], ".") == p[2] + "." + Join(p[3..], ".");
    assert Join(p[1..], ".") == p[1] + "." + Join(p[2..], ".");
    assert Join(p, ".") == p[0] + "." + Join(p[1..], ".");
  }

  /** Two clients get the same key exactly when they are in the same bucket. */
  lemma SameKeyIff(r: string, s: string, parse: string -> Option<Groups>, x: Bucket, y: Bucket)
    requires IsIn(r, parse, x) && IsIn(s, parse, y)
    ensures NormalizeClientIp(Some(r), parse).Some?
    ensures NormalizeClientIp(Some(r), parse) == NormalizeClientIp(Some(s), parse) <==> x == y
  {
    hide IsIn, BucketKey, NormalizeClientIp;
    NormalizeIs(r, parse, x);
    NormalizeIs(s, parse, y);
    if BucketKey(x) == BucketKey(y) {
      if x.Host? && y.Network? { KeysDoNotCollide(x, y); }
      if y.Host? && x.Network? { KeysDoNotCollide(y, x); }
      if x.Host? && y.Host? { HostKeyIsInjective(x, y); }
      if x.Network? && y.Network? { NetworkKeyIsInjective(x, y); }
    }
  }

  /** A client is in a bucket exactly when its address is one, and then it gets a key; anything else gets none. */
  lemma KeyedIff(raw: string, parse: string -> Option<Groups>)
    ensures NormalizeClientIp(Some(raw), parse).Some? <==> exists b :: IsIn(raw, parse, b)
  {
    hide ExpandIpv6, Serialise, KeyOf, Dotted, WithoutZone;
    var address := WithoutZone(raw);
    if IsIpv4(address) {
      var a: Byte, b: Byte, c: Byte, d: Byte :| address == Dotted(a, b, c, d);
      assert IsIn(raw, parse, Host(a, b, c, d));
    } else if parse(address).Some? {
      ExpandInvertsSerialise(parse(address).value);
      assert IsIn(raw, parse, BucketOf(parse(address).value));
    }
  }

  predicate IsMapped(g: Groups) { g[0] == g[1] == g[2] == g[3] == g[4] == 0 && g[5] == 0xFFFF }

  /** Two IPv6 clients share a key exactly when the upper 64 bits of their addresses are the same. */
  lemma SameNetworkIff(r: string, s: string, parse: string -> Option<Groups>, g: Groups, h: Groups)
    requires !IsIpv4(WithoutZone(r)) && !IsIpv4(WithoutZone(s))
    requires parse(WithoutZone(r)) == Some(g) && parse(WithoutZone(s)) == Some(h) && !IsMapped(g) && !IsMapped(h)
    ensures NormalizeClientIp(Some(r), parse) == NormalizeClientIp(Some(s), parse) <==>
              g[0] == h[0] && g[1] == h[1] && g[2] == h[2] && g[3] == h[3]
  {
    hide NormalizeClientIp, IsIpv4, WithoutZone;
    SameKeyIff(r, s, parse, BucketOf(g), BucketOf(h));
    assert g[..6][5] == g[5] && h[..6][5] == h[5];
    assert g[..4] == [g[0], g[1], g[2], g[3]] && h[..4] == [h[0], h[1], h[2], h[3]];
  }

  /** An IPv4-mapped address gets exactly the key of its IPv4 address. */
  lemma MappedGetsIpv4Key(raw: string, parse: string -> Option<Groups>, a: Byte, b: Byte, c: Byte, d: Byte)
    requires !IsIpv4(WithoutZone(raw))
              && parse(WithoutZone(raw)) == Some([0, 0, 0, 0, 0, 0xFFFF, 256 * a + b, 256 * c + d])
    ensures NormalizeClientIp(Some(raw), parse) == NormalizeClientIp(Some(Dotted(a, b, c, d)), parse)
  {
    hide ExpandIpv6, Serialise, Dotted, Split;
    HostKeyHasNo(Host(a, b, c, d), '%');
    SplitWhole(Dotted(a, b, c, d), '%');
    ExpandInvertsSerialise(parse(WithoutZone(raw)).value);
  }

  /** A zone does not change the key. */
  lemma ZoneDoesNotMatter(address: string, zone: string, parse: string -> Option<Groups>)
    requires '%' !in address
    ensures NormalizeClientIp(Some(address + "%" + zone), parse) == NormalizeClientIp(Some(address), parse)
  {
    SplitFirst(address, '%', zone);
    SplitWhole(address, '%');
    assert WithoutZone(address + "%" + zone) == address == WithoutZone(address);
  }
}
