/** The auth routes the guard lets through, segment by segment. */
module AuthRoutes {
  import opened Strings
  import opened AuthPaths

  function LowerWord(s: string): (r: string)
    ensures |r| == |s|
  {
    seq(|s|, i requires 0 <= i < |s| => LowerAscii(s[i]))
  }

  function LowerAll(segments: seq<string>): (r: seq<string>)
    ensures |r| == |segments|
  {
    seq(|segments|, i requires 0 <= i < |segments| => LowerWord(segments[i]))
  }

  predicate Contains(s: string, word: string) { exists k :: 0 <= k <= |s| && word <= s[k..] }

  /** The routes below /api/auth that are switched off, in lower case. */
  predicate IsClosed(route: seq<string>) {
    || (exists i :: 0 <= i < |route| && Contains(route[i], "password"))
    || route == ["sign-in", "email"] || route == ["sign-up", "email"]
    || ["email-otp"] <= route || ["sign-in", "email-otp"] <= route
    || route == ["passkey", "delete-passkey"] || route == ["expo-authorization-proxy"]
  }

  function Route(segments: seq<string>): string { "/api/auth/" + Join(segments, "/") }

  predicate IsWord(s: string) { s != [] && '/' !in s }

  predicate AllWords(segments: seq<string>) {
    segments != [] && forall i :: 0 <= i < |segments| ==> IsWord(segments[i])
  }

  // ---- Characters ----

  const UPPERS := "ABCDEFGHIJKLMNOPQRSTUVWXYZ"

  const LOWERS := "abcdefghijklmnopqrstuvwxyz"

  lemma IsUpperLetter(c: char)
    ensures c in UPPERS <==> 'A' <= c <= 'Z'
  {
    if 'A' <= c <= 'Z' { assert UPPERS[c as int - 65] == c; }
  }

  lemma IsLowerLetter(c: char)
    ensures c in LOWERS <==> 'a' <= c <= 'z'
  {
    if 'a' <= c <= 'z' { assert LOWERS[c as int - 97] == c; }
  }

  lemma IsFigure(c: char)
    ensures c in "0123456789" <==> '0' <= c <= '9'
  {
    if '0' <= c <= '9' { assert "0123456789"[c as int - 48] == c; }
  }

  /** The unreserved characters of section 2.3 of RFC 3986. */
  lemma UnreservedIff(c: char)
    ensures IsUnreserved(c) <==>
              c in UPPERS || c in LOWERS || c in "0123456789" || c == '-' || c == '.' || c == '_' || c == '~'
  {
    IsUpperLetter(c);
    IsLowerLetter(c);
    IsFigure(c);
  }

  /** Lower case takes each of the 26 letters to its own small one and leaves every other character alone. */
  lemma LowerIs(c: char, i: nat)
    ensures i < 26 ==> LowerAscii(UPPERS[i]) == LOWERS[i]
    ensures c !in UPPERS ==> LowerAscii(c) == c
  {
    if 'A' <= c <= 'Z' { assert UPPERS[c as int - 65] == c; }
  }

  // ---- Joined segments ----

  lemma {:induction false} JoinIsOpenEnded(t: seq<string>)
    requires AllWords(t)
    ensures Join(t, "/") != [] && Join(t, "/")[|Join(t, "/")| - 1] != '/'
    decreases |t|
  {
    assert IsWord(t[0]);
    if |t| > 1 { JoinIsOpenEnded(t[1..]); }
  }

  // A path that starts with another and goes on at a slash has its segments first.
  lemma {:induction false} PrefixOfJoin(u: seq<string>, t: seq<string>)
    requires AllWords(u) && AllWords(t)
    ensures MatchesUnder(Join(u, "/"), Join(t, "/")) <==> u <= t
    decreases |u|
  {
    var a, b := u[0], t[0];
    assert IsWord(a) && IsWord(b);
    var x, y := Join(u, "/"), Join(t, "/");
    assert a <= x && b <= y;
    assert |u| > 1 ==> x[|a|] == '/' && x[|a| + 1..] == Join(u[1..], "/");
    assert |t| > 1 ==> y[|b|] == '/' && y[|b| + 1..] == Join(t[1..], "/");
    if MatchesUnder(x, y) {
      FirstsAreEqual(a, b, u, t);
    }
    if u <= t { assert a == b && u[1..] <= t[1..]; }
    if |u| > 1 && |t| > 1 && a == b {
      PrefixOfJoin(u[1..], t[1..]);
      UnderTails(a, Join(u[1..], "/"), Join(t[1..], "/"));
      assert u == [a] + u[1..] && t == [b] + t[1..];
    }
  }

  lemma UnderTails(a: string, x: string, y: string)
    ensures MatchesUnder(a + "/" + x, a + "/" + y) <==> MatchesUnder(x, y)
  {
    var p, q := a + "/" + x, a + "/" + y;
    assert q[|a| + 1..] == y && p[|a| + 1..] == x;
    if p <= q {
      forall i | 0 <= i < |x| ensures x[i] == y[i] { assert p[|a| + 1 + i] == q[|a| + 1 + i]; }
    }
  }

  lemma FirstsAreEqual(a: string, b: string, u: seq<string>, t: seq<string>)
    requires AllWords(u) && AllWords(t) && a == u[0] && b == t[0]
    requires MatchesUnder(Join(u, "/"), Join(t, "/"))
    ensures a == b && (|u| > 1 ==> |t| > 1)
  {
    var x, y := Join(u, "/"), Join(t, "/");
    assert IsWord(a) && IsWord(b);
    assert forall i :: 0 <= i < |a| ==> x[i] == a[i] && a[i] != '/';
    assert forall i :: 0 <= i < |b| ==> y[i] == b[i] && b[i] != '/';
    assert |u| > 1 ==> x[|a|] == '/';
    assert |t| > 1 ==> y[|b|] == '/';
    assert forall i :: 0 <= i < |x| ==> y[i] == x[i];
    assert |a| == |b|;
  }

  lemma UnderIff(u: seq<string>, t: seq<string>)
    requires AllWords(u) && AllWords(t)
    ensures MatchesUnder(Route(u), Route(t)) <==> u <= t
  {
    hide Join;
    PrefixOfJoin(u, t);
    UnderTails("/api/auth", Join(u, "/"), Join(t, "/"));
    assert "/api/auth" + "/" == "/api/auth/";
  }

  lemma BaseIff(u: seq<string>, t: seq<string>)
    requires AllWords(u) && AllWords(t)
    ensures MatchesBase(Route(u), Route(t)) <==> u == t
  {
    hide Join, Split;
    var x, y := Join(u, "/"), Join(t, "/");
    JoinIsOpenEnded(t);
    SplitJoin(u, '/');
    SplitJoin(t, '/');
    if MatchesBase(Route(u), Route(t)) {
      OpenEnded(Route(u), Route(t));
      assert x == Route(u)[10..] && y == Route(t)[10..];
    }
  }

  lemma OpenEnded(base: string, p: string)
    requires MatchesBase(base, p) && p != [] && p[|p| - 1] != '/'
    ensures p == base
  {
    assert p == base + p[|base|..];
  }

  // ---- Words in a path ----

  lemma {:induction false} IncludesIff(s: string, word: string)
    ensures Includes(s, word) <==> Contains(s, word)
  {
    if s != [] {
      IncludesIff(s[1..], word);
      if Contains(s[1..], word) {
        var k :| 0 <= k <= |s[1..]| && word <= s[1..][k..];
        assert s[k + 1..] == s[1..][k..];
      }
      if Contains(s, word) && !(word <= s) {
        var k :| 0 <= k <= |s| && word <= s[k..];
        assert s[0..] == s;
        assert s[1..][k - 1..] == s[k..];
      }
    }
    if word <= s { assert s[0..] == s; }
  }

  // A word without a slash lies on one side of a slash.
  lemma {:induction false} IncludesAroundSlash(a: string, b: string, word: string)
    requires word != [] && '/' !in word
    ensures Includes(a + "/" + b, word) <==> Includes(a, word) || Includes(b, word)
    decreases |a|
  {
    var s := a + "/" + b;
    PrefixAroundSlash(a, b, word);
    if a == [] {
      assert s[1..] == b;
    } else {
      IncludesAroundSlash(a[1..], b, word);
      assert s[1..] == a[1..] + "/" + b;
    }
  }

  lemma PrefixAroundSlash(a: string, b: string, word: string)
    requires word != [] && '/' !in word
    ensures word <= a + "/" + b <==> word <= a
  {
    var s := a + "/" + b;
    if word <= s {
      assert forall i :: 0 <= i < |word| ==> s[i] == word[i] && word[i] != '/';
      assert s[|a|] == '/';
      assert |word| <= |a|;
      assert s[..|word|] == a[..|word|];
    }
    if word <= a { assert s[..|word|] == a[..|word|]; }
  }

  lemma {:induction false} WordInRoute(t: seq<string>, word: string)
    requires t != [] && word != [] && '/' !in word
    ensures Includes(Join(t, "/"), word) <==> exists i :: 0 <= i < |t| && Contains(t[i], word)
    decreases |t|
  {
    hide Includes, Contains;
    IncludesIff(t[0], word);
    if |t| > 1 {
      IncludesAroundSlash(t[0], Join(t[1..], "/"), word);
      WordInRoute(t[1..], word);
      if exists i :: 0 <= i < |t| && Contains(t[i], word) {
        var i :| 0 <= i < |t| && Contains(t[i], word);
        if i > 0 { assert t[1..][i - 1] == t[i]; }
      }
    }
  }

  // ---- Lower case ----

  lemma {:induction false} LowerOfAscii(s: string, fold: char -> string)
    requires forall i :: 0 <= i < |s| ==> s[i] < '\U{80}'
    ensures Lower(s, fold) == LowerWord(s)
  {
    if s != [] {
      LowerOfAscii(s[1..], fold);
      assert LowerWord(s) == [LowerAscii(s[0])] + LowerWord(s[1..]);
    }
  }

  lemma LowerOfThree(a: string, b: string, c: string)
    ensures LowerWord(a + b + c) == LowerWord(a) + LowerWord(b) + LowerWord(c)
  {
  }

  lemma {:induction false} LowerOfJoin(t: seq<string>)
    ensures LowerWord(Join(t, "/")) == Join(LowerAll(t), "/")
    decreases |t|
  {
    hide LowerAscii;
    if |t| > 1 {
      LowerOfJoin(t[1..]);
      LowerOfThree(t[0], "/", Join(t[1..], "/"));
      assert LowerWord("/") == "/" by { SlashIsLower(); }
      assert LowerAll(t)[1..] == LowerAll(t[1..]);
    }
  }

  lemma SlashIsLower()
    ensures LowerWord("/") == "/" && LowerWord("/api/auth/") == "/api/auth/"
  {
  }

  predicate AllCanonical(segments: seq<string>) {
    segments != [] && forall i :: 0 <= i < |segments| ==> IsCanonicalSegment(segments[i])
  }

  lemma CanonicalWord(s: string)
    requires IsCanonicalSegment(s)
    ensures IsWord(s) && IsWord(LowerWord(s)) && forall i :: 0 <= i < |s| ==> s[i] < '\U{80}'
  {
    forall i | 0 <= i < |s| ensures s[i] != '/' && LowerAscii(s[i]) != '/' { assert IsUnreserved(s[i]); }
  }

  lemma CanonicalWords(t: seq<string>)
    requires AllCanonical(t)
    ensures AllWords(t) && AllWords(LowerAll(t))
  {
    hide IsCanonicalSegment, IsWord, LowerWord;
    forall i | 0 <= i < |t| ensures IsWord(t[i]) && IsWord(LowerWord(t[i])) { CanonicalWord(t[i]); }
  }

  lemma {:induction false} CanonicalIsAscii(t: seq<string>)
    requires AllCanonical(t)
    ensures forall i :: 0 <= i < |Join(t, "/")| ==> Join(t, "/")[i] < '\U{80}'
    decreases |t|
  {
    hide IsCanonicalSegment;
    CanonicalWord(t[0]);
    if |t| > 1 { CanonicalIsAscii(t[1..]); }
  }

  lemma LowerOfRoute(t: seq<string>, fold: char -> string)
    requires AllCanonical(t)
    ensures Lower(Route(t), fold) == Route(LowerAll(t))
  {
    hide Join, LowerAll, LowerWord, Lower, AllCanonical, LowerAscii;
    CanonicalIsAscii(t);
    assert forall i :: 0 <= i < 10 ==> "/api/auth/"[i] < '\U{80}';
    LowerOfAscii(Route(t), fold);
    LowerOfJoin(t);
    LowerOfThree("", "/api/auth/", Join(t, "/"));
    SlashIsLower();
    assert "" + "/api/auth/" + Join(t, "/") == Route(t);
    assert LowerWord("") == "";
  }

  // ---- The verdict ----

  lemma DisabledIff(t: seq<string>)
    requires AllWords(t)
    ensures IsDisabledLower(Route(t)) <==> IsClosed(t)
  {
    EmailRoutes();
    CodeRoutes();
    KeyRoute();
    ProxyRoute();
    hide Includes, Contains, MatchesBase, MatchesUnder, Join, Route;
    PasswordIn(t);
    BaseIff(["sign-in", "email"], t);
    BaseIff(["sign-up", "email"], t);
    BaseIff(["passkey", "delete-passkey"], t);
    BaseIff(["expo-authorization-proxy"], t);
    UnderIff(["email-otp"], t);
    UnderIff(["sign-in", "email-otp"], t);
  }

  lemma PasswordIn(t: seq<string>)
    requires t != []
    ensures Includes(Route(t), "password") <==> exists i :: 0 <= i < |t| && Contains(t[i], "password")
  {
    hide Includes, Contains, Join;
    WordInRoute(t, "password");
    IncludesAroundSlash("/api/auth", Join(t, "/"), "password");
    assert "/api/auth" + "/" + Join(t, "/") == Route(t);
    NoPasswordInPrefix();
  }

  lemma NoPasswordInPrefix()
    ensures !Includes("/api/auth", "password")
  {
    IncludesIff("/api/auth", "password");
    assert forall k :: 0 <= k <= 9 ==> "/api/auth"[k..] == [] || "/api/auth"[k..][0] != 'p' || |"/api/auth"[k..]| < 8;
  }

  lemma RouteOfOne(a: string)
    ensures Route([a]) == "/api/auth/" + a
  {
  }

  lemma RouteOfTwo(a: string, b: string)
    ensures Route([a, b]) == "/api/auth/" + a + "/" + b
  {
    assert [a, b][1..] == [b];
    assert Join([a, b], "/") == a + "/" + b;
  }

  lemma EmailRoutes()
    ensures Route(["sign-in", "email"]) == "/api/auth/sign-in/email"
    ensures Route(["sign-up", "email"]) == "/api/auth/sign-up/email"
  {
    hide Route;
    RouteOfTwo("sign-in", "email");
    RouteOfTwo("sign-up", "email");
  }

  lemma CodeRoutes()
    ensures Route(["email-otp"]) == "/api/auth/email-otp"
    ensures Route(["sign-in", "email-otp"]) == "/api/auth/sign-in/email-otp"
  {
    hide Route;
    RouteOfOne("email-otp");
    RouteOfTwo("sign-in", "email-otp");
  }

  lemma KeyRoute()
    ensures Route(["passkey", "delete-passkey"]) == "/api/auth/passkey/delete-passkey"
  {
    hide Route;
    RouteOfTwo("passkey", "delete-passkey");
  }

  lemma ProxyRoute()
    ensures Route(["expo-authorization-proxy"]) == "/api/auth/expo-authorization-proxy"
  {
    hide Route;
    RouteOfOne("expo-authorization-proxy");
  }

  /**
   * Exactly these paths are let through: canonical segments below /api/auth/ that, in lower case, are
   * not one of the closed routes.
   */
  lemma AllowedIff(segments: seq<string>, fold: char -> string)
    requires segments != [] && forall i :: 0 <= i < |segments| ==> '/' !in segments[i]
    ensures IsAuthPathAllowed(Route(segments), fold) <==> AllCanonical(segments) && !IsClosed(LowerAll(segments))
  {
    hide Join, Split, IsCanonicalSegment, IsDisabledLower, Lower, IsClosed;
    SplitJoin(segments, '/');
    assert Route(segments)[|PREFIX|..] == Join(segments, "/");
    if AllCanonical(segments) {
      LowerOfRoute(segments, fold);
      CanonicalWords(segments);
      DisabledIff(LowerAll(segments));
    }
  }

  /** And every path that is let through is one of them. */
  lemma AllowedIsRoute(p: string, fold: char -> string) returns (segments: seq<string>)
    requires IsAuthPathAllowed(p, fold)
    ensures p == Route(segments) && AllCanonical(segments) && !IsClosed(LowerAll(segments))
  {
    hide Join, Split, IsCanonicalSegment, IsDisabledLower, Lower, IsClosed;
    segments := Split(p[|PREFIX|..], "/");
    JoinSplit(p[|PREFIX|..], "/");
    PartsHaveNo(p[|PREFIX|..], '/', '/');
    assert p == PREFIX + p[|PREFIX|..];
    AllowedIff(segments, fold);
  }

  // ---- What URL parsing writes for a character ----

  /** The path percent-encode set of the URL standard. */
  lemma KeptIff(c: char)
    ensures !IsKept(c) <==>
              c as int <= 0x20 || c as int >= 0x7F || c in {'"', '#', '<', '>', '?', '^', '`', '{', '}'}
  {
  }

  function HexValue(c: char): int {
    if '0' <= c <= '9' then c as int - 0x30
    else if 'A' <= c <= 'F' then c as int - 0x41 + 10
    else -1
  }

  /** A byte is written as a percent sign and its two hexadecimal digits. */
  lemma PercentIsRead(b: int)
    requires 0 <= b < 256
    ensures Percent(b)[0] == '%' && HexValue(Percent(b)[1]) >= 0 && HexValue(Percent(b)[2]) >= 0
    ensures 16 * HexValue(Percent(b)[1]) + HexValue(Percent(b)[2]) == b
  {
  }

  /** The i-th byte of a percent-encoded text. */
  function ByteAt(e: string, i: nat): int
    requires 3 * i + 2 < |e|
  {
    16 * HexValue(e[3 * i + 1]) + HexValue(e[3 * i + 2])
  }

  predicate IsTail(b: int) { 0x80 <= b < 0xC0 }

  predicate IsTwoBytes(e: string, n: int) {
    && |e| == 6 && 0xC0 <= ByteAt(e, 0) < 0xE0 && IsTail(ByteAt(e, 1))
    && n == 64 * (ByteAt(e, 0) - 0xC0) + ByteAt(e, 1) - 0x80
  }

  predicate IsThreeBytes(e: string, n: int) {
    && |e| == 9 && 0xE0 <= ByteAt(e, 0) < 0xF0 && IsTail(ByteAt(e, 1)) && IsTail(ByteAt(e, 2))
    && n == 4096 * (ByteAt(e, 0) - 0xE0) + 64 * (ByteAt(e, 1) - 0x80) + ByteAt(e, 2) - 0x80
  }

  predicate IsFourBytes(e: string, n: int) {
    && |e| == 12 && 0xF0 <= ByteAt(e, 0) < 0xF8
    && IsTail(ByteAt(e, 1)) && IsTail(ByteAt(e, 2)) && IsTail(ByteAt(e, 3))
    && n == 0x4_0000 * (ByteAt(e, 0) - 0xF0) + 4096 * (ByteAt(e, 1) - 0x80) + 64 * (ByteAt(e, 2) - 0x80)
            + ByteAt(e, 3) - 0x80
  }

  /** The bytes are the UTF-8 of the character, by section 3 of RFC 3629. */
  lemma Utf8IsRead(c: char)
    ensures var n, e := c as int, PercentUtf8(c);
            if n < 0x80 then |e| == 3 && ByteAt(e, 0) == n
            else if n < 0x800 then IsTwoBytes(e, n)
            else if n < 0x1_0000 then IsThreeBytes(e, n)
            else IsFourBytes(e, n)
  {
    hide Percent, HexValue, IsFourBytes;
    var n := c as int;
    Digits64(n);
    if n < 0x80 {
      PercentIsRead(n);
    } else if n < 0x800 {
      PercentIsRead(0xC0 + n / 64);
      PercentIsRead(0x80 + n % 64);
    } else if n < 0x1_0000 {
      PercentIsRead(0xE0 + n / 4096);
      PercentIsRead(0x80 + n / 64 % 64);
      PercentIsRead(0x80 + n % 64);
    } else {
      FourBytesAreRead(c);
    }
  }

  lemma FourBytesAreRead(c: char)
    requires c as int >= 0x1_0000
    ensures IsFourBytes(PercentUtf8(c), c as int)
  {
    hide Percent, HexValue;
    var n := c as int;
    Digits64(n);
    PercentIsRead(0xF0 + n / 0x4_0000);
    PercentIsRead(0x80 + n / 4096 % 64);
    PercentIsRead(0x80 + n / 64 % 64);
    PercentIsRead(0x80 + n % 64);
  }

  lemma Digits64(n: int)
    requires 0 <= n < 0x11_0000
    ensures n == 64 * (n / 64) + n % 64 && n / 64 == 64 * (n / 4096) + n / 64 % 64
    ensures n / 4096 == 64 * (n / 0x4_0000) + n / 4096 % 64
    ensures n / 0x4_0000 < 5 && (n < 0x800 ==> n / 64 < 32) && (n < 0x1_0000 ==> n / 4096 < 16)
  {
    assert n / 64 / 64 == n / 4096 && n / 4096 / 64 == n / 0x4_0000;
  }
}
