/** Which auth paths are let through, and what URL parsing makes of a path before it is routed. */
module AuthPaths {
  import opened Strings

  const PREFIX := "/api/auth/"

  // ---- The guard ----

  predicate IsUnreserved(c: char) {
    'A' <= c <= 'Z' || 'a' <= c <= 'z' || '0' <= c <= '9' || c == '.' || c == '_' || c == '~' || c == '-'
  }

  predicate IsCanonicalSegment(s: string) {
    && s != [] && (forall i :: 0 <= i < |s| ==> IsUnreserved(s[i]))
    && exists i :: 0 <= i < |s| && s[i] != '.'
  }

  predicate IsCanonicalAuthPath(p: string) {
    PREFIX <= p && var segments := Split(p[|PREFIX|..], "/");
                   forall i :: 0 <= i < |segments| ==> IsCanonicalSegment(segments[i])
  }

  function LowerAscii(c: char): char {
    if 'A' <= c <= 'Z' then c - 'A' + 'a' else c
  }

  function LowerChar(c: char, fold: char -> string): string {
    if c < '\U{80}' then [LowerAscii(c)] else fold(c)
  }

  /** String.prototype.toLowerCase; `fold` is what it makes of a character outside ASCII. */
  function Lower(p: string, fold: char -> string): string {
    if p == [] then [] else LowerChar(p[0], fold) + Lower(p[1..], fold)
  }

  predicate Includes(s: string, word: string) {
    word <= s || (s != [] && Includes(s[1..], word))
  }

  predicate AllSlashes(s: string) { forall i :: 0 <= i < |s| ==> s[i] == '/' }

  // The pattern ^base/*$.
  predicate MatchesBase(base: string, p: string) { base <= p && AllSlashes(p[|base|..]) }

  // The pattern ^base(/|$).
  predicate MatchesUnder(base: string, p: string) { base <= p && (|p| == |base| || p[|base|] == '/') }

  predicate IsDisabledLower(p: string) {
    || Includes(p, "password")
    || MatchesBase("/api/auth/sign-in/email", p) || MatchesBase("/api/auth/sign-up/email", p)
    || MatchesUnder("/api/auth/email-otp", p) || MatchesUnder("/api/auth/sign-in/email-otp", p)
    || MatchesBase("/api/auth/passkey/delete-passkey", p)
    || MatchesBase("/api/auth/expo-authorization-proxy", p)
  }

  predicate IsDisabledAuthPath(p: string, fold: char -> string) { IsDisabledLower(Lower(p, fold)) }

  predicate IsAuthPathAllowed(p: string, fold: char -> string) {
    IsCanonicalAuthPath(p) && !IsDisabledAuthPath(p, fold)
  }

  // ---- What the URL standard makes of a path ----

  predicate IsStripped(c: char) { c == '\t' || c == '\n' || c == '\r' }

  function Strip(p: string): string {
    if p == [] then [] else (if IsStripped(p[0]) then [] else [p[0]]) + Strip(p[1..])
  }

  function Slashed(p: string): (s: string)
    ensures |s| == |p| && forall i :: 0 <= i < |p| ==> s[i] == if p[i] == '\\' then '/' else p[i]
  {
    seq(|p|, i requires 0 <= i < |p| => if p[i] == '\\' then '/' else p[i])
  }

  predicate IsDotText(s: string) { s == "." || s == "%2e" || s == "%2E" }

  predicate IsSingleDot(s: string) { IsDotText(s) }

  predicate IsDoubleDot(s: string) {
    exists k :: 0 < k < |s| && IsDotText(s[..k]) && IsDotText(s[k..])
  }

  predicate IsDotSegment(s: string) { IsSingleDot(s) || IsDoubleDot(s) }

  /** The characters of a path that are written as they are. */
  predicate IsKept(c: char) {
    && ' ' < c <= '~' && c != '"' && c != '#' && c != '<' && c != '>' && c != '?' && c != '^' && c != '`'
    && c != '{' && c != '}'
  }

  function HexDigit(n: int): char
    requires 0 <= n < 16
  {
    if n < 10 then '0' + n as char else 'A' + (n - 10) as char
  }

  function Percent(b: int): (s: string)
    requires 0 <= b < 256
    ensures |s| == 3 && s[0] == '%'
  {
    ['%', HexDigit(b / 16), HexDigit(b % 16)]
  }

  /** The percent-encoded UTF-8 bytes of a character. */
  function PercentUtf8(c: char): string {
    var n := c as int;
    if n < 0x80 then Percent(n)
    else if n < 0x800 then Percent(0xC0 + n / 64) + Percent(0x80 + n % 64)
    else if n < 0x1_0000 then Percent(0xE0 + n / 4096) + Percent(0x80 + n / 64 % 64) + Percent(0x80 + n % 64)
    else
      Percent(0xF0 + n / 0x4_0000) + Percent(0x80 + n / 4096 % 64) + Percent(0x80 + n / 64 % 64)
      + Percent(0x80 + n % 64)
  }

  function Encode(s: string): string {
    if s == [] then [] else (if IsKept(s[0]) then [s[0]] else PercentUtf8(s[0])) + Encode(s[1..])
  }

  function Pop(stack: seq<string>): seq<string> { if stack == [] then [] else stack[..|stack| - 1] }

  /** Dot segments are resolved as in section 5.2.4 of RFC 3986; a trailing one leaves an empty segment. */
  function Resolve(stack: seq<string>, segments: seq<string>): seq<string>
    decreases |segments|
  {
    if segments == [] then stack
    else
      var s, end := segments[0], if |segments| == 1 then [""] else [];
      var next := if IsDoubleDot(s) then Pop(stack) + end
                  else if IsSingleDot(s) then stack + end
                  else stack + [Encode(s)];
      Resolve(next, segments[1..])
  }

  function Segments(p: string): seq<string> {
    var s := Slashed(Strip(p));
    Split(if s != [] && s[0] == '/' then s[1..] else s, "/")
  }

  /** The pathname of a URL built from this request path. */
  function Normalise(p: string): string { "/" + Join(Resolve([], Segments(p)), "/") }

  // ---- Paths that parsing leaves alone ----

  predicate IsClean(s: string) {
    (forall i :: 0 <= i < |s| ==> IsKept(s[i]) && s[i] != '/' && s[i] != '\\') && !IsDotSegment(s)
  }

  predicate AllClean(segments: seq<string>) { forall i :: 0 <= i < |segments| ==> IsClean(segments[i]) }

  lemma {:induction false} EncodeKeeps(s: string)
    requires forall i :: 0 <= i < |s| ==> IsKept(s[i])
    ensures Encode(s) == s
  {
    if s != [] {
      EncodeKeeps(s[1..]);
      assert s == [s[0]] + s[1..];
    }
  }

  lemma {:induction false} ResolveKeeps(stack: seq<string>, segments: seq<string>)
    requires AllClean(segments)
    ensures Resolve(stack, segments) == stack + segments
    decreases |segments|
  {
    hide IsKept, Encode, IsDoubleDot, IsSingleDot;
    if segments != [] {
      assert IsClean(segments[0]);
      EncodeKeeps(segments[0]);
      ResolveKeeps(stack + [segments[0]], segments[1..]);
      assert segments == [segments[0]] + segments[1..];
      assert stack + [segments[0]] + segments[1..] == stack + segments;
    }
  }

  lemma {:induction false} StripKeeps(p: string)
    requires forall i :: 0 <= i < |p| ==> !IsStripped(p[i])
    ensures Strip(p) == p
  {
    if p != [] {
      StripKeeps(p[1..]);
      assert p == [p[0]] + p[1..];
    }
  }

  lemma {:induction false} JoinChars(segments: seq<string>)
    requires AllClean(segments)
    ensures forall i :: 0 <= i < |Join(segments, "/")| ==>
              IsKept(Join(segments, "/")[i]) && Join(segments, "/")[i] != '\\'
    decreases |segments|
  {
    hide IsDotSegment;
    if segments != [] {
      assert IsClean(segments[0]);
      if |segments| > 1 { JoinChars(segments[1..]); }
    }
  }

  /** A path of clean segments is a fixed point of URL parsing. */
  lemma CleanIsFixed(segments: seq<string>)
    requires segments != [] && AllClean(segments)
    ensures Normalise("/" + Join(segments, "/")) == "/" + Join(segments, "/")
  {
    hide Resolve, IsClean, Join, Split;
    var body := Join(segments, "/");
    var p := "/" + body;
    JoinChars(segments);
    forall i | 0 <= i < |p| ensures IsKept(p[i]) && p[i] != '\\' && !IsStripped(p[i]) {
      assert i > 0 ==> p[i] == body[i - 1];
    }
    StripKeeps(p);
    assert Slashed(p) == p;
    assert p[1..] == body;
    forall i | 0 <= i < |segments| ensures '/' !in segments[i] { CleanHasNoSlash(segments[i]); }
    SplitJoin(segments, '/');
    ResolveKeeps([], segments);
    assert [] + segments == segments;
  }

  lemma CleanHasNoSlash(s: string)
    requires IsClean(s)
    ensures '/' !in s
  {
  }

  // Without a percent sign, only dots make a dot segment.
  lemma PlainDots(s: string, i: nat)
    requires IsDotSegment(s) && '%' !in s && i < |s|
    ensures s[i] == '.'
  {
    if IsDoubleDot(s) {
      var k :| 0 < k < |s| && IsDotText(s[..k]) && IsDotText(s[k..]);
      assert s[..k][0] == s[0] && s[k..][0] == s[k];
    }
  }

  lemma CanonicalIsClean(s: string)
    requires IsCanonicalSegment(s)
    ensures IsClean(s)
  {
    hide IsDotSegment;
    var i :| 0 <= i < |s| && s[i] != '.';
    if IsDotSegment(s) { PlainDots(s, i); }
  }

  /** Every canonical auth path is left exactly as written by URL parsing. */
  lemma CanonicalIsFixed(p: string)
    requires IsCanonicalAuthPath(p)
    ensures Normalise(p) == p
  {
    hide Normalise, IsCanonicalSegment, IsClean, Split;
    var rest := p[|PREFIX|..];
    var tail := Split(rest, "/");
    var segments := ["api", "auth"] + tail;
    forall i | 0 <= i < |segments| ensures IsClean(segments[i]) {
      if i >= 2 { CanonicalIsClean(tail[i - 2]); } else { BaseIsClean(); }
    }
    JoinSplit(rest, "/");
    assert segments[1..] == ["auth"] + tail && (["auth"] + tail)[1..] == tail;
    assert Join(segments, "/") == "api/" + Join(["auth"] + tail, "/");
    assert Join(["auth"] + tail, "/") == "auth/" + Join(tail, "/");
    assert p == PREFIX + rest;
    assert "/" + Join(segments, "/") == p;
    CleanIsFixed(segments);
  }

  lemma BaseIsClean()
    ensures IsClean("api") && IsClean("auth")
  {
    assert "api"[0] == 'a' && "auth"[0] == 'a';
    CanonicalIsClean("api");
    CanonicalIsClean("auth");
  }

  /** What the guard lets through is routed as it was judged, and is not disabled there either. */
  lemma AllowedIsRoutedAsJudged(p: string, fold: char -> string)
    requires IsAuthPathAllowed(p, fold)
    ensures Normalise(p) == p && !IsDisabledAuthPath(Normalise(p), fold)
  {
    CanonicalIsFixed(p);
  }

  // ---- Parsing twice changes nothing more ----

  lemma PercentIsKept(b: int)
    requires 0 <= b < 256
    ensures forall i :: 0 <= i < 3 ==> IsKept(Percent(b)[i]) && Percent(b)[i] != '/' && Percent(b)[i] != '\\'
    ensures b != 0x2E ==> !(Percent(b)[1] == '2' && (Percent(b)[2] == 'E' || Percent(b)[2] == 'e'))
  {
  }

  lemma DotIsKept()
    ensures IsKept('.')
  {
  }

  // The text of an encoded character starts with a percent sign that encodes no dot.
  lemma EncodedChar(c: char)
    requires !IsKept(c)
    ensures var e := PercentUtf8(c);
            && |e| >= 3 && e[0] == '%' && !(e[1] == '2' && (e[2] == 'E' || e[2] == 'e'))
            && forall i :: 0 <= i < |e| ==> IsKept(e[i]) && e[i] != '/' && e[i] != '\\'
  {
    hide Percent, IsKept;
    var n := c as int;
    DotIsKept();
    if n < 0x80 {
      PercentIsKept(n);
    } else if n < 0x800 {
      PercentIsKept(0xC0 + n / 64);
      PercentIsKept(0x80 + n % 64);
    } else if n < 0x1_0000 {
      PercentIsKept(0xE0 + n / 4096);
      PercentIsKept(0x80 + n / 64 % 64);
      PercentIsKept(0x80 + n % 64);
    } else {
      PercentIsKept(0xF0 + n / 0x4_0000);
      PercentIsKept(0x80 + n / 4096 % 64);
      PercentIsKept(0x80 + n / 64 % 64);
      PercentIsKept(0x80 + n % 64);
    }
  }

  // A percent sign that encodes something else than a dot.
  predicate HasOtherPercent(s: string) {
    exists k :: 0 <= k < |s| - 2 && s[k] == '%' && !(s[k + 1] == '2' && (s[k + 2] == 'E' || s[k + 2] == 'e'))
  }

  lemma DotsHaveNoOtherPercent(s: string)
    requires IsDotSegment(s)
    ensures !HasOtherPercent(s)
  {
    if IsDoubleDot(s) {
      var k :| 0 < k < |s| && IsDotText(s[..k]) && IsDotText(s[k..]);
      assert s == s[..k] + s[k..];
    }
  }

  lemma {:induction false} EncodeIsEither(s: string)
    ensures Encode(s) == s || HasOtherPercent(Encode(s))
  {
    hide IsKept, PercentUtf8;
    if s != [] {
      var rest := Encode(s[1..]);
      if !IsKept(s[0]) {
        EncodedChar(s[0]);
        var e := PercentUtf8(s[0]);
        assert (e + rest)[0] == e[0] && (e + rest)[1] == e[1] && (e + rest)[2] == e[2];
      } else {
        EncodeIsEither(s[1..]);
        assert s == [s[0]] + s[1..];
        if HasOtherPercent(rest) {
          var k :| 0 <= k < |rest| - 2 && rest[k] == '%'
              && !(rest[k + 1] == '2' && (rest[k + 2] == 'E' || rest[k + 2] == 'e'));
          var all := [s[0]] + rest;
          assert all[k + 1] == '%' && all[k + 2] == rest[k + 1] && all[k + 3] == rest[k + 2];
        }
      }
    }
  }

  lemma {:induction false} EncodedChars(s: string)
    requires '/' !in s && '\\' !in s
    ensures forall i :: 0 <= i < |Encode(s)| ==> IsKept(Encode(s)[i]) && Encode(s)[i] != '/' && Encode(s)[i] != '\\'
  {
    hide IsKept, PercentUtf8;
    if s != [] {
      assert s[0] in s;
      if !IsKept(s[0]) { EncodedChar(s[0]); }
      EncodedChars(s[1..]);
    }
  }

  lemma EncodeIsClean(s: string)
    requires '/' !in s && '\\' !in s && !IsDotSegment(s)
    ensures IsClean(Encode(s))
  {
    hide IsKept, IsDotSegment, Encode, HasOtherPercent;
    EncodedChars(s);
    EncodeIsEither(s);
    if IsDotSegment(Encode(s)) { DotsHaveNoOtherPercent(Encode(s)); }
  }

  lemma EmptyIsClean()
    ensures IsClean("")
  {
  }

  lemma {:induction false} ResolveIsClean(stack: seq<string>, segments: seq<string>)
    requires AllClean(stack)
    requires forall i :: 0 <= i < |segments| ==> '/' !in segments[i] && '\\' !in segments[i]
    ensures AllClean(Resolve(stack, segments))
    ensures segments != [] ==> Resolve(stack, segments) != []
    ensures segments == [] && stack != [] ==> Resolve(stack, segments) != []
    decreases |segments|
  {
    hide IsClean, Encode, IsDoubleDot, IsSingleDot;
    if segments != [] {
      var s, end := segments[0], if |segments| == 1 then [""] else [];
      EmptyIsClean();
      if !IsDotSegment(s) { EncodeIsClean(s); }
      var next := if IsDoubleDot(s) then Pop(stack) + end else if IsSingleDot(s) then stack + end
          else stack + [Encode(s)];
      ResolveIsClean(next, segments[1..]);
    }
  }

  /** Whatever the raw path, parsing its pathname once more changes nothing: no dot segment is left in any spelling. */
  lemma NormaliseIsIdempotent(p: string)
    ensures Normalise(Normalise(p)) == Normalise(p)
    ensures AllClean(Resolve([], Segments(p)))
  {
    hide Resolve, IsClean, Join, Split;
    var s := Slashed(Strip(p));
    var body := if s != [] && s[0] == '/' then s[1..] else s;
    assert '\\' !in body;
    PartsHaveNo(body, '/', '/');
    PartsHaveNo(body, '\\', '/');
    ResolveIsClean([], Segments(p));
    CleanIsFixed(Resolve([], Segments(p)));
  }

  // ---- The disabled verdict ----

  predicate SameUpToCase(p: string, q: string) {
    |p| == |q| && forall i :: 0 <= i < |p| ==> LowerAscii(p[i]) == LowerAscii(q[i])
  }

  lemma {:induction false} LowerIgnoresCase(p: string, q: string, fold: char -> string)
    requires SameUpToCase(p, q)
    ensures Lower(p, fold) == Lower(q, fold)
  {
    if p != [] { LowerIgnoresCase(p[1..], q[1..], fold); }
  }

  lemma {:induction false} LowerOfConcat(p: string, q: string, fold: char -> string)
    ensures Lower(p + q, fold) == Lower(p, fold) + Lower(q, fold)
  {
    hide Lower, LowerChar;
    if p == [] {
      assert p + q == q;
      LowerOfNone(p, fold);
    } else {
      LowerOfConcat(p[1..], q, fold);
      assert (p + q)[1..] == p[1..] + q && (p + q)[0] == p[0];
      LowerCons(p, fold);
      LowerCons(p + q, fold);
      Regroup(LowerChar(p[0], fold), Lower(p[1..], fold), Lower(q, fold));
    }
  }

  lemma LowerCons(p: string, fold: char -> string)
    requires p != []
    ensures Lower(p, fold) == LowerChar(p[0], fold) + Lower(p[1..], fold)
  {
  }

  lemma LowerOfNone(p: string, fold: char -> string)
    requires p == []
    ensures Lower(p, fold) == []
  {
  }

  lemma Regroup(a: string, b: string, c: string)
    ensures a + (b + c) == (a + b) + c
  {
  }

  lemma {:induction false} IncludesIgnoresSlash(s: string, word: string)
    requires word != [] && '/' !in word
    ensures Includes(s + "/", word) == Includes(s, word)
  {
    PrefixIgnoresSlash(s, word);
    if s == [] {
      assert (s + "/")[1..] == [];
    } else {
      IncludesIgnoresSlash(s[1..], word);
      assert (s + "/")[1..] == s[1..] + "/";
    }
  }

  lemma PrefixIgnoresSlash(s: string, word: string)
    requires word != [] && word[|word| - 1] != '/'
    ensures word <= s + "/" <==> word <= s
  {
    if word <= s + "/" {
      assert (s + "/")[|word| - 1] == word[|word| - 1];
      assert (s + "/")[..|word|] == s[..|word|];
    }
  }

  lemma BaseIgnoresSlash(base: string, p: string)
    requires base != [] && base[|base| - 1] != '/'
    ensures MatchesBase(base, p + "/") == MatchesBase(base, p)
    ensures MatchesUnder(base, p + "/") == MatchesUnder(base, p)
  {
    PrefixIgnoresSlash(p, base);
    if base <= p {
      assert (p + "/")[|base|..] == p[|base|..] + "/";
      assert forall i :: 0 <= i < |p| - |base| ==> (p[|base|..] + "/")[i] == p[|base|..][i];
    }
  }

  lemma SlashKeepsVerdict(p: string)
    ensures IsDisabledLower(p + "/") == IsDisabledLower(p)
  {
    hide Includes, MatchesBase, MatchesUnder;
    IncludesIgnoresSlash(p, "password");
    BaseIgnoresSlash("/api/auth/sign-in/email", p);
    BaseIgnoresSlash("/api/auth/sign-up/email", p);
    BaseIgnoresSlash("/api/auth/email-otp", p);
    BaseIgnoresSlash("/api/auth/sign-in/email-otp", p);
    BaseIgnoresSlash("/api/auth/passkey/delete-passkey", p);
    BaseIgnoresSlash("/api/auth/expo-authorization-proxy", p);
  }

  /** The verdict is the same in every ASCII case and with any number of trailing slashes, for every path. */
  lemma {:induction false} VerdictIgnoresCaseAndSlashes(p: string, q: string, slashes: string, fold: char -> string)
    requires SameUpToCase(p, q) && AllSlashes(slashes)
    ensures IsDisabledAuthPath(q + slashes, fold) == IsDisabledAuthPath(p, fold)
    decreases |slashes|
  {
    hide IsDisabledLower, Lower, SameUpToCase;
    if slashes == [] {
      assert q + slashes == q;
      LowerIgnoresCase(p, q, fold);
    } else {
      var fewer := slashes[..|slashes| - 1];
      VerdictIgnoresCaseAndSlashes(p, q, fewer, fold);
      assert q + slashes == (q + fewer) + "/";
      LowerOfConcat(q + fewer, "/", fold);
      LowerSlash(fold);
      SlashKeepsVerdict(Lower(q + fewer, fold));
    }
  }

  lemma LowerSlash(fold: char -> string)
    ensures Lower("/", fold) == "/"
  {
  }
}
