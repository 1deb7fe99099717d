/** Where a cookie goes, told by the labels of hosts and the segments of paths. */
module CookieMatching {
  import opened TextLines
  import opened Cookies
  import opened CookieLaws

  // ----- parts of a text -----

  /** The parts of a text between its separators; one part more than there are separators. */
  function Parts(text: string, separator: char): (parts: seq<string>)
    ensures parts != []
  {
    if text == "" then [""]
    else
      var rest := Parts(text[1..], separator);
      if text[0] == separator then [""] + rest else [[text[0]] + rest[0]] + rest[1..]
  }

  /** The parts with a separator between any two. */
  function Glued(parts: seq<string>, separator: char): string {
    if parts == [] then ""
    else if |parts| == 1 then parts[0]
    else parts[0] + [separator] + Glued(parts[1..], separator)
  }

  lemma {:induction false} GluedParts(text: string, separator: char)
    ensures Glued(Parts(text, separator), separator) == text
  {
    if text != "" {
      GluedParts(text[1..], separator);
      var rest := Parts(text[1..], separator);
      if text[0] == separator {
        assert ([""] + rest)[1..] == rest;
      } else if |rest| > 1 {
        assert ([[text[0]] + rest[0]] + rest[1..])[1..] == rest[1..];
        assert text == [text[0]] + (rest[0] + [separator] + Glued(rest[1..], separator));
      }
    }
  }

  lemma {:induction false} PartsOfTwo(a: string, b: string, separator: char)
    ensures Parts(a + [separator] + b, separator) == Parts(a, separator) + Parts(b, separator)
  {
    if a == "" {
      assert (a + [separator] + b)[1..] == b;
    } else {
      PartsOfTwo(a[1..], b, separator);
      PartsCons(a[0], a[1..], separator);
      PartsCons(a[0], a[1..] + [separator] + b, separator);
      assert [a[0]] + a[1..] == a;
      assert [a[0]] + (a[1..] + [separator] + b) == a + [separator] + b;
      hide Parts;
      OneMoreChar(Parts(a[1..], separator), Parts(b, separator), a[0], separator);
    }
  }

  /** The parts of a text that has one more character in front. */
  function Led(c: char, parts: seq<string>, separator: char): seq<string>
    requires parts != []
  {
    if c == separator then [""] + parts else [[c] + parts[0]] + parts[1..]
  }

  lemma PartsCons(c: char, text: string, separator: char)
    ensures Parts([c] + text, separator) == Led(c, Parts(text, separator), separator)
  {
    assert ([c] + text)[1..] == text;
  }

  lemma OneMoreChar(a: seq<string>, b: seq<string>, c: char, separator: char)
    requires a != []
    ensures Led(c, a + b, separator) == Led(c, a, separator) + b
  {
    assert (a + b)[1..] == a[1..] + b;
  }

  lemma {:induction false} GluedOfTwo(a: seq<string>, b: seq<string>, separator: char)
    requires a != [] && b != []
    ensures Glued(a + b, separator) == Glued(a, separator) + [separator] + Glued(b, separator)
  {
    if |a| == 1 {
      assert (a + b)[1..] == b;
    } else {
      assert (a + b)[1..] == a[1..] + b;
      GluedOfTwo(a[1..], b, separator);
    }
  }

  predicate EndsWith<T(==)>(all: seq<T>, tail: seq<T>) {
    |tail| <= |all| && all[|all| - |tail|..] == tail
  }

  /** A text ends with a separator and `tail`, or is `tail`, exactly when its parts end with those of `tail`. */
  lemma SuffixByParts(text: string, tail: string, separator: char)
    ensures EndsWith(Parts(text, separator), Parts(tail, separator))
            <==> text == tail || HasSuffix(text, [separator] + tail)
  {
    var all, last := Parts(text, separator), Parts(tail, separator);
    GluedParts(text, separator);
    GluedParts(tail, separator);
    hide Parts, Glued;
    if HasSuffix(text, [separator] + tail) {
      var front := text[..|text| - |tail| - 1];
      assert text == front + ([separator] + tail) == front + [separator] + tail;
      PartsOfTwo(front, tail, separator);
      assert all[|all| - |last|..] == last;
    }
    if EndsWith(all, last) {
      var front := all[..|all| - |last|];
      assert all == front + last;
      if front != [] {
        GluedOfTwo(front, last, separator);
        assert text == Glued(front, separator) + ([separator] + tail);
      }
    }
  }

  /** The same of the beginning of a text. */
  lemma PrefixByParts(text: string, head: string, separator: char)
    ensures Parts(head, separator) <= Parts(text, separator) <==> text == head || head + [separator] <= text
  {
    var all, first := Parts(text, separator), Parts(head, separator);
    GluedParts(text, separator);
    GluedParts(head, separator);
    hide Parts, Glued;
    if head + [separator] <= text {
      var rest := text[|head| + 1..];
      assert text == (head + [separator]) + rest;
      PartsOfTwo(head, rest, separator);
    }
    if first <= all {
      var rest := all[|first|..];
      assert all == first + rest;
      if rest != [] {
        GluedOfTwo(first, rest, separator);
        assert text[..|head| + 1] == head + [separator];
      } else {
        assert all == first;
      }
    }
  }

  // ----- hosts and paths -----

  /** An address belongs to itself alone, a name to every domain whose labels its own end with. */
  predicate BelongsTo(host: string, domain: string, isIP: string -> bool) {
    if isIP(host) then host == domain else EndsWith(Parts(host, '.'), Parts(domain, '.'))
  }

  lemma HostMatchesByLabels(host: string, domain: string, isIP: string -> bool)
    ensures HostMatches(host, domain, isIP) <==> BelongsTo(host, domain, isIP)
  {
    SuffixByParts(host, domain, '.');
    hide Parts;
  }

  /** The segments of the cookie's path are the first of the other; behind a final slash there must be another one. */
  predicate LiesUnder(path: string, cookiePath: string) {
    var own, all := Parts(cookiePath, '/'), Parts(path, '/');
    if |own| > 1 && own[|own| - 1] == "" then own[..|own| - 1] <= all && |own| <= |all| else own <= all
  }

  lemma {:induction false} PartsOfNone(text: string, separator: char)
    requires separator !in text
    ensures Parts(text, separator) == [text]
  {
    if text != "" {
      PartsOfNone(text[1..], separator);
      assert [text[0]] + text[1..] == text;
    }
  }

  lemma {:induction false} LastPart(text: string, separator: char)
    ensures var parts := Parts(text, separator);
            |parts| > 1 && parts[|parts| - 1] == "" <==> text != "" && text[|text| - 1] == separator
  {
    if text != "" {
      LastPart(text[1..], separator);
    }
  }

  lemma PathMatchesBySegments(cookiePath: string, path: string)
    ensures PathMatches(cookiePath, path) <==> LiesUnder(path, cookiePath)
  {
    LastPart(cookiePath, '/');
    if cookiePath != "" && cookiePath[|cookiePath| - 1] == '/' {
      var base := cookiePath[..|cookiePath| - 1];
      assert cookiePath == base + ['/'] + "";
      PartsOfTwo(base, "", '/');
      PartsOfNone("", '/');
      PrefixByParts(path, base, '/');
      assert cookiePath[..|cookiePath| - 1] + "/" == cookiePath && HasSuffix(cookiePath, "/");
      hide Parts;
      SlashUnder(base, path);
    } else {
      PrefixByParts(path, cookiePath, '/');
      hide Parts;
      NoSlash(cookiePath, path);
    }
  }

  lemma SlashUnder(base: string, path: string)
    requires Parts(base, '/') <= Parts(path, '/') <==> path == base || base + "/" <= path
    ensures base + "/" <= path <==> Parts(base, '/') <= Parts(path, '/') && |Parts(base, '/')| < |Parts(path, '/')|
  {
    GluedParts(base, '/');
    GluedParts(path, '/');
    hide Parts, Glued;
    WholePrefix(Parts(base, '/'), Parts(path, '/'));
  }

  lemma WholePrefix<T>(a: seq<T>, b: seq<T>)
    ensures a <= b && |a| >= |b| ==> a == b
  {
  }

  lemma NoSlash(cookiePath: string, path: string)
    requires cookiePath == "" || cookiePath[|cookiePath| - 1] != '/'
    ensures PathMatches(cookiePath, path) <==> path == cookiePath || cookiePath + "/" <= path
  {
    if cookiePath <= path && path != cookiePath {
      assert path[..|cookiePath|] == cookiePath;
      assert cookiePath + "/" <= path <==> path[..|cookiePath| + 1] == cookiePath + "/";
    }
  }

  // ----- letters -----

  /** `text` in lower case, letter by letter. */
  predicate IsLower(text: string, lower: string) {
    |lower| == |text|
    && forall i | 0 <= i < |text| ::
         lower[i] == if 'A' <= text[i] <= 'Z' then (text[i] as int + 32) as char else text[i]
  }

  lemma LowerIsLower(text: string)
    ensures IsLower(text, Lower(text))
  {
  }

  lemma OneLower(text: string, a: string, b: string)
    requires IsLower(text, a) && IsLower(text, b)
    ensures a == b
  {
  }

  /** Two cookies have one key exactly when they agree in name, in path and, but for case, in the domain. */
  lemma KeysExactly(a: Cookie, b: Cookie)
    ensures KeyOf(a) == KeyOf(b)
            <==> a.name == b.name && a.path == b.path
                 && exists domain :: IsLower(a.domain, domain) && IsLower(b.domain, domain)
    ensures SameCookie(a, b) <==> KeyOf(a) == KeyOf(b)
  {
    LowerIsLower(a.domain);
    LowerIsLower(b.domain);
    if domain :| IsLower(a.domain, domain) && IsLower(b.domain, domain) {
      OneLower(a.domain, domain, Lower(a.domain));
      OneLower(b.domain, domain, Lower(b.domain));
    }
    hide IsLower;
  }

  // ----- what is sent -----

  /** The cookie may be sent to a URL whose host, in lower case, is `host`. */
  predicate MayBeSent(c: Cookie, domain: string, target: Url, host: string, now: int, isIP: string -> bool) {
    && (c.expires.At? ==> c.expires.time > now)
    && (c.secure ==> target.scheme == "https" || target.scheme == "wss")
    && (if c.hostOnly then host == domain else BelongsTo(host, domain, isIP))
    && LiesUnder(if "/" <= target.path then target.path else "/", c.path)
  }

  lemma MatchesExactly(c: Cookie, domain: string, target: Url, host: string, now: int, isIP: string -> bool)
    requires IsLower(c.domain, domain) && IsLower(target.hostname, host)
    ensures Matches(c, target, now, isIP) <==> MayBeSent(c, domain, target, host, now, isIP)
  {
    LowerIsLower(c.domain);
    LowerIsLower(target.hostname);
    OneLower(c.domain, domain, Lower(c.domain));
    OneLower(target.hostname, host, Lower(target.hostname));
    HostMatchesByLabels(host, domain, isIP);
    PathMatchesBySegments(c.path, RequestPath(target));
    hide Lower, IsLower, HostMatches, BelongsTo, PathMatches, LiesUnder;
  }

  /** What is sent to a URL is exactly what the jar holds and may be sent there, told by labels and segments. */
  lemma SentExactly(cookies: seq<Cookie>, target: Url, host: string, now: int, isIP: string -> bool, x: Cookie,
                    domain: string)
    requires IsLower(x.domain, domain) && IsLower(target.hostname, host)
    ensures x in ByPathLength(Matching(cookies, target, now, isIP))
            <==> x in cookies && MayBeSent(x, domain, target, host, now, isIP)
  {
    hide Matches, MayBeSent, ByPathLength, Matching, IsLower;
    SentExactlyWhenMatching(cookies, target, now, isIP, x);
    MatchesExactly(x, domain, target, host, now, isIP);
  }

  /** Pruning keeps exactly the cookies that do not expire, and those that expire later. */
  lemma {:induction false} PrunedExactly(cookies: seq<Cookie>, now: int, x: Cookie)
    ensures multiset(Prune(cookies, now))[x]
            == if x.expires.At? && x.expires.time <= now then 0 else multiset(cookies)[x]
  {
    if cookies != [] {
      PrunedExactly(cookies[..|cookies| - 1], now, x);
      assert cookies == cookies[..|cookies| - 1] + [cookies[|cookies| - 1]];
    }
  }

  // ----- order -----

  lemma {:induction false} PrunedInOrder(a: seq<Cookie>, b: seq<Cookie>, now: int)
    ensures Prune(a + b, now) == Prune(a, now) + Prune(b, now)
  {
    if b == [] {
      assert a + b == a;
    } else {
      hide IsExpired;
      assert (a + b)[..|a + b| - 1] == a + b[..|b| - 1];
      PrunedInOrder(a, b[..|b| - 1], now);
    }
  }

  lemma {:induction false} MatchingInOrder(a: seq<Cookie>, b: seq<Cookie>, target: Url, now: int, isIP: string -> bool)
    ensures Matching(a + b, target, now, isIP) == Matching(a, target, now, isIP) + Matching(b, target, now, isIP)
  {
    if b == [] {
      assert a + b == a;
    } else {
      hide Matches;
      assert (a + b)[..|a + b| - 1] == a + b[..|b| - 1];
      MatchingInOrder(a, b[..|b| - 1], target, now, isIP);
    }
  }

  lemma {:induction false} AcceptedInOrder(a: seq<Received>, b: seq<Received>, target: Url, now: int,
                                           isIP: string -> bool)
    ensures Accepted(target, a + b, now, isIP) == Accepted(target, a, now, isIP) + Accepted(target, b, now, isIP)
  {
    hide FromResponse;
    if b == [] {
      assert a + b == a;
    } else {
      assert (a + b)[..|a + b| - 1] == a + b[..|b| - 1];
      AcceptedInOrder(a, b[..|b| - 1], target, now, isIP);
    }
  }

  /** The first cookie with the key of another stands at `i`. */
  predicate FirstWithKey(cookies: seq<Cookie>, c: Cookie, i: nat) {
    i < |cookies| && KeyOf(cookies[i]) == KeyOf(c) && forall j | 0 <= j < i :: KeyOf(cookies[j]) != KeyOf(c)
  }

  /** A cookie replaces the first one with its key at its place; an expired one only removes it. */
  lemma {:induction false} ReplacedInPlace(cookies: seq<Cookie>, c: Cookie, now: int, i: nat)
    requires FirstWithKey(cookies, c, i)
    ensures Upsert(cookies, c, now)
            == if c.expires.At? && c.expires.time <= now then cookies[..i] + cookies[i + 1..] else cookies[i := c]
  {
    hide KeyOf;
    KeysExactly(cookies[0], c);
    if i > 0 {
      assert FirstWithKey(cookies[1..], c, i - 1);
      ReplacedInPlace(cookies[1..], c, now, i - 1);
      Behind(cookies, i, c);
    } else {
      assert cookies[..0] + cookies[1..] == cookies[1..] && [c] + cookies[1..] == cookies[0 := c];
    }
  }

  /** A cookie with a new key goes to the end, unless it has expired. */
  lemma {:induction false} AppendedWhenNew(cookies: seq<Cookie>, c: Cookie, now: int)
    requires forall j | 0 <= j < |cookies| :: KeyOf(cookies[j]) != KeyOf(c)
    ensures Upsert(cookies, c, now) == if c.expires.At? && c.expires.time <= now then cookies else cookies + [c]
  {
    hide KeyOf;
    if cookies != [] {
      KeysExactly(cookies[0], c);
      AppendedWhenNew(cookies[1..], c, now);
    }
  }

  lemma Behind(cookies: seq<Cookie>, i: nat, c: Cookie)
    requires 0 < i < |cookies|
    ensures [cookies[0]] + cookies[1..][i - 1 := c] == cookies[i := c]
    ensures [cookies[0]] + (cookies[1..][..i - 1] + cookies[1..][i..]) == cookies[..i] + cookies[i + 1..]
  {
  }

  // ----- what is accepted -----

  predicate Blank(c: char) {
    c == ' ' || c == '\t' || c == '\n' || c == '\r' || c as int == 0x0b || c as int == 0x0c
  }

  predicate AllBlank(text: string) {
    forall i | 0 <= i < |text| :: Blank(text[i])
  }

  /** `text` is `inner` between blanks, and `inner` neither starts nor ends with one. */
  predicate IsTrimmed(text: string, before: string, inner: string, after: string) {
    && text == before + inner + after && AllBlank(before) && AllBlank(after)
    && (inner != "" ==> !Blank(inner[0]) && !Blank(inner[|inner| - 1]))
  }

  lemma {:induction false} TrimmedLeft(before: string, rest: string)
    requires AllBlank(before) && (rest != "" ==> !Blank(rest[0]))
    ensures TrimLeft(before + rest) == rest
  {
    if before == "" {
      assert before + rest == rest;
    } else {
      assert (before + rest)[1..] == before[1..] + rest;
      TrimmedLeft(before[1..], rest);
    }
  }

  lemma {:induction false} TrimmedRight(rest: string, after: string)
    requires AllBlank(after) && (rest != "" ==> !Blank(rest[|rest| - 1]))
    ensures TrimRight(rest + after) == rest
  {
    if after == "" {
      assert rest + after == rest;
    } else {
      assert (rest + after)[..|rest + after| - 1] == rest + after[..|after| - 1];
      TrimmedRight(rest, after[..|after| - 1]);
    }
  }

  lemma {:induction false} OnlyBlanks(text: string)
    requires AllBlank(text)
    ensures TrimLeft(text) == ""
  {
    if text != "" {
      OnlyBlanks(text[1..]);
    }
  }

  lemma TrimmedExactly(text: string, before: string, inner: string, after: string)
    requires IsTrimmed(text, before, inner, after)
    ensures TrimSpace(text) == inner
  {
    if inner == "" {
      assert text == before + after;
      OnlyBlanks(text);
    } else {
      assert text == before + (inner + after);
      TrimmedLeft(before, inner + after);
      TrimmedRight(inner, after);
    }
  }

  lemma NormalizedExactly(text: string, before: string, inner: string, after: string)
    requires IsTrimmed(text, before, inner, after)
    ensures IsLower(if "." <= inner then inner[1..] else inner, NormalizeDomain(text))
  {
    TrimmedExactly(text, before, inner, after);
    LowerIsLower(TrimDot(inner));
    hide TrimSpace, IsLower;
  }

  lemma {:induction false} DotsCount(text: string)
    ensures |Parts(text, '.')| > 1 <==> '.' in text
  {
    if text != "" {
      DotsCount(text[1..]);
      assert text == [text[0]] + text[1..];
    }
  }

  /**
   * The response may set a cookie for the domain: none, or one that the host belongs to and that is not a bare suffix.
   */
  predicate MaySet(host: string, domain: string, isIP: string -> bool) {
    domain == "" || (BelongsTo(host, domain, isIP) && (domain == host || |Parts(domain, '.')| > 1))
  }

  /** Where a cookie of a response is stored: its own path, or that of the request up to its last slash. */
  predicate StoredPath(target: Url, own: string, path: string) {
    if "/" <= own then path == own
    else IsDefaultPath(if "/" <= target.path then target.path else "/", path)
  }

  /** The request path is the default path, a slash and a last segment; directly at the top it is a slash. */
  predicate IsDefaultPath(requested: string, path: string) {
    exists i :: 0 <= i < |requested| && requested[i] == '/' && '/' !in requested[i + 1..]
                && path == if i == 0 then "/" else requested[..i]
  }

  lemma DefaultPathExactly(requested: string)
    requires "/" <= requested
    ensures IsDefaultPath(requested, DefaultPath(requested))
  {
    var n := AfterLastSlash(requested);
    assert requested[0] == '/';
    assert requested[n - 1] == '/' && '/' !in requested[n - 1 + 1..];
  }

  /** A response's cookie is accepted exactly when it and the host have names and the domain may be set. */
  lemma AcceptedExactly(target: Url, c: Received, now: int, isIP: string -> bool, host: string, before: string,
                        inner: string, after: string, domain: string)
    requires IsLower(target.hostname, host) && IsTrimmed(c.domain, before, inner, after)
    requires IsLower(if "." <= inner then inner[1..] else inner, domain)
    ensures var stored := FromResponse(target, c, now, isIP);
            && (stored.Some? <==> c.name != "" && host != "" && MaySet(host, domain, isIP))
            && (stored.Some? ==>
                  var cookie := stored.value;
                  && cookie.name == c.name && cookie.value == c.value && cookie.secure == c.secure
                  && cookie.httpOnly == c.httpOnly && cookie.sameSite == c.sameSite
                  && cookie.hostOnly == (domain == "") && cookie.domain == (if domain == "" then host else domain)
                  && StoredPath(target, c.path, cookie.path) && cookie.expires == ExpiryOf(c, now))
  {
    LowerIsLower(target.hostname);
    OneLower(target.hostname, host, Lower(target.hostname));
    NormalizedExactly(c.domain, before, inner, after);
    OneLower(if "." <= inner then inner[1..] else inner, domain, NormalizeDomain(c.domain));
    HostMatchesByLabels(host, domain, isIP);
    DotsCount(domain);
    StoredPathExactly(target, c.path);
    hide Lower, IsLower, HostMatches, BelongsTo, NormalizeDomain, DefaultPath, StoredPath, RequestPath, ExpiryOf, Parts,
         IsTrimmed;
  }

  lemma StoredPathExactly(target: Url, own: string)
    ensures StoredPath(target, own, if "/" <= own then own else DefaultPath(RequestPath(target)))
  {
    assert "/" <= RequestPath(target);
    DefaultPathExactly(RequestPath(target));
    hide DefaultPath, IsDefaultPath;
  }

  /** The whole second that a time in nanoseconds falls into. */
  predicate SecondOf(time: int, second: int) {
    second % 1_000_000_000 == 0 && second <= time < second + 1_000_000_000
  }

  /** `wrapped` is what 64 bits with a sign keep of `n`. */
  predicate Wraps(n: int, wrapped: int, turns: int) {
    wrapped == n - turns * 0x1_0000_0000_0000_0000 && -0x8000_0000_0000_0000 <= wrapped < 0x8000_0000_0000_0000
  }

  /**
   * Max-Age goes before Expires: a negative one has expired already, and a positive one counts seconds from now, as far
   * as their nanoseconds fit into 64 bits. Without both the cookie lasts for the session.
   */
  lemma ExpiryExactly(c: Received, now: int)
    ensures var e := ExpiryOf(c, now);
            && (e == Session <==> c.maxAge == 0 && c.expires == None)
            && (c.maxAge < 0 ==> e.At? && SecondOf(now - 1_000_000_000, e.time))
            && (0 < c.maxAge <= 9_223_372_036 ==> e.At? && SecondOf(now + c.maxAge * 1_000_000_000, e.time))
            && (c.maxAge == 0 && c.expires.Some? ==> e.At? && SecondOf(c.expires.value, e.time))
            && (c.maxAge > 9_223_372_036 ==>
                  e.At? && exists wrapped: int, turns: int ::
                             Wraps(c.maxAge * 1_000_000_000, wrapped, turns) && SecondOf(now + wrapped, e.time))
  {
    hide Wrap64, WholeSecond, SecondOf;
    WholeSecondIs(now - SECOND);
    if c.expires.Some? {
      WholeSecondIs(c.expires.value);
    }
    if c.maxAge > 0 {
      LongAge(c.maxAge, now);
    }
  }

  lemma LongAge(maxAge: int, now: int)
    requires maxAge > 0
    ensures maxAge <= 9_223_372_036 ==>
              SecondOf(now + maxAge * 1_000_000_000, WholeSecond(now + Wrap64(maxAge * SECOND)))
    ensures exists wrapped: int, turns: int ::
              Wraps(maxAge * 1_000_000_000, wrapped, turns)
              && SecondOf(now + wrapped, WholeSecond(now + Wrap64(maxAge * SECOND)))
  {
    hide Wrap64, WholeSecond, SecondOf;
    var turns := WrapTurns(maxAge * SECOND);
    WholeSecondIs(now + Wrap64(maxAge * SECOND));
    assert Wraps(maxAge * 1_000_000_000, Wrap64(maxAge * SECOND), turns);
  }

  lemma WholeSecondIs(time: int)
    ensures SecondOf(time, WholeSecond(time))
  {
  }

  lemma WrapTurns(n: int) returns (turns: int)
    ensures Wrap64(n) == n - turns * 0x1_0000_0000_0000_0000
    ensures -0x8000_0000_0000_0000 <= Wrap64(n) < 0x8000_0000_0000_0000
    ensures -0x8000_0000_0000_0000 <= n < 0x8000_0000_0000_0000 ==> Wrap64(n) == n
  {
    turns := n / 0x1_0000_0000_0000_0000;
    if n % 0x1_0000_0000_0000_0000 >= 0x8000_0000_0000_0000 {
      turns := turns + 1;
    }
  }
}
