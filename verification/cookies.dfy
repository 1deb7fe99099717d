/** The cookie jar: storing, matching and sending cookies, and the log of accepted changes.
    Times are nanoseconds; a stored expiry is a whole second, as its text form keeps no fraction. */
module Cookies {
  import opened TextLines

  /** `Expires` as text: none, a time, or text that does not parse as one. */
  datatype Expiry = Session | At(time: int) | Unreadable(text: string)

  datatype Cookie = Cookie(name: string, path: string, value: string, domain: string, secure: bool,
                           hostOnly: bool, httpOnly: bool, sameSite: string, expires: Expiry)

  /** A cookie as a response sets it; no expiry is the zero time. */
  datatype Received = Received(name: string, value: string, path: string, domain: string, secure: bool,
                               httpOnly: bool, sameSite: string, maxAge: int, expires: Option<int>)

  datatype Url = Url(scheme: string, hostname: string, path: string)

  const SECOND := 1_000_000_000

  // ----- text -----

  function TrimDot(text: string): string {
    if "." <= text then text[1..] else text
  }

  predicate HasSuffix(text: string, suffix: string) {
    |suffix| <= |text| && text[|text| - |suffix|..] == suffix
  }

  /** One more than the index of the last slash, or zero. */
  function AfterLastSlash(text: string): (n: nat)
    ensures n <= |text|
    ensures n > 0 ==> text[n - 1] == '/'
    ensures forall i | n <= i < |text| :: text[i] != '/'
  {
    if text == "" then 0
    else if text[|text| - 1] == '/' then |text|
    else AfterLastSlash(text[..|text| - 1])
  }

  // ----- expiry -----

  predicate IsExpired(c: Cookie, now: int) {
    c.expires.At? && c.expires.time <= now
  }

  function WholeSecond(time: int): int {
    time - time % SECOND
  }

  /** A product of 64-bit integers. */
  function Wrap64(n: int): int {
    var m := n % 0x1_0000_0000_0000_0000;
    if m < 0x8000_0000_0000_0000 then m else m - 0x1_0000_0000_0000_0000
  }

  function ExpiryOf(c: Received, now: int): Expiry {
    if c.maxAge < 0 then At(WholeSecond(now - SECOND))
    else if c.maxAge > 0 then At(WholeSecond(now + Wrap64(c.maxAge * SECOND)))
    else if c.expires.Some? then At(WholeSecond(c.expires.value))
    else Session
  }

  // ----- identity -----

  /** What makes two cookies the same: name, path and case-folded domain. */
  datatype Key = Key(name: string, path: string, domain: string)

  function KeyOf(c: Cookie): Key {
    Key(c.name, c.path, Lower(c.domain))
  }

  predicate SameCookie(a: Cookie, b: Cookie) {
    a.name == b.name && a.path == b.path && Lower(a.domain) == Lower(b.domain)
  }

  // ----- storing -----

  /** Replaces the first cookie with the same key, appends a new one, and removes it when it has expired. */
  function Upsert(cookies: seq<Cookie>, c: Cookie, now: int): seq<Cookie> {
    if cookies == [] then if IsExpired(c, now) then [] else [c]
    else if SameCookie(cookies[0], c) then (if IsExpired(c, now) then [] else [c]) + cookies[1..]
    else [cookies[0]] + Upsert(cookies[1..], c, now)
  }

  function UpsertAll(cookies: seq<Cookie>, changes: seq<Cookie>, now: int): seq<Cookie> {
    if changes == [] then cookies
    else Upsert(UpsertAll(cookies, changes[..|changes| - 1], now), changes[|changes| - 1], now)
  }

  function Prune(cookies: seq<Cookie>, now: int): seq<Cookie> {
    if cookies == [] then []
    else Prune(cookies[..|cookies| - 1], now)
         + (if IsExpired(cookies[|cookies| - 1], now) then [] else [cookies[|cookies| - 1]])
  }

  function Apply(cookies: seq<Cookie>, changes: seq<Cookie>, now: int): seq<Cookie> {
    Prune(UpsertAll(cookies, changes, now), now)
  }

  /** Each accepted cookie is applied on its own. */
  function ApplyEach(cookies: seq<Cookie>, changes: seq<Cookie>, now: int): seq<Cookie> {
    if changes == [] then cookies
    else Apply(ApplyEach(cookies, changes[..|changes| - 1], now), [changes[|changes| - 1]], now)
  }

  // ----- matching -----

  function CanonicalHost(target: Url): string {
    Lower(target.hostname)
  }

  function RequestPath(target: Url): string {
    if target.path == "" || !("/" <= target.path) then "/" else target.path
  }

  predicate HostMatches(host: string, domain: string, isIP: string -> bool) {
    host == domain || (!isIP(host) && HasSuffix(host, "." + domain))
  }

  predicate DomainMatches(c: Cookie, host: string, isIP: string -> bool) {
    if c.hostOnly then host == Lower(c.domain) else HostMatches(host, Lower(c.domain), isIP)
  }

  predicate PathMatches(cookiePath: string, path: string) {
    path == cookiePath ||
    (cookiePath <= path && (HasSuffix(cookiePath, "/") || path[|cookiePath|] == '/'))
  }

  function DefaultPath(path: string): string {
    var n := AfterLastSlash(path);
    if n <= 1 then "/" else path[..n - 1]
  }

  predicate IsSecure(target: Url) {
    target.scheme == "https" || target.scheme == "wss"
  }

  predicate Matches(c: Cookie, target: Url, now: int, isIP: string -> bool) {
    && !IsExpired(c, now) && (c.secure ==> IsSecure(target))
    && DomainMatches(c, CanonicalHost(target), isIP) && PathMatches(c.path, RequestPath(target))
  }

  function NormalizeDomain(domain: string): string {
    Lower(TrimDot(TrimSpace(domain)))
  }

  /** The cookie as stored, unless the response may not set it. */
  function FromResponse(target: Url, c: Received, now: int, isIP: string -> bool): Option<Cookie> {
    var host := CanonicalHost(target);
    var domain := NormalizeDomain(c.domain);
    var path := if "/" <= c.path then c.path else DefaultPath(RequestPath(target));
    if c.name == "" || host == "" then None
    else if domain != "" && !HostMatches(host, domain, isIP) then None
    else if domain != "" && domain != host && '.' !in domain then None
    else Some(Cookie(c.name, path, c.value, if domain == "" then host else domain, c.secure, domain == "",
                     c.httpOnly, c.sameSite, ExpiryOf(c, now)))
  }

  /** The cookies of a response that are accepted, in order. */
  function Accepted(target: Url, received: seq<Received>, now: int, isIP: string -> bool): seq<Cookie> {
    if received == [] then []
    else
      var stored := FromResponse(target, received[|received| - 1], now, isIP);
      Accepted(target, received[..|received| - 1], now, isIP) + (if stored.Some? then [stored.value] else [])
  }

  // ----- sending -----

  function Matching(cookies: seq<Cookie>, target: Url, now: int, isIP: string -> bool): seq<Cookie> {
    if cookies == [] then []
    else Matching(cookies[..|cookies| - 1], target, now, isIP)
         + (if Matches(cookies[|cookies| - 1], target, now, isIP) then [cookies[|cookies| - 1]] else [])
  }

  function InsertByPath(c: Cookie, sorted: seq<Cookie>): seq<Cookie> {
    if sorted != [] && |sorted[0].path| > |c.path| then [sorted[0]] + InsertByPath(c, sorted[1..]) else [c] + sorted
  }

  /** `sort.SliceStable` by decreasing path length. */
  function ByPathLength(cookies: seq<Cookie>): seq<Cookie> {
    if cookies == [] then [] else InsertByPath(cookies[0], ByPathLength(cookies[1..]))
  }

  function Pairs(cookies: seq<Cookie>): (r: seq<(string, string)>)
    ensures |r| == |cookies|
    ensures forall i | 0 <= i < |r| :: r[i] == (cookies[i].name, cookies[i].value)
  {
    if cookies == [] then []
    else Pairs(cookies[..|cookies| - 1]) + [(cookies[|cookies| - 1].name, cookies[|cookies| - 1].value)]
  }

  // ----- the imperative parts -----

  /** The first `position` cookies are kept, and the rest is still to be searched. */
  ghost predicate Searched(cookies: seq<Cookie>, cookie: Cookie, now: int, position: nat)
    requires position <= |cookies|
  {
    Upsert(cookies, cookie, now) == cookies[..position] + Upsert(cookies[position..], cookie, now)
  }

  lemma Shift<T>(all: seq<T>, i: nat, tail: seq<T>)
    requires i < |all|
    ensures all[..i] + ([all[i]] + tail) == all[..i + 1] + tail
  {
  }

  lemma Replace<T>(all: seq<T>, i: nat, x: T)
    requires i < |all|
    ensures all[i := x] == all[..i] + ([x] + all[i + 1..])
    ensures all[..i] + ([] + all[i + 1..]) == all[..i] + all[i + 1..]
  {
  }

  lemma SearchStep(cookies: seq<Cookie>, cookie: Cookie, now: int, position: nat)
    requires position < |cookies| && Searched(cookies, cookie, now, position)
    ensures SameCookie(cookies[position], cookie) ==>
              Upsert(cookies, cookie, now)
              == if IsExpired(cookie, now) then cookies[..position] + cookies[position + 1..]
                 else cookies[position := cookie]
    ensures !SameCookie(cookies[position], cookie) ==> Searched(cookies, cookie, now, position + 1)
  {
    hide SameCookie, IsExpired;
    var rest := cookies[position..];
    assert rest[0] == cookies[position] && rest[1..] == cookies[position + 1..];
    if SameCookie(cookies[position], cookie) {
      Replace(cookies, position, cookie);
    } else {
      Shift(cookies, position, Upsert(rest[1..], cookie, now));
    }
  }

  lemma SearchEnds(cookies: seq<Cookie>, cookie: Cookie, now: int)
    ensures Searched(cookies, cookie, now, 0)
    ensures Searched(cookies, cookie, now, |cookies|) ==>
              Upsert(cookies, cookie, now) == if IsExpired(cookie, now) then cookies else cookies + [cookie]
  {
    assert cookies[0..] == cookies && [] + Upsert(cookies, cookie, now) == Upsert(cookies, cookie, now);
    assert cookies[|cookies|..] == [] && cookies[..|cookies|] == cookies && cookies + [] == cookies;
  }

  method UpsertCookie(cookies: seq<Cookie>, cookie: Cookie, now: int) returns (result: seq<Cookie>)
    ensures result == Upsert(cookies, cookie, now)
  {
    hide SameCookie, Searched, Upsert, IsExpired;
    var expired := IsExpired(cookie, now);
    SearchEnds(cookies, cookie, now);
    for position := 0 to |cookies|
      invariant Searched(cookies, cookie, now, position)
    {
      SearchStep(cookies, cookie, now, position);
      if !SameCookie(cookies[position], cookie) {
        continue;
      }
      if expired {
        return cookies[..position] + cookies[position + 1..];
      }
      return cookies[position := cookie];
    }
    if expired {
      return cookies;
    }
    return cookies + [cookie];
  }

  method PruneExpiredCookies(cookies: seq<Cookie>, now: int) returns (alive: seq<Cookie>)
    ensures alive == Prune(cookies, now)
  {
    alive := [];
    for i := 0 to |cookies|
      invariant alive == Prune(cookies[..i], now)
    {
      assert cookies[..i + 1][..i] == cookies[..i];
      if !IsExpired(cookies[i], now) {
        alive := alive + [cookies[i]];
      }
    }
    assert cookies[..|cookies|] == cookies;
  }

  method ApplyCookieChanges(cookies: seq<Cookie>, changes: seq<Cookie>, now: int) returns (result: seq<Cookie>)
    ensures result == Apply(cookies, changes, now)
  {
    hide Upsert, Prune;
    result := cookies;
    for i := 0 to |changes|
      invariant result == UpsertAll(cookies, changes[..i], now)
    {
      assert changes[..i + 1][..i] == changes[..i];
      result := UpsertCookie(result, changes[i], now);
    }
    assert changes[..|changes|] == changes;
    result := PruneExpiredCookies(result, now);
  }

  lemma AcceptedNothing(target: Url, now: int, isIP: string -> bool, cookies: seq<Cookie>)
    ensures Accepted(target, [], now, isIP) == [] && ApplyEach(cookies, [], now) == cookies
  {
  }

  lemma AcceptedStep(target: Url, received: seq<Received>, i: nat, now: int, isIP: string -> bool, cookies: seq<Cookie>)
    requires i < |received|
    ensures var stored := FromResponse(target, received[i], now, isIP);
            var before, after := Accepted(target, received[..i], now, isIP),
                                 Accepted(target, received[..i + 1], now, isIP);
            if stored.None? then after == before
            else after == before + [stored.value]
                 && ApplyEach(cookies, after, now) == Apply(ApplyEach(cookies, before, now), [stored.value], now)
  {
    hide FromResponse, Apply;
    var before := Accepted(target, received[..i], now, isIP);
    assert received[..i + 1][..i] == received[..i];
    assert before + [] == before;
    var stored := FromResponse(target, received[i], now, isIP);
    if stored.Some? {
      assert (before + [stored.value])[..|before|] == before;
    }
  }

  /** The jar of one workspace: what it holds, and the log of what responses changed. */
  class CookieJar {
    var cookies: seq<Cookie>
    var changes: seq<Cookie>
    const isIP: string -> bool

    constructor (cookies: seq<Cookie>, isIP: string -> bool)
      ensures this.cookies == cookies && this.changes == [] && this.isIP == isIP
    {
      this.cookies, this.changes, this.isIP := cookies, [], isIP;
    }

    method Cookies(target: Url, now: int) returns (result: seq<(string, string)>)
      ensures result == Pairs(ByPathLength(Matching(cookies, target, now, isIP)))
    {
      hide Matches, ByPathLength;
      var matched := [];
      for i := 0 to |cookies|
        invariant matched == Matching(cookies[..i], target, now, isIP)
      {
        assert cookies[..i + 1][..i] == cookies[..i];
        if !Matches(cookies[i], target, now, isIP) {
          continue;
        }
        matched := matched + [cookies[i]];
      }
      assert cookies[..|cookies|] == cookies;
      matched := ByPathLength(matched);
      result := [];
      for i := 0 to |matched|
        invariant result == Pairs(matched[..i])
      {
        assert matched[..i + 1][..i] == matched[..i];
        result := result + [(matched[i].name, matched[i].value)];
      }
      assert matched[..|matched|] == matched;
    }

    method SetCookies(target: Url, received: seq<Received>, now: int)
      modifies this
      ensures cookies == ApplyEach(old(cookies), Accepted(target, received, now, isIP), now)
      ensures changes == old(changes) + Accepted(target, received, now, isIP)
    {
      hide FromResponse, Apply, Accepted, ApplyEach;
      AcceptedNothing(target, now, isIP, cookies);
      assert received[..0] == [] && changes + [] == changes;
      for i := 0 to |received|
        invariant cookies == ApplyEach(old(cookies), Accepted(target, received[..i], now, isIP), now)
        invariant changes == old(changes) + Accepted(target, received[..i], now, isIP)
      {
        AcceptedStep(target, received, i, now, isIP, old(cookies));
        var stored := FromResponse(target, received[i], now, isIP);
        if stored.None? {
          continue;
        }
        cookies := ApplyCookieChanges(cookies, [stored.value], now);
        changes := changes + [stored.value];
      }
      assert received[..|received|] == received;
    }

    method Changes() returns (log: seq<Cookie>)
      ensures log == changes
    {
      log := changes;
    }
  }
}
