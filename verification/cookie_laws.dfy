/** Laws of the jar over all runs: what it may hold, what it sends, and that its change log replays to its contents. */
module CookieLaws {
  import opened TextLines
  import opened Cookies

  // ----- one cookie per key -----

  predicate Unique(cookies: seq<Cookie>) {
    forall i, j | 0 <= i < j < |cookies| :: KeyOf(cookies[i]) != KeyOf(cookies[j])
  }

  predicate NoneExpired(cookies: seq<Cookie>, now: int) {
    forall i | 0 <= i < |cookies| :: !IsExpired(cookies[i], now)
  }

  /** The first cookie with a key. */
  function Lookup(cookies: seq<Cookie>, key: Key): Option<Cookie> {
    if cookies == [] then None
    else if KeyOf(cookies[0]) == key then Some(cookies[0])
    else Lookup(cookies[1..], key)
  }

  function Alive(c: Option<Cookie>, now: int): Option<Cookie> {
    if c.Some? && IsExpired(c.value, now) then None else c
  }

  lemma {:induction false} LookupFinds(cookies: seq<Cookie>, key: Key)
    ensures match Lookup(cookies, key)
            case Some(c) => c in cookies && KeyOf(c) == key
            case None => forall i | 0 <= i < |cookies| :: KeyOf(cookies[i]) != key
  {
    if cookies != [] && KeyOf(cookies[0]) != key {
      LookupFinds(cookies[1..], key);
      if Lookup(cookies, key).None? {
        assert forall i | 1 <= i < |cookies| :: cookies[i] == cookies[1..][i - 1];
      }
    }
  }

  lemma {:induction false} LookupOfMember(cookies: seq<Cookie>, i: nat)
    requires Unique(cookies) && i < |cookies|
    ensures Lookup(cookies, KeyOf(cookies[i])) == Some(cookies[i])
  {
    if i > 0 {
      assert KeyOf(cookies[0]) != KeyOf(cookies[i]);
      assert Unique(cookies[1..]);
      LookupOfMember(cookies[1..], i - 1);
    }
  }

  lemma {:induction false} UpsertKeys(cookies: seq<Cookie>, c: Cookie, now: int)
    ensures forall x | x in Upsert(cookies, c, now) :: x in cookies || (x == c && !IsExpired(c, now))
  {
    if cookies != [] && !SameCookie(cookies[0], c) {
      UpsertKeys(cookies[1..], c, now);
    }
  }

  /** Storing keeps one cookie per key and changes only the cookie's own key. */
  lemma {:induction false} UpsertLooksUp(cookies: seq<Cookie>, c: Cookie, now: int, key: Key)
    requires Unique(cookies)
    ensures Unique(Upsert(cookies, c, now))
    ensures Lookup(Upsert(cookies, c, now), key)
         == if key == KeyOf(c) then (if IsExpired(c, now) then None else Some(c)) else Lookup(cookies, key)
  {
    if cookies != [] {
      var rest := cookies[1..];
      assert Unique(rest);
      if SameCookie(cookies[0], c) {
        NoOther(cookies);
        LookupFinds(rest, key);
        LookupFinds(rest, KeyOf(c));
        ReplaceFirstUnique(cookies, c);
        if !IsExpired(c, now) {
          assert ([c] + rest)[1..] == rest;
        } else {
          assert [] + rest == rest;
        }
      } else {
        UpsertLooksUp(rest, c, now, key);
        UpsertKeys(rest, c, now);
        NoOther(cookies);
        var tail := Upsert(rest, c, now);
        assert forall x | x in tail :: KeyOf(x) != KeyOf(cookies[0]);
        ConsUnique(cookies[0], tail);
        assert ([cookies[0]] + tail)[1..] == tail;
      }
    }
  }

  lemma NoOther(cookies: seq<Cookie>)
    requires Unique(cookies) && cookies != []
    ensures forall x | x in cookies[1..] :: KeyOf(x) != KeyOf(cookies[0])
  {
    forall x | x in cookies[1..]
      ensures KeyOf(x) != KeyOf(cookies[0])
    {
      var i :| 0 <= i < |cookies[1..]| && cookies[1..][i] == x;
      assert cookies[i + 1] == x;
    }
  }

  lemma ConsUnique(c: Cookie, tail: seq<Cookie>)
    requires Unique(tail) && forall x | x in tail :: KeyOf(x) != KeyOf(c)
    ensures Unique([c] + tail)
  {
    var all := [c] + tail;
    forall i, j | 0 <= i < j < |all|
      ensures KeyOf(all[i]) != KeyOf(all[j])
    {
      assert all[j] == tail[j - 1];
      if i > 0 {
        assert all[i] == tail[i - 1];
      }
    }
  }

  lemma ReplaceFirstUnique(cookies: seq<Cookie>, c: Cookie)
    requires Unique(cookies) && cookies != [] && KeyOf(cookies[0]) == KeyOf(c)
    ensures Unique([c] + cookies[1..]) && Unique(cookies[1..])
  {
    NoOther(cookies);
    ConsUnique(c, cookies[1..]);
  }

  lemma {:induction false} PruneMembers(cookies: seq<Cookie>, now: int)
    ensures forall x :: x in Prune(cookies, now) <==> x in cookies && !IsExpired(x, now)
    ensures NoneExpired(Prune(cookies, now), now)
  {
    if cookies != [] {
      PruneMembers(cookies[..|cookies| - 1], now);
      assert cookies == cookies[..|cookies| - 1] + [cookies[|cookies| - 1]];
    }
  }

  lemma {:induction false} LookupOfConcat(a: seq<Cookie>, b: seq<Cookie>, key: Key)
    ensures Lookup(a + b, key) == if Lookup(a, key).Some? then Lookup(a, key) else Lookup(b, key)
  {
    if a == [] {
      assert a + b == b;
    } else {
      assert (a + b)[1..] == a[1..] + b;
      LookupOfConcat(a[1..], b, key);
    }
  }

  lemma LookupOfAppended(cookies: seq<Cookie>, last: Cookie, key: Key)
    ensures Lookup(cookies + [last], key)
         == if Lookup(cookies, key).Some? then Lookup(cookies, key) else if KeyOf(last) == key then Some(last) else None
  {
    LookupOfConcat(cookies, [last], key);
    assert [last][1..] == [];
  }

  lemma {:induction false} PruneStaysUnique(cookies: seq<Cookie>, now: int)
    requires Unique(cookies)
    ensures Unique(Prune(cookies, now))
  {
    if cookies != [] {
      hide Unique, IsExpired;
      var before, last := cookies[..|cookies| - 1], cookies[|cookies| - 1];
      assert cookies == before + [last];
      LastIsOther(before, last, KeyOf(last));
      PruneStaysUnique(before, now);
      PruneMembers(before, now);
      AppendUnique(Prune(before, now), before, last);
    }
  }

  /** Pruning drops exactly the expired cookies and keeps the rest findable. */
  lemma {:induction false} PruneLooksUp(cookies: seq<Cookie>, now: int, key: Key)
    requires Unique(cookies)
    ensures Unique(Prune(cookies, now))
    ensures Lookup(Prune(cookies, now), key) == Alive(Lookup(cookies, key), now)
  {
    PruneStaysUnique(cookies, now);
    if cookies != [] {
      hide Unique, IsExpired;
      var before, last := cookies[..|cookies| - 1], cookies[|cookies| - 1];
      assert cookies == before + [last];
      LastIsOther(before, last, key);
      PruneLooksUp(before, now, key);
      LookupOfAppended(before, last, key);
      LookupOfAppended(Prune(before, now), last, key);
      PruneOneMore(before, last, now);
      LookupFinds(before, key);
      hide Lookup, Prune;
    }
  }

  lemma PruneOneMore(before: seq<Cookie>, last: Cookie, now: int)
    ensures Prune(before + [last], now)
            == if IsExpired(last, now) then Prune(before, now) else Prune(before, now) + [last]
  {
    hide IsExpired;
    assert (before + [last])[..|before|] == before;
    assert Prune(before, now) + [] == Prune(before, now);
  }

  lemma LastIsOther(before: seq<Cookie>, last: Cookie, key: Key)
    requires Unique(before + [last])
    ensures Unique(before) && (Lookup(before, key).Some? ==> KeyOf(last) != key)
  {
    var all := before + [last];
    assert forall i | 0 <= i < |before| :: all[i] == before[i];
    LookupFinds(before, key);
    if Lookup(before, key).Some? {
      var i :| 0 <= i < |before| && before[i] == Lookup(before, key).value;
      assert KeyOf(all[i]) != KeyOf(all[|before|]);
    }
  }

  lemma AppendUnique(kept: seq<Cookie>, before: seq<Cookie>, last: Cookie)
    requires Unique(before + [last]) && Unique(kept) && forall x | x in kept :: x in before
    ensures Unique(kept + [last]) && Unique(kept + [])
  {
    assert kept + [] == kept;
    var all := kept + [last];
    forall i, j | 0 <= i < j < |all|
      ensures KeyOf(all[i]) != KeyOf(all[j])
    {
      if j < |kept| {
        assert all[i] == kept[i] && all[j] == kept[j];
      } else {
        assert kept[i] in before;
        var k :| 0 <= k < |before| && before[k] == kept[i];
        assert (before + [last])[k] == kept[i] && (before + [last])[|before|] == last;
      }
    }
  }

  // ----- runs -----

  /** One response handled by the jar. */
  datatype Event = Event(target: Url, received: seq<Received>, now: int)

  /** An accepted cookie and when it was. */
  datatype Stamped = Stamped(cookie: Cookie, time: int)

  function StampAll(cookies: seq<Cookie>, now: int): (r: seq<Stamped>)
    ensures |r| == |cookies|
    ensures forall i | 0 <= i < |r| :: r[i] == Stamped(cookies[i], now)
  {
    if cookies == [] then [] else StampAll(cookies[..|cookies| - 1], now) + [Stamped(cookies[|cookies| - 1], now)]
  }

  /** Everything accepted over a run, in order. */
  function Log(events: seq<Event>, isIP: string -> bool): seq<Stamped> {
    if events == [] then []
    else
      var e := events[|events| - 1];
      Log(events[..|events| - 1], isIP) + StampAll(Accepted(e.target, e.received, e.now, isIP), e.now)
  }

  function CookiesOf(log: seq<Stamped>): (r: seq<Cookie>)
    ensures |r| == |log|
    ensures forall i | 0 <= i < |r| :: r[i] == log[i].cookie
  {
    if log == [] then [] else CookiesOf(log[..|log| - 1]) + [log[|log| - 1].cookie]
  }

  /** What the jar holds after a log. */
  function Replay(initial: seq<Cookie>, log: seq<Stamped>): seq<Cookie> {
    if log == [] then initial
    else Apply(Replay(initial, log[..|log| - 1]), [log[|log| - 1].cookie], log[|log| - 1].time)
  }

  /** The jar and its change log after handling the events one by one, as `SetCookies` leaves them. */
  function RunJar(initial: seq<Cookie>, events: seq<Event>, isIP: string -> bool): (seq<Cookie>, seq<Cookie>) {
    if events == [] then (initial, [])
    else
      var e := events[|events| - 1];
      var (cookies, changes) := RunJar(initial, events[..|events| - 1], isIP);
      var accepted := Accepted(e.target, e.received, e.now, isIP);
      (ApplyEach(cookies, accepted, e.now), changes + accepted)
  }

  lemma ReplayOneMore(initial: seq<Cookie>, log: seq<Stamped>, last: Stamped)
    ensures Replay(initial, log + [last]) == Apply(Replay(initial, log), [last.cookie], last.time)
  {
    hide Apply;
    assert (log + [last])[..|log|] == log;
  }

  lemma CookiesOfStamped(log: seq<Stamped>, accepted: seq<Cookie>, now: int)
    ensures CookiesOf(log + StampAll(accepted, now)) == CookiesOf(log) + accepted
  {
    hide CookiesOf, StampAll;
  }

  lemma {:induction false} ReplayEach(initial: seq<Cookie>, log: seq<Stamped>, accepted: seq<Cookie>, now: int)
    ensures Replay(initial, log + StampAll(accepted, now)) == ApplyEach(Replay(initial, log), accepted, now)
  {
    hide Apply;
    if accepted == [] {
      assert log + [] == log;
    } else {
      var before, last := accepted[..|accepted| - 1], accepted[|accepted| - 1];
      ReplayEach(initial, log, before, now);
      assert StampAll(accepted, now) == StampAll(before, now) + [Stamped(last, now)];
      ReplayOneMore(initial, log + StampAll(before, now), Stamped(last, now));
      hide Replay;
      assert log + (StampAll(before, now) + [Stamped(last, now)]) == log + StampAll(before, now) + [Stamped(last, now)];
    }
  }

  /** Handling events is replaying their log. */
  lemma {:induction false} RunIsReplay(initial: seq<Cookie>, events: seq<Event>, isIP: string -> bool)
    ensures RunJar(initial, events, isIP) == (Replay(initial, Log(events, isIP)), CookiesOf(Log(events, isIP)))
  {
    if events != [] {
      hide Accepted;
      var e := events[|events| - 1];
      RunIsReplay(initial, events[..|events| - 1], isIP);
      var before, accepted := Log(events[..|events| - 1], isIP), Accepted(e.target, e.received, e.now, isIP);
      ReplayEach(initial, before, accepted, e.now);
      CookiesOfStamped(before, accepted, e.now);
    }
  }

  /** At every moment of every run there is one cookie per key, and none had expired at the last accepted update. */
  lemma {:induction false} JarInvariant(initial: seq<Cookie>, log: seq<Stamped>)
    requires Unique(initial)
    ensures Unique(Replay(initial, log))
    ensures log != [] ==> NoneExpired(Replay(initial, log), log[|log| - 1].time)
  {
    if log != [] {
      hide Prune, Upsert, UpsertAll;
      var before, last := Replay(initial, log[..|log| - 1]), log[|log| - 1];
      JarInvariant(initial, log[..|log| - 1]);
      OneChange(before, last.cookie, last.time);
      UpsertLooksUp(before, last.cookie, last.time, KeyOf(last.cookie));
      PruneLooksUp(Upsert(before, last.cookie, last.time), last.time, KeyOf(last.cookie));
      PruneMembers(Upsert(before, last.cookie, last.time), last.time);
    }
  }

  lemma OneChange(cookies: seq<Cookie>, c: Cookie, now: int)
    ensures UpsertAll(cookies, [c], now) == Upsert(cookies, c, now)
  {
    hide Upsert;
    assert [c][..0] == [];
  }

  // ----- the change log -----

  predicate Ordered(log: seq<Stamped>, until: int) {
    && (forall i, j | 0 <= i <= j < |log| :: log[i].time <= log[j].time)
    && (forall i | 0 <= i < |log| :: log[i].time <= until)
  }

  /** A clock that never goes back, over a run that ends by `until`. */
  predicate ClockForward(events: seq<Event>, until: int) {
    && (forall i, j | 0 <= i <= j < |events| :: events[i].now <= events[j].now)
    && (forall i | 0 <= i < |events| :: events[i].now <= until)
  }

  lemma {:induction false} LogIsOrdered(events: seq<Event>, isIP: string -> bool, until: int)
    requires ClockForward(events, until)
    ensures Ordered(Log(events, isIP), until)
    ensures events != [] ==> Ordered(Log(events, isIP), events[|events| - 1].now)
  {
    if events != [] {
      hide Accepted, StampAll;
      var e := events[|events| - 1];
      LogIsOrdered(events[..|events| - 1], isIP, e.now);
      LaterAreOrdered(Log(events[..|events| - 1], isIP), Accepted(e.target, e.received, e.now, isIP), e.now, until);
    }
  }

  lemma LaterAreOrdered(before: seq<Stamped>, cookies: seq<Cookie>, now: int, until: int)
    requires Ordered(before, now) && now <= until
    ensures Ordered(before + StampAll(cookies, now), now) && Ordered(before + StampAll(cookies, now), until)
  {
    var log := before + StampAll(cookies, now);
    assert forall i | 0 <= i < |log| :: log[i].time == if i < |before| then before[i].time else now;
  }

  lemma OneStep(before: seq<Cookie>, c: Cookie, time: int, key: Key)
    requires Unique(before)
    ensures Unique(Apply(before, [c], time))
    ensures Lookup(Apply(before, [c], time), key)
         == Alive(if key == KeyOf(c) then (if IsExpired(c, time) then None else Some(c)) else Lookup(before, key), time)
  {
    hide Prune, Upsert, UpsertAll;
    OneChange(before, c, time);
    UpsertLooksUp(before, c, time, key);
    PruneLooksUp(Upsert(before, c, time), time, key);
  }

  /** Merging the log at a later time finds, under every key, what the jar holds and is still alive then. */
  lemma {:induction false} MergeLooksUp(initial: seq<Cookie>, log: seq<Stamped>, until: int, key: Key)
    requires Unique(initial) && Ordered(log, until)
    ensures Unique(UpsertAll(initial, CookiesOf(log), until)) && Unique(Replay(initial, log))
    ensures Alive(Lookup(UpsertAll(initial, CookiesOf(log), until), key), until)
         == Alive(Lookup(Replay(initial, log), key), until)
  {
    if log != [] {
      hide Apply, Upsert;
      var before, last := log[..|log| - 1], log[|log| - 1];
      MergeLooksUp(initial, before, until, key);
      assert CookiesOf(log)[..|log| - 1] == CookiesOf(before);
      UpsertLooksUp(UpsertAll(initial, CookiesOf(before), until), last.cookie, until, key);
      OneStep(Replay(initial, before), last.cookie, last.time, key);
    }
  }

  lemma SameLookupsSameMembers(a: seq<Cookie>, b: seq<Cookie>)
    requires Unique(a) && Unique(b) && forall key :: Lookup(a, key) == Lookup(b, key)
    ensures forall x | x in a :: x in b
  {
    forall x | x in a
      ensures x in b
    {
      var i :| 0 <= i < |a| && a[i] == x;
      LookupOfMember(a, i);
      LookupFinds(b, KeyOf(x));
    }
  }

  lemma {:induction false} UniqueMultiset(a: seq<Cookie>, x: Cookie)
    requires Unique(a)
    ensures multiset(a)[x] == if x in a then 1 else 0
  {
    if a != [] {
      assert a == [a[0]] + a[1..];
      assert Unique(a[1..]);
      UniqueMultiset(a[1..], x);
      NoOther(a);
    }
  }

  /** With a clock that never goes back, merging the change log into the initial cookies at any later time gives
      exactly the jar's own cookies that are alive then. */
  lemma ChangesMergeToTheJar(initial: seq<Cookie>, events: seq<Event>, isIP: string -> bool, until: int)
    requires Unique(initial) && ClockForward(events, until)
    ensures var (cookies, changes) := RunJar(initial, events, isIP);
            multiset(Apply(initial, changes, until)) == multiset(Prune(cookies, until))
  {
    hide Log, Upsert, UpsertAll, Prune, Replay, RunJar;
    RunIsReplay(initial, events, isIP);
    LogIsOrdered(events, isIP, until);
    var log := Log(events, isIP);
    var merged, held := UpsertAll(initial, CookiesOf(log), until), Replay(initial, log);
    MergeLooksUp(initial, log, until, Key("", "", ""));
    PruneLooksUp(merged, until, Key("", "", ""));
    PruneLooksUp(held, until, Key("", "", ""));
    forall key
      ensures Lookup(Prune(merged, until), key) == Lookup(Prune(held, until), key)
    {
      MergeLooksUp(initial, log, until, key);
      PruneLooksUp(merged, until, key);
      PruneLooksUp(held, until, key);
    }
    SameMultiset(Prune(merged, until), Prune(held, until));
  }

  lemma SameMultiset(a: seq<Cookie>, b: seq<Cookie>)
    requires Unique(a) && Unique(b) && forall key :: Lookup(a, key) == Lookup(b, key)
    ensures multiset(a) == multiset(b)
  {
    SameLookupsSameMembers(a, b);
    SameLookupsSameMembers(b, a);
    forall x
      ensures multiset(a)[x] == multiset(b)[x]
    {
      UniqueMultiset(a, x);
      UniqueMultiset(b, x);
    }
  }

  // ----- a clock that stands still -----

  lemma {:induction false} PruneOfAlive(cookies: seq<Cookie>, now: int)
    requires NoneExpired(cookies, now)
    ensures Prune(cookies, now) == cookies
  {
    if cookies != [] {
      PruneOfAlive(cookies[..|cookies| - 1], now);
      assert cookies == cookies[..|cookies| - 1] + [cookies[|cookies| - 1]];
    }
  }

  lemma UpsertKeepsAlive(cookies: seq<Cookie>, c: Cookie, now: int)
    requires NoneExpired(cookies, now)
    ensures NoneExpired(Upsert(cookies, c, now), now)
  {
    UpsertKeys(cookies, c, now);
    var r := Upsert(cookies, c, now);
    forall i | 0 <= i < |r|
      ensures !IsExpired(r[i], now)
    {
      assert r[i] in r;
    }
  }

  lemma {:induction false} StillClock(initial: seq<Cookie>, log: seq<Stamped>, now: int)
    requires NoneExpired(initial, now) && forall i | 0 <= i < |log| :: log[i].time == now
    ensures Replay(initial, log) == UpsertAll(initial, CookiesOf(log), now)
    ensures NoneExpired(Replay(initial, log), now)
  {
    if log != [] {
      hide Upsert, Prune;
      var before, last := log[..|log| - 1], log[|log| - 1];
      StillClock(initial, before, now);
      assert CookiesOf(log)[..|log| - 1] == CookiesOf(before);
      OneChange(Replay(initial, before), last.cookie, now);
      UpsertKeepsAlive(Replay(initial, before), last.cookie, now);
      PruneOfAlive(Upsert(Replay(initial, before), last.cookie, now), now);
    }
  }

  /** When the clock stands still and no initial cookie has expired, merging the log gives the very same list. */
  lemma ChangesMergeToTheSameList(initial: seq<Cookie>, events: seq<Event>, isIP: string -> bool, now: int)
    requires NoneExpired(initial, now) && forall i | 0 <= i < |Log(events, isIP)| :: Log(events, isIP)[i].time == now
    ensures var (cookies, changes) := RunJar(initial, events, isIP);
            Apply(initial, changes, now) == cookies
  {
    hide Log, UpsertAll, Prune, Replay, RunJar;
    RunIsReplay(initial, events, isIP);
    StillClock(initial, Log(events, isIP), now);
    PruneOfAlive(Replay(initial, Log(events, isIP)), now);
  }

  // ----- sending -----

  predicate LongestPathFirst(cookies: seq<Cookie>) {
    forall i, j | 0 <= i < j < |cookies| :: |cookies[i].path| >= |cookies[j].path|
  }

  /** The cookies with a path of length `n`, in order. */
  function WithPathLength(cookies: seq<Cookie>, n: nat): seq<Cookie> {
    if cookies == [] then []
    else (if |cookies[0].path| == n then [cookies[0]] else []) + WithPathLength(cookies[1..], n)
  }

  lemma {:induction false} InsertKeepsMembers(c: Cookie, sorted: seq<Cookie>)
    ensures multiset(InsertByPath(c, sorted)) == multiset([c] + sorted)
  {
    if sorted != [] && |sorted[0].path| > |c.path| {
      InsertKeepsMembers(c, sorted[1..]);
      assert sorted == [sorted[0]] + sorted[1..];
    }
  }

  lemma {:induction false} InsertKeepsOrder(c: Cookie, sorted: seq<Cookie>)
    requires LongestPathFirst(sorted)
    ensures LongestPathFirst(InsertByPath(c, sorted))
  {
    if sorted != [] && |sorted[0].path| > |c.path| {
      InsertKeepsOrder(c, sorted[1..]);
      InsertKeepsMembers(c, sorted[1..]);
      var tail := InsertByPath(c, sorted[1..]);
      forall i | 0 <= i < |tail|
        ensures |sorted[0].path| >= |tail[i].path|
      {
        assert tail[i] in multiset(tail);
        assert tail[i] == c || tail[i] in sorted[1..];
      }
    }
  }

  lemma {:induction false} InsertIsStable(c: Cookie, sorted: seq<Cookie>, n: nat)
    ensures WithPathLength(InsertByPath(c, sorted), n) == WithPathLength([c] + sorted, n)
  {
    assert ([c] + sorted)[1..] == sorted;
    if sorted != [] && |sorted[0].path| > |c.path| {
      InsertIsStable(c, sorted[1..], n);
      var tail := InsertByPath(c, sorted[1..]);
      assert ([c] + sorted[1..])[1..] == sorted[1..];
      assert ([sorted[0]] + tail)[1..] == tail;
    }
  }

  /** `Cookies` sends the longest paths first and keeps the jar's order among equals. */
  lemma {:induction false} SendingOrder(cookies: seq<Cookie>, n: nat)
    ensures LongestPathFirst(ByPathLength(cookies))
    ensures multiset(ByPathLength(cookies)) == multiset(cookies)
    ensures WithPathLength(ByPathLength(cookies), n) == WithPathLength(cookies, n)
  {
    if cookies != [] {
      SendingOrder(cookies[1..], n);
      InsertKeepsMembers(cookies[0], ByPathLength(cookies[1..]));
      InsertKeepsOrder(cookies[0], ByPathLength(cookies[1..]));
      InsertIsStable(cookies[0], ByPathLength(cookies[1..]), n);
      assert cookies == [cookies[0]] + cookies[1..];
      assert ([cookies[0]] + ByPathLength(cookies[1..]))[1..] == ByPathLength(cookies[1..]);
    }
  }

  lemma {:induction false} MatchingExactly(cookies: seq<Cookie>, target: Url, now: int, isIP: string -> bool, x: Cookie)
    ensures multiset(Matching(cookies, target, now, isIP))[x]
            == if Matches(x, target, now, isIP) then multiset(cookies)[x] else 0
  {
    if cookies != [] {
      hide Matches;
      var before, last := cookies[..|cookies| - 1], cookies[|cookies| - 1];
      assert cookies == before + [last];
      MatchingExactly(before, target, now, isIP, x);
    }
  }

  /** `Cookies` sends exactly the cookies that match. */
  lemma SentExactlyWhenMatching(cookies: seq<Cookie>, target: Url, now: int, isIP: string -> bool, x: Cookie)
    ensures x in ByPathLength(Matching(cookies, target, now, isIP)) <==> x in cookies && Matches(x, target, now, isIP)
  {
    hide Matches;
    SendingOrder(Matching(cookies, target, now, isIP), 0);
    MatchingExactly(cookies, target, now, isIP, x);
    assert x in ByPathLength(Matching(cookies, target, now, isIP))
      <==> multiset(ByPathLength(Matching(cookies, target, now, isIP)))[x] > 0;
    assert x in cookies <==> multiset(cookies)[x] > 0;
  }

  // ----- a cookie goes back to where it came from -----

  lemma {:induction false} LowerTwice(text: string)
    ensures Lower(Lower(text)) == Lower(text)
  {
  }

  /** The default path of a request path matches it. */
  lemma DefaultPathMatches(path: string)
    requires "/" <= path
    ensures PathMatches(DefaultPath(path), path)
  {
    var n := AfterLastSlash(path);
    assert path[0] == '/';
    if n <= 1 {
      assert HasSuffix("/", "/");
    } else {
      assert path[|path[..n - 1]|] == '/';
    }
  }

  /** Nothing expires a cookie between being stored and the moment it is stored. */
  lemma StoredIsHeld(cookies: seq<Cookie>, c: Cookie, now: int)
    requires Unique(cookies) && !IsExpired(c, now)
    ensures c in Apply(cookies, [c], now)
  {
    hide Apply;
    OneStep(cookies, c, now, KeyOf(c));
    LookupFinds(Apply(cookies, [c], now), KeyOf(c));
  }

  /** An accepted cookie that is alive and has a default path is sent back to the URL that set it, unless it is
      secure and the URL is not; one with a path of its own, exactly when that path matches too. */
  lemma AcceptedCookieIsSentBack(cookies: seq<Cookie>, target: Url, c: Received, now: int, isIP: string -> bool)
    requires Unique(cookies) && FromResponse(target, c, now, isIP).Some?
    requires !IsExpired(FromResponse(target, c, now, isIP).value, now)
    ensures var stored := FromResponse(target, c, now, isIP).value;
            var sent := ByPathLength(Matching(Apply(cookies, [stored], now), target, now, isIP));
            stored in sent <==>
              (c.secure ==> IsSecure(target)) && ("/" <= c.path ==> PathMatches(c.path, RequestPath(target)))
  {
    hide Apply, IsSecure, ByPathLength, Matching;
    var stored := FromResponse(target, c, now, isIP).value;
    StoredIsHeld(cookies, stored, now);
    SentExactlyWhenMatching(Apply(cookies, [stored], now), target, now, isIP, stored);
    StoredDomainMatches(target, c, now, isIP);
    hide PathMatches, DomainMatches;
    assert "/" <= RequestPath(target);
    DefaultPathMatches(RequestPath(target));
  }

  /** The domain of an accepted cookie matches the host that set it. */
  lemma StoredDomainMatches(target: Url, c: Received, now: int, isIP: string -> bool)
    requires FromResponse(target, c, now, isIP).Some?
    ensures DomainMatches(FromResponse(target, c, now, isIP).value, CanonicalHost(target), isIP)
  {
    hide HostMatches, DefaultPath, RequestPath, ExpiryOf;
    LowerTwice(target.hostname);
    LowerTwice(TrimDot(TrimSpace(c.domain)));
  }
}
