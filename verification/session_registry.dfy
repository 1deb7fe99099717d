/** The sessions of a module by window, and what moving a window's sessions does to them. */
module SessionRegistries {
  import opened SessionOutputs

  type Sessions = map<string, SessionOutput>

  type States = map<SessionOutput, State>

  // ----- keys -----

  predicate IsScopedTo(key: string, windowName: string) {
    windowName + "/" <= key
  }

  predicate SlashFree(name: string) {
    '/' !in name
  }

  /** With window names free of slashes a key is scoped to a window exactly when it was made for it. */
  lemma ScopeIsOwner(window: string, id: string, other: string)
    requires SlashFree(window) && SlashFree(other)
    ensures IsScopedTo(ScopedKey(window, id), other) <==> window == other
  {
    var key := ScopedKey(window, id);
    assert key[|window|] == '/';
    if IsScopedTo(key, other) {
      var prefix := other + "/";
      assert prefix[|other|] == '/' && key[|other|] == '/';
      assert forall i | 0 <= i < |window| :: key[i] == window[i] != '/';
      assert forall i | 0 <= i < |other| :: prefix[i] == other[i] != '/';
      assert forall i | 0 <= i < |other| :: other[i] == prefix[i] == key[i] == window[i];
    }
  }

  lemma KeysDetermineIds(window: string, id: string, other: string, otherId: string)
    requires SlashFree(window) && SlashFree(other) && ScopedKey(window, id) == ScopedKey(other, otherId)
    ensures window == other && id == otherId
  {
    ScopeIsOwner(window, id, other);
    assert IsScopedTo(ScopedKey(window, id), other) by {
      assert ScopedKey(other, otherId)[..|other| + 1] == other + "/";
    }
    assert ScopedKey(window, id)[|window| + 1..] == id;
    assert ScopedKey(other, otherId)[|other| + 1..] == otherId;
  }

  /** The key that a key of the window `to` comes from when the sessions of `from` move there. */
  function SourceKey(key: string, from: string, to: string): string
    requires IsScopedTo(key, to)
  {
    ScopedKey(from, key[|to| + 1..])
  }

  lemma SourceOfTarget(id: string, from: string, to: string)
    ensures IsScopedTo(ScopedKey(to, id), to) && SourceKey(ScopedKey(to, id), from, to) == ScopedKey(from, id)
  {
    assert ScopedKey(to, id)[|to| + 1..] == id;
  }

  lemma TargetOfSource(key: string, from: string, to: string)
    requires IsScopedTo(key, to)
    ensures key == ScopedKey(to, key[|to| + 1..])
  {
    assert key == key[..|to| + 1] + key[|to| + 1..];
  }

  // ----- the map after a move -----

  /** The keys of a window are made from the ids of their sessions, and no session stands under two keys. */
  predicate KeysAreMade(sessions: Sessions, window: string) {
    && (forall k | k in sessions && IsScopedTo(k, window) :: k == ScopedKey(window, sessions[k].sessionId))
    && (forall j, k | j in sessions && k in sessions && sessions[j] == sessions[k] :: j == k)
  }

  /** The key was scoped to `from` and is not among those still to be moved. */
  predicate HasLeft(all: Sessions, left: set<string>, key: string, from: string) {
    key in all && IsScopedTo(key, from) && key !in left
  }

  predicate HasArrived(all: Sessions, left: set<string>, key: string, from: string, to: string) {
    IsScopedTo(key, to) && HasLeft(all, left, SourceKey(key, from, to), from)
  }

  /**
   * From `all` to `sessions`: all sessions scoped to `from`, but those under the keys of `left`, are under the keys
   * made for `to`, in place of whatever stood there, and the others are where they were.
   */
  ghost predicate InPlace(all: Sessions, sessions: Sessions, left: set<string>, from: string, to: string) {
    forall k ::
      && (k in sessions <==> HasArrived(all, left, k, from, to) || (k in all && !HasLeft(all, left, k, from)))
      && (k in sessions ==>
            sessions[k] == if HasArrived(all, left, k, from, to) then all[SourceKey(k, from, to)] else all[k])
  }

  /** The sessions that have left are moved and paused, the others are as they were. */
  ghost predicate StatesMoved(all: Sessions, was: States, now: States, left: set<string>, from: string, to: string) {
    && was.Keys == now.Keys == all.Values
    && forall k | k in all ::
         now[all[k]] == if HasLeft(all, left, k, from) then Step(was[all[k]], MoveTo(to)) else was[all[k]]
  }

  lemma NothingMoved(all: Sessions, was: States, from: string, to: string)
    requires was.Keys == all.Values
    ensures InPlace(all, all, all.Keys, from, to) && StatesMoved(all, was, was, all.Keys, from, to)
  {
    hide IsScopedTo, SourceKey, Step;
  }

  lemma LeftOver(all: Sessions, was: States, sessions: Sessions, now: States, left: set<string>, other: set<string>,
                 from: string, to: string)
    requires InPlace(all, sessions, left, from, to) && StatesMoved(all, was, now, left, from, to)
    requires forall k | k in all && IsScopedTo(k, from) :: k in left <==> k in other
    ensures InPlace(all, sessions, other, from, to) && StatesMoved(all, was, now, other, from, to)
  {
    hide IsScopedTo, SourceKey, Step;
    assert forall k :: HasLeft(all, left, k, from) == HasLeft(all, other, k, from);
  }

  /** A key that has left is not in the map any more, as `from` is not `to`. */
  lemma StillThere(all: Sessions, sessions: Sessions, left: set<string>, key: string, from: string, to: string)
    requires InPlace(all, sessions, left, from, to) && SlashFree(from) && SlashFree(to) && from != to
    requires IsScopedTo(key, from)
    ensures key in sessions <==> key in all && key in left
    ensures key in sessions ==> sessions[key] == all[key]
  {
    NotBoth(key, from, to);
    hide IsScopedTo, SourceKey;
  }

  lemma NotBoth(key: string, from: string, to: string)
    requires SlashFree(from) && SlashFree(to) && from != to && IsScopedTo(key, from)
    ensures !IsScopedTo(key, to)
  {
    TargetOfSource(key, from, from);
    ScopeIsOwner(from, key[|from| + 1..], to);
  }

  lemma StatesStep(all: Sessions, was: States, now: States, left: set<string>, key: string, from: string, to: string)
    requires KeysAreMade(all, from) && key in all && IsScopedTo(key, from) && key !in left
    requires StatesMoved(all, was, now, left + {key}, from, to)
    ensures StatesMoved(all, was, now[all[key] := Step(now[all[key]], MoveTo(to))], left, from, to)
  {
    hide IsScopedTo, Step;
  }

  lemma PlaceStep(all: Sessions, sessions: Sessions, left: set<string>, key: string, from: string, to: string)
    requires KeysAreMade(all, from) && SlashFree(from) && SlashFree(to) && from != to
    requires InPlace(all, sessions, left + {key}, from, to)
    requires key in sessions && IsScopedTo(key, from) && key !in left
    ensures key in all && sessions[key] == all[key]
    ensures InPlace(all, (sessions - {key})[ScopedKey(to, sessions[key].sessionId) := sessions[key]], left, from, to)
  {
    StillThere(all, sessions, left + {key}, key, from, to);
    var output := all[key];
    var newKey := ScopedKey(to, output.sessionId);
    var after := (sessions - {key})[newKey := output];
    SourceOfTarget(output.sessionId, from, to);
    NotBoth(key, from, to);
    forall k
      ensures HasArrived(all, left, k, from, to) <==> k == newKey || HasArrived(all, left + {key}, k, from, to)
      ensures HasLeft(all, left, k, from) <==> k == key || HasLeft(all, left + {key}, k, from)
    {
      if IsScopedTo(k, to) {
        OneTarget(k, output.sessionId, from, to);
      }
    }
    hide IsScopedTo, SourceKey, ScopedKey, HasLeft, HasArrived, KeysAreMade;
  }

  lemma OneTarget(key: string, id: string, from: string, to: string)
    requires IsScopedTo(key, to)
    ensures SourceKey(key, from, to) == ScopedKey(from, id) <==> key == ScopedKey(to, id)
  {
    TargetOfSource(key, from, to);
    assert ScopedKey(from, id)[|from| + 1..] == id;
    assert SourceKey(key, from, to)[|from| + 1..] == key[|to| + 1..];
    SourceOfTarget(id, from, to);
  }

  ghost function StatesOf(outputs: set<SessionOutput>): States
    reads outputs
  {
    map output | output in outputs :: output.Value()
  }

  ghost function ScopedKeys(sessions: Sessions, window: string): set<string> {
    set k | k in sessions && IsScopedTo(k, window)
  }

  lemma ScopedKeysAfterMove(sessions: Sessions, key: string, newKey: string, from: string)
    requires key in sessions && !IsScopedTo(newKey, from)
    ensures ScopedKeys((sessions - {key})[newKey := sessions[key]], from) == ScopedKeys(sessions, from) - {key}
  {
    hide IsScopedTo;
  }

  lemma NoneLeft(all: Sessions, sessions: Sessions, from: string, to: string)
    requires InPlace(all, sessions, {}, from, to) && SlashFree(from) && SlashFree(to) && from != to
    ensures ScopedKeys(sessions, from) == {}
  {
    hide InPlace, IsScopedTo;
    forall k | k in sessions && IsScopedTo(k, from)
      ensures false
    {
      StillThere(all, sessions, {}, k, from, to);
    }
  }

  // ----- what a move promises -----

  /** Every session is kept: under its key for `to` and moved if it was scoped to `from`, and untouched otherwise. */
  ghost predicate Moved(all: Sessions, was: States, sessions: Sessions, now: States, from: string, to: string) {
    && sessions.Values == all.Values
    && StatesMoved(all, was, now, {}, from, to)
    && forall k | k in all ::
         KeptAt(all[k], sessions, if IsScopedTo(k, from) then ScopedKey(to, all[k].sessionId) else k)
  }

  predicate KeptAt(output: SessionOutput, sessions: Sessions, key: string) {
    key in sessions && sessions[key] == output
  }

  /** No key that a session of `from` gets in `to` is in the map. */
  predicate NoKeyTaken(all: Sessions, from: string, to: string) {
    forall k | k in all && IsScopedTo(k, from) :: ScopedKey(to, all[k].sessionId) !in all
  }

  lemma TakenKeyLosesItsSession(all: Sessions, sessions: Sessions, key: string, from: string, to: string)
    requires KeysAreMade(all, from) && SlashFree(from) && SlashFree(to) && from != to
    requires InPlace(all, sessions, {}, from, to)
    requires key in all && IsScopedTo(key, from) && ScopedKey(to, all[key].sessionId) in all
    ensures var taken := ScopedKey(to, all[key].sessionId);
            && !IsScopedTo(taken, from) && taken in sessions
            && sessions[taken] == all[key] != all[taken]
  {
    var id := all[key].sessionId;
    SourceOfTarget(id, from, to);
    NotBoth(key, from, to);
    ScopeIsOwner(to, id, from);
    hide IsScopedTo, SourceKey, ScopedKey;
  }

  lemma FreeKeysKeepAll(all: Sessions, sessions: Sessions, key: string, from: string, to: string)
    requires KeysAreMade(all, from) && SlashFree(from) && SlashFree(to) && from != to
    requires InPlace(all, sessions, {}, from, to) && NoKeyTaken(all, from, to)
    requires key in all
    ensures KeptAt(all[key], sessions, if IsScopedTo(key, from) then ScopedKey(to, all[key].sessionId) else key)
  {
    if IsScopedTo(key, from) {
      SourceOfTarget(all[key].sessionId, from, to);
      hide IsScopedTo, SourceKey, ScopedKey;
    } else if HasArrived(all, {}, key, from, to) {
      var source := SourceKey(key, from, to);
      TargetOfSource(key, from, to);
      KeysDetermineIds(from, key[|to| + 1..], from, all[source].sessionId);
      assert false;
    }
  }

  /** A move keeps every session exactly when no session of `from` gets a key that is in the map already. */
  lemma MovedExactly(all: Sessions, was: States, sessions: Sessions, now: States, from: string, to: string)
    requires KeysAreMade(all, from) && SlashFree(from) && SlashFree(to) && from != to
    requires InPlace(all, sessions, {}, from, to) && StatesMoved(all, was, now, {}, from, to)
    ensures Moved(all, was, sessions, now, from, to) <==> NoKeyTaken(all, from, to)
  {
    hide InPlace, StatesMoved, IsScopedTo, ScopedKey, KeysAreMade;
    if NoKeyTaken(all, from, to) {
      forall k | k in all
        ensures KeptAt(all[k], sessions, if IsScopedTo(k, from) then ScopedKey(to, all[k].sessionId) else k)
      {
        FreeKeysKeepAll(all, sessions, k, from, to);
      }
      OnlySessionsOf(all, sessions, from, to);
    } else {
      var k :| k in all && IsScopedTo(k, from) && ScopedKey(to, all[k].sessionId) in all;
      TakenKeyLosesItsSession(all, sessions, k, from, to);
      assert !KeptAt(all[ScopedKey(to, all[k].sessionId)], sessions, ScopedKey(to, all[k].sessionId));
    }
  }

  lemma OnlySessionsOf(all: Sessions, sessions: Sessions, from: string, to: string)
    requires InPlace(all, sessions, {}, from, to)
    ensures sessions.Values <= all.Values
  {
    hide IsScopedTo, SourceKey;
  }

  // ----- distinct ids -----

  ghost predicate DistinctIds(sessions: Sessions) {
    forall j, k | j in sessions && k in sessions && j != k :: sessions[j].sessionId != sessions[k].sessionId
  }

  lemma StaysDistinct(all: Sessions, sessions: Sessions, from: string)
    requires DistinctIds(all) && sessions.Values <= all.Values && KeysAreMade(sessions, from)
    ensures DistinctIds(sessions)
  {
    forall j, k | j in sessions && k in sessions && j != k
      ensures sessions[j].sessionId != sessions[k].sessionId
    {
      assert sessions[j] in sessions.Values && sessions[k] in sessions.Values;
      var i :| i in all && all[i] == sessions[j];
      var h :| h in all && all[h] == sessions[k];
    }
  }

  /**
   * Two sessions with the same id in two windows: moved to a third window both are kept, to each other's one is lost.
   */
  lemma SharedIdExample(a: SessionOutput, b: SessionOutput, sessions: Sessions)
    requires a != b && a.sessionId == b.sessionId == "x"
    ensures var all := map["a/x" := a, "b/x" := b];
            && (InPlace(all, sessions, {}, "a", "c") ==> sessions == map["c/x" := a, "b/x" := b])
            && (InPlace(all, sessions, {}, "a", "b") ==> sessions == map["b/x" := a])
            && NoKeyTaken(all, "a", "c") && !NoKeyTaken(all, "a", "b")
  {
    var all := map["a/x" := a, "b/x" := b];
    assert ScopedKey("a", "x") == "a/x" && ScopedKey("b", "x") == "b/x" && ScopedKey("c", "x") == "c/x";
    assert "a/x"[0] == 'a' && "b/x"[0] == 'b' && "c/x"[0] == 'c';
    ScopeIsOwner("a", "x", "a");
    ScopeIsOwner("b", "x", "a");
    ExamplePlace(all, sessions, "c");
    ExamplePlace(all, sessions, "b");
  }

  lemma ExamplePlace(all: Sessions, sessions: Sessions, to: string)
    requires "a/x" in all && "b/x" in all && all.Keys == {"a/x", "b/x"} && SlashFree(to) && to != "a"
    ensures InPlace(all, sessions, {}, "a", to) ==>
              sessions == map["b/x" := all["b/x"]][ScopedKey(to, "x") := all["a/x"]]
  {
    assert ScopedKey("a", "x") == "a/x" && ScopedKey("b", "x") == "b/x" && "a/x"[0] == 'a' && "b/x"[0] == 'b';
    ScopeIsOwner("a", "x", "a");
    ScopeIsOwner("b", "x", "a");
    forall k
      ensures HasArrived(all, {}, k, "a", to) <==> k == ScopedKey(to, "x")
    {
      SourceOfTarget("x", "a", to);
      if IsScopedTo(k, to) {
        OneTarget(k, "x", "a", to);
      }
    }
    SourceOfTarget("x", "a", to);
    hide IsScopedTo, SourceKey, ScopedKey, HasArrived;
  }

  // ----- the map itself -----

  class SessionRegistry {
    var sessions: Sessions

    /** Every session stands under its own key, and windows have no slash in their name. */
    ghost predicate Valid()
      reads this, sessions.Values
    {
      forall k | k in sessions :: sessions[k].Key() == k && SlashFree(sessions[k].window)
    }

    constructor ()
      ensures Valid() && sessions == map[]
    {
      sessions := map[];
    }

    /** A new session replaces the one with the same id in the same window. */
    method Register(output: SessionOutput)
      requires Valid() && SlashFree(output.window)
      modifies this
      ensures Valid() && sessions == old(sessions)[output.Key() := output]
    {
      sessions := sessions[output.Key() := output];
    }

    /** `sync.Map.CompareAndDelete` under the session's current key. */
    method ForgetSession(output: SessionOutput)
      requires Valid()
      modifies this
      ensures Valid()
      ensures output in old(sessions).Values ==>
                output.Key() in old(sessions)
                && sessions == old(sessions) - {output.Key()} && output !in sessions.Values
      ensures output !in old(sessions).Values ==> sessions == old(sessions)
    {
      var key := output.Key();
      if key in sessions && sessions[key] == output {
        sessions := sessions - {key};
      }
    }

    lemma ValidKeysAreMade(window: string)
      requires Valid() && SlashFree(window)
      ensures KeysAreMade(sessions, window)
    {
      forall k | k in sessions && IsScopedTo(k, window)
        ensures k == ScopedKey(window, sessions[k].sessionId)
      {
        ScopeIsOwner(sessions[k].window, sessions[k].sessionId, window);
      }
    }

    /** With distinct ids no move between two windows ever finds a key taken. */
    lemma DistinctIdsAreFree(from: string, to: string)
      requires Valid() && DistinctIds(sessions) && SlashFree(from) && SlashFree(to) && from != to
      ensures NoKeyTaken(sessions, from, to)
    {
      forall k | k in sessions && IsScopedTo(k, from)
        ensures ScopedKey(to, sessions[k].sessionId) !in sessions
      {
        var taken := ScopedKey(to, sessions[k].sessionId);
        NotBoth(k, from, to);
        SourceOfTarget(sessions[k].sessionId, from, to);
        if taken in sessions {
          KeysDetermineIds(sessions[taken].window, sessions[taken].sessionId, to, sessions[k].sessionId);
          assert false;
        }
      }
    }

    /** The body of the range callback for a key that is scoped to the source. */
    method MoveSession(key: string, to: string)
      requires Valid() && SlashFree(to) && key in sessions
      modifies this, sessions[key]
      ensures Valid()
      ensures var output := old(sessions)[key];
              && sessions == (old(sessions) - {key})[ScopedKey(to, output.sessionId) := output]
              && output.Value() == Step(old(sessions[key].Value()), MoveTo(to))
    {
      hide SlashFree, ScopedKey, LastBytes;
      var output := sessions[key];
      sessions := sessions - {key};
      output.MoveToWindow(to);
      sessions := sessions[output.Key() := output];
    }

    /** What holds between two visits of a move of the sessions `all` while the keys of `left` are to be visited. */
    ghost predicate Moving(all: Sessions, was: States, left: set<string>, from: string, to: string)
      reads this, sessions.Values, all.Values
    {
      && Valid() && SlashFree(from) && SlashFree(to) && from != to
      && KeysAreMade(all, from)
      && sessions.Values <= all.Values
      && InPlace(all, sessions, left, from, to)
      && StatesMoved(all, was, StatesOf(all.Values), left, from, to)
    }

    /** The range callback: a key that is gone or not scoped to the source is passed over. Returns the key it stores. */
    method Visit(key: string, from: string, to: string, ghost all: Sessions, ghost was: States, ghost left: set<string>)
      returns (stored: set<string>)
      requires Moving(all, was, left + {key}, from, to) && key !in left
      modifies this, sessions.Values
      ensures Moving(all, was, left, from, to)
      ensures if key in old(sessions) && IsScopedTo(key, from)
              then ScopedKeys(sessions, from) == ScopedKeys(old(sessions), from) - {key}
              else sessions == old(sessions) && stored == {}
      ensures forall k | k in stored :: !IsScopedTo(k, from)
    {
      hide SlashFree, ScopedKey, IsScopedTo, InPlace, StatesMoved, KeysAreMade, Step;
      if key in sessions && IsScopedTo(key, from) {
        ghost var output, states := sessions[key], StatesOf(all.Values);
        ScopeIsOwner(to, output.sessionId, from);
        PlaceStep(all, sessions, left, key, from, to);
        StatesStep(all, was, states, left, key, from, to);
        ScopedKeysAfterMove(sessions, key, ScopedKey(to, output.sessionId), from);
        stored := {ScopedKey(to, sessions[key].sessionId)};
        MoveSession(key, to);
        assert StatesOf(all.Values) == states[output := Step(states[output], MoveTo(to))];
      } else {
        stored := {};
        if IsScopedTo(key, from) {
          StillThere(all, sessions, left + {key}, key, from, to);
        }
        LeftOver(all, was, sessions, StatesOf(all.Values), left + {key}, left, from, to);
      }
    }

    /**
     * `sessions.Range`: each key that is there at the start is visited once, in any order; a key stored meanwhile may
     * be visited too. Afterwards the map is what it should be, whatever ids the sessions have, and every session is
     * kept exactly when no key was taken.
     */
    method MoveWindowSessions(from: string, to: string)
      requires Valid() && SlashFree(from) && SlashFree(to) && from != to
      modifies this, sessions.Values
      ensures Valid() && ScopedKeys(sessions, from) == {}
      ensures InPlace(old(sessions), sessions, {}, from, to)
      ensures StatesMoved(old(sessions), old(StatesOf(sessions.Values)), StatesOf(old(sessions).Values), {}, from, to)
      ensures Moved(old(sessions), old(StatesOf(sessions.Values)), sessions, StatesOf(old(sessions).Values), from, to)
              <==> NoKeyTaken(old(sessions), from, to)
      ensures DistinctIds(old(sessions)) ==> DistinctIds(sessions)
    {
      hide SlashFree, ScopedKey, IsScopedTo, InPlace, StatesMoved, KeysAreMade, Moved, NoKeyTaken, DistinctIds;
      ghost var all, was := sessions, StatesOf(sessions.Values);
      ValidKeysAreMade(from);
      NothingMoved(all, was, from, to);
      var toVisit := sessions.Keys;
      while toVisit != {}
        invariant Moving(all, was, toVisit, from, to)
        decreases ScopedKeys(sessions, from), toVisit
      {
        var key :| key in toVisit;
        assert toVisit == toVisit - {key} + {key};
        toVisit := toVisit - {key};
        var stored := Visit(key, from, to, all, was, toVisit);
        if * {
          LeftOver(all, was, sessions, StatesOf(all.Values), toVisit, toVisit + stored, from, to);
          toVisit := toVisit + stored;
        }
      }
      NoneLeft(all, sessions, from, to);
      MovedExactly(all, was, sessions, StatesOf(all.Values), from, to);
      ValidKeysAreMade(from);
      if DistinctIds(all) {
        StaysDistinct(all, sessions, from);
      }
    }
  }
}
