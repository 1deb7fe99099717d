/** Terminal output that follows its session from window to window. */
module SessionOutputs {
  const MAX_PENDING_OUTPUT_BYTES := 0x10_0000

  type Bytes = seq<bv8>

  /** Data handed to the desktop for a window. */
  datatype Emission = Emission(window: string, data: Bytes)

  /** The last `n` bytes. */
  function LastBytes(data: Bytes, n: nat): (r: Bytes)
    ensures |r| == if |data| <= n then |data| else n
  {
    if |data| <= n then data else data[|data| - n..]
  }

  // ----- the behaviour as a function of the calls -----

  datatype Call = Write(chunk: Bytes) | MoveTo(window: string) | Resume

  datatype State = State(window: string, paused: bool, pending: Bytes, emitted: seq<Emission>)

  function Start(window: string): State {
    State(window, false, [], [])
  }

  function Step(s: State, call: Call): State {
    match call
    case Write(chunk) =>
      if s.paused then s.(pending := LastBytes(s.pending + chunk, MAX_PENDING_OUTPUT_BYTES))
      else s.(emitted := s.emitted + [Emission(s.window, chunk)])
    case MoveTo(window) => s.(window := window, paused := true)
    case Resume =>
      if s.pending == [] then s.(paused := false)
      else s.(paused := false, pending := [], emitted := s.emitted + [Emission(s.window, s.pending)])
  }

  function Run(window: string, calls: seq<Call>): State {
    if calls == [] then Start(window) else Step(Run(window, calls[..|calls| - 1]), calls[|calls| - 1])
  }

  // ----- what the calls alone say -----

  /** The window the session belongs to after the calls. */
  function Owner(window: string, calls: seq<Call>): string {
    if calls == [] then window
    else if calls[|calls| - 1].MoveTo? then calls[|calls| - 1].window
    else Owner(window, calls[..|calls| - 1])
  }

  /** The latest move was not followed by a resume. */
  predicate Paused(calls: seq<Call>) {
    calls != [] &&
    (calls[|calls| - 1].MoveTo? || (calls[|calls| - 1].Write? && Paused(calls[..|calls| - 1])))
  }

  /** What was written since the current pause began. */
  function SincePause(calls: seq<Call>): Bytes {
    if !Paused(calls) then []
    else
      var before := SincePause(calls[..|calls| - 1]);
      if calls[|calls| - 1].Write? then before + calls[|calls| - 1].chunk else before
  }

  function Written(calls: seq<Call>): Bytes {
    if calls == [] then []
    else Written(calls[..|calls| - 1]) + (if calls[|calls| - 1].Write? then calls[|calls| - 1].chunk else [])
  }

  function Delivered(emitted: seq<Emission>): Bytes {
    if emitted == [] then [] else Delivered(emitted[..|emitted| - 1]) + emitted[|emitted| - 1].data
  }

  /** No pause ever held more than the limit. */
  predicate NeverOverflows(calls: seq<Call>) {
    forall n | 0 <= n <= |calls| :: |SincePause(calls[..n])| <= MAX_PENDING_OUTPUT_BYTES
  }

  // ----- laws over all runs -----

  lemma LastOfLast(a: Bytes, b: Bytes, n: nat)
    ensures LastBytes(LastBytes(a, n) + b, n) == LastBytes(a + b, n)
  {
  }

  /** Owner and pause are what the calls say, and `pending` is kept to the limit. */
  lemma {:induction false} PendingIsKept(window: string, calls: seq<Call>)
    ensures var s := Run(window, calls);
            && s.window == Owner(window, calls)
            && s.paused == Paused(calls)
            && s.pending == LastBytes(SincePause(calls), MAX_PENDING_OUTPUT_BYTES)
  {
    if calls != [] {
      hide LastBytes;
      var before, call := calls[..|calls| - 1], calls[|calls| - 1];
      PendingIsKept(window, before);
      LastOfNothing();
      if call.Write? {
        LastOfLast(SincePause(before), call.chunk, MAX_PENDING_OUTPUT_BYTES);
      }
    }
  }

  /** After every run `pending` is exactly the last MiB of what was written since the pause began. */
  lemma PendingIsTheLastBytes(window: string, calls: seq<Call>)
    ensures var s, written := Run(window, calls), SincePause(calls);
            && s.window == Owner(window, calls)
            && s.paused == Paused(calls)
            && s.pending == if |written| <= 1024 * 1024 then written else written[|written| - 1024 * 1024..]
  {
    PendingIsKept(window, calls);
    LastBytesAre(SincePause(calls));
    hide Run, SincePause, Owner, Paused, LastBytes;
  }

  lemma LastBytesAre(data: Bytes)
    ensures LastBytes(data, MAX_PENDING_OUTPUT_BYTES)
            == if |data| <= 1024 * 1024 then data else data[|data| - 1024 * 1024..]
  {
  }

  lemma LastOfNothing()
    ensures LastBytes([], MAX_PENDING_OUTPUT_BYTES) == []
  {
  }

  /** Nothing is emitted while paused, and whatever a call emits goes to the owner at that time. */
  lemma EmissionsGoToTheOwner(window: string, calls: seq<Call>, call: Call)
    ensures var before, after := Run(window, calls), Step(Run(window, calls), call);
            && Run(window, calls + [call]) == after
            && before.emitted <= after.emitted
            && (forall i | |before.emitted| <= i < |after.emitted| :: after.emitted[i].window == Owner(window, calls))
            && (Paused(calls) && !call.Resume? ==> after.emitted == before.emitted)
            && (Paused(calls + [call]) ==> after.emitted == before.emitted)
  {
    hide LastBytes;
    PendingIsKept(window, calls);
    PendingIsKept(window, calls + [call]);
    assert (calls + [call])[..|calls|] == calls;
  }

  /** How many bytes the limit has cost so far. */
  function Lost(calls: seq<Call>): nat {
    if calls == [] then 0
    else
      var before := calls[..|calls| - 1];
      var call := calls[|calls| - 1];
      Lost(before) +
      if call.Write? && Paused(before) then
        var held := |LastBytes(SincePause(before), MAX_PENDING_OUTPUT_BYTES)| + |call.chunk|;
        if held > MAX_PENDING_OUTPUT_BYTES then held - MAX_PENDING_OUTPUT_BYTES else 0
      else 0
  }

  lemma {:induction false} NothingAppears(window: string, calls: seq<Call>)
    ensures |Delivered(Run(window, calls).emitted)| + |Run(window, calls).pending| + Lost(calls) == |Written(calls)|
  {
    if calls != [] {
      var before, call := calls[..|calls| - 1], calls[|calls| - 1];
      var s, next := Run(window, before), Run(window, calls);
      PendingIsKept(window, before);
      NothingAppears(window, before);
      if next.emitted != s.emitted {
        assert next.emitted[..|s.emitted|] == s.emitted;
      }
    }
  }

  lemma {:induction false} NothingLostMeansAllThere(window: string, calls: seq<Call>)
    requires Lost(calls) == 0
    ensures Delivered(Run(window, calls).emitted) + Run(window, calls).pending == Written(calls)
  {
    if calls != [] {
      var before, call := calls[..|calls| - 1], calls[|calls| - 1];
      var s, next := Run(window, before), Run(window, calls);
      PendingIsKept(window, before);
      NothingLostMeansAllThere(window, before);
      if next.emitted != s.emitted {
        assert next.emitted[..|s.emitted|] == s.emitted;
        assert s.pending + [] == s.pending;
      }
      if call.Write? && s.paused {
        assert Delivered(s.emitted) + (s.pending + call.chunk) == Delivered(s.emitted) + s.pending + call.chunk;
      } else if call.Write? {
        assert s.pending == [];
        assert Delivered(s.emitted) + s.pending == Delivered(s.emitted);
        assert Delivered(next.emitted) + [] == Delivered(next.emitted);
      } else {
        assert Written(before) + [] == Written(before);
        assert Delivered(next.emitted) + [] == Delivered(next.emitted);
      }
    }
  }

  lemma {:induction false} LossIsOverflow(calls: seq<Call>)
    ensures Lost(calls) == 0 <==> NeverOverflows(calls)
  {
    if calls == [] {
      assert calls[..0] == [];
    } else {
      var before, call := calls[..|calls| - 1], calls[|calls| - 1];
      LossIsOverflow(before);
      assert forall n | 0 <= n <= |before| :: calls[..n] == before[..n];
      assert calls[..|calls|] == calls;
      assert before[..|before|] == before;
      assert NeverOverflows(calls) <==> NeverOverflows(before) && |SincePause(calls)| <= MAX_PENDING_OUTPUT_BYTES;
      if NeverOverflows(before) {
        assert |SincePause(before[..|before|])| <= MAX_PENDING_OUTPUT_BYTES;
      }
    }
  }

  /** Everything written is delivered or pending, in order, exactly when no pause ever held more than the limit. */
  lemma OutputIsConserved(window: string, calls: seq<Call>)
    ensures Delivered(Run(window, calls).emitted) + Run(window, calls).pending == Written(calls)
            <==> NeverOverflows(calls)
  {
    LossIsOverflow(calls);
    NothingAppears(window, calls);
    if Lost(calls) == 0 {
      NothingLostMeansAllThere(window, calls);
    }
  }

  // ----- the objects -----

  /** The key of a session in the map of its module. */
  function ScopedKey(windowName: string, resourceID: string): string {
    windowName + "/" + resourceID
  }

  class SessionOutput {
    var window: string
    var paused: bool
    var pending: Bytes
    var emitted: seq<Emission>
    const sessionId: string

    ghost function Value(): State
      reads this
    {
      State(window, paused, pending, emitted)
    }

    constructor (window: string, sessionId: string)
      ensures Value() == Start(window) && this.sessionId == sessionId
    {
      this.window, this.paused, this.pending, this.emitted, this.sessionId := window, false, [], [], sessionId;
    }

    function Key(): string
      reads this
    {
      ScopedKey(window, sessionId)
    }

    method WriteChunk(chunk: Bytes)
      modifies this
      ensures Value() == Step(old(Value()), Write(chunk))
    {
      if !paused {
        emitted := emitted + [Emission(window, chunk)];
        return;
      }
      pending := pending + chunk;
      var overflow := |pending| - MAX_PENDING_OUTPUT_BYTES;
      if overflow > 0 {
        pending := pending[overflow..];
      }
    }

    method MoveToWindow(to: string)
      modifies this
      ensures Value() == Step(old(Value()), MoveTo(to))
    {
      window := to;
      paused := true;
    }

    method ResumeOutput()
      modifies this
      ensures Value() == Step(old(Value()), Resume)
    {
      paused := false;
      if |pending| == 0 {
        return;
      }
      emitted := emitted + [Emission(window, pending)];
      pending := [];
    }
  }
}
