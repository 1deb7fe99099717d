/** Reordering the latest commits with one rebase that reaches back no further than it has to. */
module CommitReordering {
  import opened TextLines

  type Hash = string

  type Commits = seq<Hash>

  // ----- the same commits -----

  function Seen(seen: map<Hash, int>, hash: Hash): int {
    if hash in seen then seen[hash] else 0
  }

  lemma CountOneMore(commits: Commits, i: nat)
    requires i < |commits|
    ensures multiset(commits[..i + 1]) == multiset(commits[..i])[commits[i] := multiset(commits[..i])[commits[i]] + 1]
  {
    assert commits[..i + 1] == commits[..i] + [commits[i]];
  }

  predicate SameMultiset(a: Commits, b: Commits) {
    multiset(a) == multiset(b)
  }

  /** What the counts are when `first` has been counted up and `second` down. */
  ghost predicate Counted(seen: map<Hash, int>, first: Commits, second: Commits) {
    forall h :: Seen(seen, h) + multiset(second)[h] == multiset(first)[h]
  }

  lemma CountedUp(seen: map<Hash, int>, first: Commits, i: nat)
    requires i < |first| && Counted(seen, first[..i], [])
    ensures Counted(seen[first[i] := Seen(seen, first[i]) + 1], first[..i + 1], [])
  {
    CountOneMore(first, i);
  }

  lemma CountedDown(seen: map<Hash, int>, first: Commits, second: Commits, i: nat)
    requires i < |second| && Counted(seen, first, second[..i])
    ensures Counted(seen[second[i] := Seen(seen, second[i]) - 1], first, second[..i + 1])
  {
    CountOneMore(second, i);
  }

  lemma NoneLeftOver(seen: map<Hash, int>, first: Commits, second: Commits)
    requires Counted(seen, first, second)
    ensures SameMultiset(first, second) <==> forall h | h in seen :: seen[h] == 0
  {
    if forall h | h in seen :: seen[h] == 0 {
      forall h
        ensures multiset(first)[h] == multiset(second)[h]
      {
        assert Seen(seen, h) == 0;
      }
    }
    if SameMultiset(first, second) {
      forall h | h in seen
        ensures seen[h] == 0
      {
        assert Seen(seen, h) == 0;
      }
    }
  }

  /** Two lists have the same commits, each as often, exactly when no count is left over. */
  method SameCommits(first: Commits, second: Commits) returns (same: bool)
    ensures same <==> SameMultiset(first, second)
  {
    var seen: map<Hash, int> := map[];
    assert Counted(seen, [], []) && first[..0] == [];
    hide Counted, SameMultiset;
    for i := 0 to |first|
      invariant Counted(seen, first[..i], [])
    {
      CountedUp(seen, first, i);
      var hash := first[i];
      seen := seen[hash := (if hash in seen then seen[hash] else 0) + 1];
    }
    assert first[..|first|] == first && second[..0] == [];
    for i := 0 to |second|
      invariant Counted(seen, first, second[..i])
    {
      CountedDown(seen, first, second, i);
      var hash := second[i];
      seen := seen[hash := (if hash in seen then seen[hash] else 0) - 1];
    }
    assert second[..|second|] == second;
    NoneLeftOver(seen, first, second);
    var left := seen.Keys;
    while left != {}
      invariant left <= seen.Keys
      invariant forall h | h in seen.Keys - left :: seen[h] == 0
    {
      var hash :| hash in left;
      if seen[hash] != 0 {
        return false;
      }
      left := left - {hash};
    }
    return true;
  }

  // ----- the rebase -----

  datatype Error =
    TooFewCommits | InvalidHash(hash: Hash) | OperationRunning | HistoryChanged | MergeInRange | StashFailed

  /**
   * What the operation finds: the first-parent history of HEAD, the latest commit first, its merge commits, whether
   * another operation is under way, and whether stashing works.
   */
  datatype Repository = Repository(history: Commits, merges: set<Hash>, running: bool, stashes: bool)

  predicate IsHex(c: char) {
    '0' <= c <= '9' || 'a' <= c <= 'f' || 'A' <= c <= 'F'
  }

  predicate ValidHash(hash: Hash) {
    7 <= |hash| <= 64 && forall c | c in hash :: IsHex(c)
  }

  function FirstInvalid(hashes: Commits): Option<Hash> {
    if hashes == [] then None
    else if !ValidHash(hashes[0]) then Some(hashes[0])
    else FirstInvalid(hashes[1..])
  }

  /** Replays the picks over the base, or over nothing for the root. */
  datatype Plan = Unchanged | Rebase(base: Option<Hash>, picks: Commits)

  function Reversed(commits: Commits): (r: Commits)
    ensures |r| == |commits|
  {
    if commits == [] then [] else Reversed(commits[1..]) + [commits[0]]
  }

  lemma {:induction false} ReversedTwice(commits: Commits)
    ensures Reversed(Reversed(commits)) == commits
  {
    if commits != [] {
      ReversedTwice(commits[1..]);
      ReversedSnoc(Reversed(commits[1..]), commits[0]);
    }
  }

  lemma {:induction false} ReversedSnoc(commits: Commits, last: Hash)
    ensures Reversed(commits + [last]) == [last] + Reversed(commits)
  {
    if commits != [] {
      assert (commits + [last])[1..] == commits[1..] + [last];
      ReversedSnoc(commits[1..], last);
    }
  }

  lemma {:induction false} ReversedSameCommits(commits: Commits)
    ensures multiset(Reversed(commits)) == multiset(commits)
  {
    if commits != [] {
      ReversedSameCommits(commits[1..]);
      assert commits == [commits[0]] + commits[1..];
    }
  }

  predicate NoMerge(commits: Commits, merges: set<Hash>) {
    forall hash | hash in commits :: hash !in merges
  }

  /**
   * The history after the picks have been applied, the oldest first, to what starts at `base`; git stops at a merge.
   */
  function Replayed(repository: Repository, base: nat, picks: Commits): Option<Commits>
    requires base <= |repository.history|
  {
    if NoMerge(picks, repository.merges) then Some(Reversed(picks) + repository.history[base..]) else None
  }

  /** What was asked for: the latest commits in the new order, everything older as it was. */
  function Requested(history: Commits, order: Commits): Commits
    requires |order| <= |history|
  {
    order + history[|order|..]
  }

  /** The last place where two lists differ, or -1. */
  function LastDifference(a: Commits, b: Commits): (last: int)
    requires |a| == |b|
    ensures -1 <= last < |a|
  {
    if a == [] then -1
    else if a[|a| - 1] != b[|b| - 1] then |a| - 1
    else LastDifference(a[..|a| - 1], b[..|b| - 1])
  }

  lemma {:induction false} LastDifferenceAt(a: Commits, b: Commits, i: nat)
    requires |a| == |b|
    ensures LastDifference(a, b) < i < |a| ==> a[i] == b[i]
    ensures 0 <= LastDifference(a, b) ==> a[LastDifference(a, b)] != b[LastDifference(a, b)]
  {
    if a != [] && a[|a| - 1] == b[|b| - 1] {
      LastDifferenceAt(a[..|a| - 1], b[..|b| - 1], i);
    }
  }

  /** Behind the last difference the lists agree, and at it they do not. */
  lemma LastDifferenceSplits(a: Commits, b: Commits)
    requires |a| == |b|
    ensures var last := LastDifference(a, b); a[last + 1..] == b[last + 1..] && (last >= 0 ==> a[last] != b[last])
  {
    LastDifferenceAt(a, b, 0);
    forall i: nat | LastDifference(a, b) < i < |a|
      ensures a[i] == b[i]
    {
      LastDifferenceAt(a, b, i);
    }
    hide LastDifference;
  }

  lemma LastDifferenceIs(a: Commits, b: Commits, last: int)
    requires |a| == |b| && -1 <= last < |a|
    requires last >= 0 ==> a[last] != b[last]
    requires forall i | last < i < |a| :: a[i] == b[i]
    ensures LastDifference(a, b) == last
  {
    LastDifferenceAt(a, b, 0);
    if last >= 0 {
      LastDifferenceAt(a, b, last);
    }
    hide LastDifference;
  }

  function Latest(history: Commits, count: nat): Commits {
    if count <= |history| then history[..count] else history
  }

  /**
   * The commit whose place changes last decides: the rebase starts at its parent, or at the root when it has none, in
   * which case merges are not looked for.
   */
  function PlanFor(order: Commits, repository: Repository, stash: bool): Result<Plan, Error> {
    var history := repository.history;
    if |order| < 2 then Err(TooFewCommits)
    else if FirstInvalid(order).Some? then Err(InvalidHash(FirstInvalid(order).value))
    else if repository.running then Err(OperationRunning)
    else if |history| < |order| || !SameMultiset(order, history[..|order|]) then Err(HistoryChanged)
    else
      var changed := LastDifference(order, history[..|order|]);
      if changed < 0 then Ok(Unchanged)
      else if changed + 1 < |history| && !NoMerge(history[..changed + 1], repository.merges) then Err(MergeInRange)
      else if stash && !repository.stashes then Err(StashFailed)
      else
        Ok(Rebase(if changed + 1 < |history| then Some(history[changed + 1]) else None, Reversed(order[..changed + 1])))
  }

  method CheckHashes(order: Commits) returns (invalid: Option<Hash>)
    ensures invalid == FirstInvalid(order)
  {
    for i := 0 to |order|
      invariant FirstInvalid(order) == FirstInvalid(order[i..])
    {
      if !ValidHash(order[i]) {
        return Some(order[i]);
      }
      assert order[i..][1..] == order[i + 1..];
    }
    return None;
  }

  method ReorderCommits(order: Commits, repository: Repository, stash: bool) returns (r: Result<Plan, Error>)
    ensures r == PlanFor(order, repository, stash)
  {
    hide Reversed, LastDifference, NoMerge, FirstInvalid;
    if |order| < 2 {
      return Err(TooFewCommits);
    }
    var invalid := CheckHashes(order);
    if invalid.Some? {
      return Err(InvalidHash(invalid.value));
    }
    if repository.running {
      return Err(OperationRunning);
    }
    var current := Latest(repository.history, |order|);
    var same := SameCommits(current, order);
    if |current| != |order| || !same {
      return Err(HistoryChanged);
    }
    var changed := -1;
    for index := 0 to |order|
      invariant -1 <= changed < index
      invariant changed >= 0 ==> order[changed] != current[changed]
      invariant forall i | changed < i < index :: order[i] == current[i]
    {
      if order[index] != current[index] {
        changed := index;
      }
    }
    LastDifferenceIs(order, current, changed);
    if changed < 0 {
      return Ok(Unchanged);
    }
    var base := if changed + 1 < |repository.history| then Some(repository.history[changed + 1]) else None;
    if base.Some? && !NoMerge(repository.history[..changed + 1], repository.merges) {
      return Err(MergeInRange);
    }
    var picks := WritePicks(order, changed);
    if stash && !repository.stashes {
      return Err(StashFailed);
    }
    return Ok(Rebase(base, picks));
  }

  method WritePicks(order: Commits, changed: nat) returns (picks: Commits)
    requires changed < |order|
    ensures picks == Reversed(order[..changed + 1])
  {
    picks := [];
    var index: int := changed;
    while index >= 0
      invariant -1 <= index <= changed
      invariant picks == Reversed(order[index + 1..changed + 1])
    {
      assert order[index..changed + 1][1..] == order[index + 1..changed + 1];
      picks := picks + [order[index]];
      index := index - 1;
    }
    assert order[0..changed + 1] == order[..changed + 1];
  }

  lemma {:induction false} DropCommon(a: Commits, b: Commits, rest: Commits)
    requires multiset(a + rest) == multiset(b + rest)
    ensures multiset(a) == multiset(b)
  {
    assert multiset(a + rest) == multiset(a) + multiset(rest);
    assert multiset(b + rest) == multiset(b) + multiset(rest);
    assert multiset(a) == multiset(a + rest) - multiset(rest);
    assert multiset(b) == multiset(b + rest) - multiset(rest);
  }

  lemma NoMergeIsShared(a: Commits, b: Commits, merges: set<Hash>)
    requires SameMultiset(a, b)
    ensures NoMerge(a, merges) == NoMerge(b, merges)
  {
    forall hash
      ensures hash in a <==> hash in b
    {
      assert hash in a <==> hash in multiset(a);
      assert hash in b <==> hash in multiset(b);
    }
  }

  /** The place of the base in the history: behind the end for the root. */
  predicate StartsAt(history: Commits, base: Option<Hash>, place: nat) {
    if base.None? then place == |history| else place < |history| && history[place] == base.value
  }

  /** What of the order is replayed: everything up to the commit whose place changes last. */
  function Place(order: Commits, history: Commits): (place: nat)
    requires |order| <= |history|
    ensures place <= |order|
  {
    LastDifference(order, history[..|order|]) + 1
  }

  lemma PartsOfTheRebase(order: Commits, repository: Repository, stash: bool)
    requires PlanFor(order, repository, stash).Ok? && PlanFor(order, repository, stash).value.Rebase?
    ensures |order| <= |repository.history| && SameMultiset(order, repository.history[..|order|])
    ensures var plan, place := PlanFor(order, repository, stash).value, Place(order, repository.history);
            && 0 < place
            && StartsAt(repository.history, plan.base, place)
            && plan.picks == Reversed(order[..place])
            && (plan.base.Some? ==> NoMerge(repository.history[..place], repository.merges))
  {
    hide LastDifference, Reversed, SameMultiset, NoMerge, FirstInvalid;
  }

  /**
   * The picks of a rebase are exactly the commits after its base, in another order. Replaying them gives the requested
   * history exactly when none of them is a merge, which is so for every rebase that does not start at the root. A
   * rebase that keeps more of the history never gives it, whatever it picks.
   */
  lemma RebaseIsRightAndMinimal(order: Commits, repository: Repository, stash: bool, later: nat, other: Commits)
    requires PlanFor(order, repository, stash).Ok? && PlanFor(order, repository, stash).value.Rebase?
    ensures |order| <= |repository.history|
    ensures var plan, place := PlanFor(order, repository, stash).value, Place(order, repository.history);
            && StartsAt(repository.history, plan.base, place)
            && SameMultiset(plan.picks, repository.history[..place])
            && (Replayed(repository, place, plan.picks) == Some(Requested(repository.history, order))
                <==> NoMerge(plan.picks, repository.merges))
            && (plan.base.Some? ==> NoMerge(plan.picks, repository.merges))
            && (later < place ==> Replayed(repository, later, other) != Some(Requested(repository.history, order)))
  {
    hide PlanFor, LastDifference, Reversed, SameMultiset, NoMerge, Requested, StartsAt, FirstInvalid;
    PartsOfTheRebase(order, repository, stash);
    LastDifferenceSplits(order, repository.history[..|order|]);
    var place := Place(order, repository.history);
    RebaseGivesTheRequestedOrder(order, repository.history, place);
    NoMergeIsShared(Reversed(order[..place]), repository.history[..place], repository.merges);
    if later < place {
      NoLaterBaseSuffices(order, repository, place - 1, later, other);
    }
  }

  lemma RebaseGivesTheRequestedOrder(order: Commits, history: Commits, place: nat)
    requires place <= |order| <= |history| && order[place..] == history[..|order|][place..]
    requires SameMultiset(order, history[..|order|])
    ensures SameMultiset(Reversed(order[..place]), history[..place])
    ensures Reversed(Reversed(order[..place])) + history[place..] == Requested(history, order)
  {
    hide Reversed;
    var moved, kept := order[..place], order[place..];
    ReversedTwice(moved);
    ReversedSameCommits(moved);
    assert order == moved + kept;
    assert history[..|order|] == history[..place] + kept;
    DropCommon(moved, history[..place], kept);
    assert history[place..] == kept + history[|order|..];
    assert order + history[|order|..] == moved + (kept + history[|order|..]);
  }

  lemma NoLaterBaseSuffices(order: Commits, repository: Repository, changed: nat, base: nat, picks: Commits)
    requires base <= changed < |order| <= |repository.history| && order[changed] != repository.history[changed]
    ensures Replayed(repository, base, picks) != Some(Requested(repository.history, order))
  {
    hide Reversed, NoMerge;
    var result, requested := Reversed(picks) + repository.history[base..], Requested(repository.history, order);
    if |picks| == base {
      assert result[changed] == repository.history[changed];
      assert requested[changed] == order[changed];
    } else {
      assert |result| != |requested|;
    }
  }

  /** A request that passes every check but the one for merges. */
  predicate Requestable(order: Commits, repository: Repository, stash: bool) {
    && 2 <= |order| <= |repository.history|
    && FirstInvalid(order).None? && !repository.running && (stash ==> repository.stashes)
    && SameMultiset(order, repository.history[..|order|])
    && order != repository.history[..|order|]
  }

  /**
   * What becomes of a request: without a merge among the commits to replay it gets the requested history; with one it
   * is refused, unless the rebase starts at the root: then git stops at a picked merge.
   */
  lemma MergesAreRefusedExceptAtTheRoot(order: Commits, repository: Repository, stash: bool)
    requires Requestable(order, repository, stash)
    ensures var r, place := PlanFor(order, repository, stash), Place(order, repository.history);
            if NoMerge(repository.history[..place], repository.merges) then
              r.Ok? && r.value.Rebase?
              && Replayed(repository, place, r.value.picks) == Some(Requested(repository.history, order))
            else if place < |repository.history| then r == Err(MergeInRange)
            else
              r.Ok? && r.value.Rebase? && r.value.base == None && Replayed(repository, place, r.value.picks) == None
  {
    hide LastDifference, Reversed, SameMultiset, NoMerge, FirstInvalid, Requested;
    DifferingOrdersHavePlaces(order, repository.history[..|order|]);
    var place := Place(order, repository.history);
    if NoMerge(repository.history[..place], repository.merges) || place == |repository.history| {
      RebaseIsRightAndMinimal(order, repository, stash, place, []);
      NoMergeIsShared(PlanFor(order, repository, stash).value.picks, repository.history[..place], repository.merges);
    }
  }

  lemma DifferingOrdersHavePlaces(order: Commits, current: Commits)
    requires |order| == |current| && order != current
    ensures LastDifference(order, current) >= 0
  {
    LastDifferenceSplits(order, current);
    hide LastDifference;
    assert order[0..] == order && current[0..] == current;
  }

  // ----- the outcome of every request, check by check -----

  /** Seven to 64 hexadecimal digits. */
  predicate IsCommitHash(hash: Hash) {
    7 <= |hash| <= 64
    && forall i | 0 <= i < |hash| :: '0' <= hash[i] <= '9' || 'a' <= hash[i] <= 'f' || 'A' <= hash[i] <= 'F'
  }

  lemma HashIsValid(hash: Hash)
    ensures ValidHash(hash) <==> IsCommitHash(hash)
  {
    if IsCommitHash(hash) {
      assert forall c | c in hash :: IsHex(c);
    }
    if ValidHash(hash) {
      forall i | 0 <= i < |hash|
        ensures IsHex(hash[i])
      {
        assert hash[i] in hash;
      }
    }
  }

  /** The hash at `i` is the first that is none. */
  predicate FirstBad(order: Commits, i: nat) {
    i < |order| && !IsCommitHash(order[i]) && forall j | 0 <= j < i :: IsCommitHash(order[j])
  }

  lemma {:induction false} FirstInvalidExactly(order: Commits, i: nat)
    ensures FirstBad(order, i) ==> FirstInvalid(order) == Some(order[i])
    ensures (forall j | 0 <= j < |order| :: IsCommitHash(order[j])) ==> FirstInvalid(order) == None
  {
    hide ValidHash, IsCommitHash;
    if order != [] {
      HashIsValid(order[0]);
      FirstInvalidExactly(order[1..], if i > 0 then i - 1 else 0);
      if i > 0 && FirstBad(order, i) {
        assert IsCommitHash(order[0]);
        assert forall j | 0 <= j < i - 1 :: order[1..][j] == order[j + 1];
      }
      assert (forall j | 0 <= j < |order| :: IsCommitHash(order[j])) ==>
          forall j | 0 <= j < |order[1..]| :: IsCommitHash(order[1..][j]);
    }
  }

  /** The order at `i` is changed, and nothing behind it is. */
  predicate ChangedLastAt(order: Commits, history: Commits, i: nat)
    requires |order| <= |history|
  {
    i < |order| && order[i] != history[i] && forall j | i < j < |order| :: order[j] == history[j]
  }

  /** The checks in their order: each refuses exactly what it is there for. */
  lemma RefusedExactly(order: Commits, repository: Repository, stash: bool, bad: nat, changed: nat)
    ensures var r, history := PlanFor(order, repository, stash), repository.history;
            && (r == Err(TooFewCommits) <==> |order| < 2)
            && (|order| >= 2 && FirstBad(order, bad) ==> r == Err(InvalidHash(order[bad])))
            && (|order| >= 2 && (forall i | 0 <= i < |order| :: IsCommitHash(order[i])) ==>
                  if repository.running then r == Err(OperationRunning)
                  else if |history| < |order| || multiset(order) != multiset(history[..|order|]) then
                    r == Err(HistoryChanged)
                  else if order == history[..|order|] then r == Ok(Unchanged)
                  else
                    ChangedLastAt(order, history, changed) ==>
                      if changed + 1 < |history|
                         && exists i :: 0 <= i <= changed && history[i] in repository.merges then
                        r == Err(MergeInRange)
                      else if stash && !repository.stashes then r == Err(StashFailed)
                      else
                        r.Ok? && r.value.Rebase?
                        && r.value.base == (if changed + 1 < |history| then Some(history[changed + 1]) else None)
                        && |r.value.picks| == changed + 1
                        && forall i | 0 <= i <= changed :: r.value.picks[i] == order[changed - i])
  {
    FirstInvalidExactly(order, bad);
    hide FirstInvalid, IsCommitHash, Reversed, LastDifference, NoMerge;
    var history := repository.history;
    if 2 <= |order| <= |history| {
      if order == history[..|order|] {
        SameOrder(order);
      } else if ChangedLastAt(order, history, changed) {
        LastDifferenceIs(order, history[..|order|], changed);
        MergesAmong(history, changed, repository.merges);
        ReversedAt(order[..changed + 1]);
      }
    }
  }

  lemma SameOrder(order: Commits)
    ensures LastDifference(order, order) == -1
  {
    LastDifferenceSplits(order, order);
  }

  lemma MergesAmong(history: Commits, changed: nat, merges: set<Hash>)
    requires changed < |history|
    ensures NoMerge(history[..changed + 1], merges) <==> !exists i :: 0 <= i <= changed && history[i] in merges
  {
    var range := history[..changed + 1];
    if i :| 0 <= i <= changed && history[i] in merges {
      assert range[i] in range;
    }
    if hash :| hash in range && hash in merges {
      var i :| 0 <= i < |range| && range[i] == hash;
      assert history[i] in merges;
    }
  }

  lemma {:induction false} ReversedAt(commits: Commits)
    ensures forall i | 0 <= i < |commits| :: Reversed(commits)[i] == commits[|commits| - 1 - i]
  {
    if commits != [] {
      ReversedAt(commits[1..]);
    }
  }

  const ROOT_COMMIT := "aaaaaaa"
  const MERGE_COMMIT := "bbbbbbb"

  /** Swapping the root commit with a merge on top of it is not refused, and git stops at the merge. */
  lemma RootMergeExample()
    ensures var repository := Repository([MERGE_COMMIT, ROOT_COMMIT], {MERGE_COMMIT}, false, true);
            && PlanFor([ROOT_COMMIT, MERGE_COMMIT], repository, false) == Ok(Rebase(None, [MERGE_COMMIT, ROOT_COMMIT]))
            && Replayed(repository, 2, [MERGE_COMMIT, ROOT_COMMIT]) == None
  {
    var order, history := [ROOT_COMMIT, MERGE_COMMIT], [MERGE_COMMIT, ROOT_COMMIT];
    assert ROOT_COMMIT[0] != MERGE_COMMIT[0];
    assert ValidHash(ROOT_COMMIT) && ValidHash(MERGE_COMMIT);
    assert order[1..] == [MERGE_COMMIT] && [MERGE_COMMIT][1..] == [];
    assert FirstInvalid([MERGE_COMMIT][1..]) == None && FirstInvalid(order[1..]) == None && FirstInvalid(order) == None;
    assert history[..2] == history && order[..2] == order;
    assert multiset(order) == multiset(history);
    assert LastDifference(order, history) == 1;
    assert Reversed(order) == [MERGE_COMMIT, ROOT_COMMIT];
    assert MERGE_COMMIT in [MERGE_COMMIT, ROOT_COMMIT];
  }
}
