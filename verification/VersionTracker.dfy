/** Document versions and checked writes of src/chrondb/concurrency/occ.clj, run by one thread at a time; what
    happens between the steps of several threads is the subject of `OccInterleaving`.
 */
module VersionTracker {
  import opened Wrappers
  import Retry

  /** document id and branch */
  type Key = (string, string)

  type Versions = map<Key, int>

  datatype VersionConflict = VersionConflict(expected: int, actual: int, key: Key)

  type Attempt<V, X> = Retry.Attempt<V, VersionConflict, X>

  function Version(versions: Versions, key: Key): int {
    if key in versions then versions[key] else 0
  }

  function Bump(versions: Versions, key: Key): Versions {
    versions[key := Version(versions, key) + 1]
  }

  /** No expectation, or a document never written (or set below 1), or the expected version. */
  predicate Accepts(expected: Option<int>, current: int) {
    expected.None? || current <= 0 || expected.value == current
  }

  /** What a checked write makes of the versions, what it returns, and whether the operation ran. */
  function CheckedWrite<V, X>(versions: Versions, key: Key, expected: Option<int>, operation: Attempt<V, X>)
    : (Versions, Attempt<V, X>, bool)
  {
    var current := Version(versions, key);
    if !Accepts(expected, current) then
      (versions, Retry.Conflict(VersionConflict(expected.value, current, key)), false)
    else if operation.Success? || operation.Falsy? then (Bump(versions, key), operation, true)
    else (versions, operation, true)
  }

  class InMemoryVersionTracker {
    var versions: Versions

    constructor ()
      ensures versions == map[]
    {
      versions := map[];
    }

    method GetVersion(documentId: string, branch: string) returns (version: int)
      ensures version == Version(versions, (documentId, branch))
      ensures (documentId, branch) in versions ==> version == versions[(documentId, branch)]
      ensures (documentId, branch) !in versions ==> version == 0
    {
      version := if (documentId, branch) in versions then versions[(documentId, branch)] else 0;
    }

    method SetVersion(documentId: string, branch: string, version: int) returns (result: int)
      modifies this
      ensures versions == old(versions)[(documentId, branch) := version] && result == version
    {
      versions := versions[(documentId, branch) := version];
      result := version;
    }

    method IncrementVersion(documentId: string, branch: string) returns (version: int)
      modifies this
      ensures versions == Bump(old(versions), (documentId, branch))
      ensures version == Version(old(versions), (documentId, branch)) + 1
    {
      var key := (documentId, branch);
      versions := versions[key := (if key in versions then versions[key] else 0) + 1];
      version := versions[key];
    }

    method VerifyVersion(documentId: string, branch: string, expected: Option<int>)
      returns (conflict: Option<VersionConflict>)
      ensures conflict.None? <==> Accepts(expected, Version(versions, (documentId, branch)))
      ensures conflict.Some? <==>
              && expected.Some? && (documentId, branch) in versions
              && versions[(documentId, branch)] > 0 && versions[(documentId, branch)] != expected.value
      ensures conflict.Some? ==>
                conflict.value
                == VersionConflict(expected.value, Version(versions, (documentId, branch)), (documentId, branch))
    {
      if expected.Some? {
        var current := GetVersion(documentId, branch);
        if current > 0 && expected.value != current {
          return Some(VersionConflict(expected.value, current, (documentId, branch)));
        }
      }
      return None;
    }

    /** `operation` is what the operation does if it is run, which must leave the versions alone. */
    method WithVersionCheck<V, X>(documentId: string, branch: string, expected: Option<int>, operation: Attempt<V, X>)
      returns (result: Attempt<V, X>, ran: bool)
      modifies this
      ensures (versions, result, ran) == CheckedWrite(old(versions), (documentId, branch), expected, operation)
      ensures ran ==> result == operation
      ensures !ran ==> versions == old(versions) && expected.Some? && (documentId, branch) in versions
                       && result == Retry.Conflict(VersionConflict(expected.value, versions[(documentId, branch)],
                                                                   (documentId, branch)))
    {
      var conflict := VerifyVersion(documentId, branch, expected);
      if conflict.Some? {
        return Retry.Conflict(conflict.value), false;
      }
      if operation.Success? || operation.Falsy? {
        var version := IncrementVersion(documentId, branch);
      }
      return operation, true;
    }
  }

  /** A checked write either changes nothing and does not run the operation, or runs it against an accepted
      version; it counts the write exactly when the operation returns, and touches no other document. */
  lemma {:induction false} CheckedWriteCounts<V, X>(versions: Versions, key: Key, other: Key, expected: Option<int>,
                                                    operation: Attempt<V, X>)
    ensures var (versions', result, ran) := CheckedWrite(versions, key, expected, operation);
            && (ran <==> Accepts(expected, Version(versions, key)))
            && (Version(versions', key) == Version(versions, key) + 1
                <==> ran && (operation.Success? || operation.Falsy?))
            && (other != key || !ran ==> Version(versions', other) == Version(versions, other))
            && (!ran ==> versions' == versions && result.Conflict? && result.conflict.actual == Version(versions, key))
  {
  }

  /** A checked write to come: to which document, expecting what, and what its operation does if it is run. */
  datatype Write<V, X> = Write(key: Key, expected: Option<int>, operation: Attempt<V, X>)

  function After<V, X>(versions: Versions, writes: seq<Write<V, X>>): Versions {
    if writes == [] then versions
    else
      var last := writes[|writes| - 1];
      CheckedWrite(After(versions, writes[..|writes| - 1]), last.key, last.expected, last.operation).0
  }

  /** How many writes to a document were accepted and returned. */
  function Returned<V, X>(versions: Versions, writes: seq<Write<V, X>>, key: Key): nat {
    if writes == [] then 0
    else
      var front, last := writes[..|writes| - 1], writes[|writes| - 1];
      Returned(versions, front, key) +
      if last.key == key && Accepts(last.expected, Version(After(versions, front), key))
         && (last.operation.Success? || last.operation.Falsy?) then 1 else 0
  }

  /** Over any sequence of checked writes a version grows by the number of writes to its document that were accepted and
      whose operation returned, and by nothing else. */
  lemma {:induction false} VersionsCountReturnedWrites<V, X>(versions: Versions, writes: seq<Write<V, X>>, key: Key)
    ensures Version(After(versions, writes), key) == Version(versions, key) + Returned(versions, writes, key)
  {
    if writes != [] {
      var front, last := writes[..|writes| - 1], writes[|writes| - 1];
      VersionsCountReturnedWrites(versions, front, key);
      CheckedWriteCounts(After(versions, front), last.key, key, last.expected, last.operation);
    }
  }

  // ---------- retrying with an expectation that is already stale ----------

  /** The tracker, and how often the guarded operation has run. */
  datatype World = World(versions: Versions, runs: nat)

  /** A retried checked write whose expected version was captured outside; other threads act in between. */
  function Guarded<V, X>(interfere: (World, nat) -> World, key: Key, expected: int,
                         operation: (World, nat) -> Attempt<V, X>): (World, nat) -> (World, Attempt<V, X>)
  {
    (w: World, attempt: nat) =>
      var before := interfere(w, attempt);
      var (versions, result, ran) := CheckedWrite(before.versions, key, Some(expected), operation(before, attempt));
      (World(versions, before.runs + if ran then 1 else 0), result)
  }

  /** Other threads only count writes up, and do not run this operation. */
  ghost predicate OnlyCountsUp(interfere: (World, nat) -> World, key: Key) {
    forall w, attempt :: Version(interfere(w, attempt).versions, key) >= Version(w.versions, key)
                         && interfere(w, attempt).runs == w.runs
  }

  /** The world as it would be before `attempt` if this thread had never tried. */
  function Untouched(interfere: (World, nat) -> World, w: World, attempt: nat): World
    requires attempt >= 1
  {
    if attempt == 1 then w else interfere(Untouched(interfere, w, attempt - 1), attempt - 1)
  }

  lemma {:induction false} StaleAttemptConflicts<V, X>(interfere: (World, nat) -> World, key: Key, expected: int,
                                                       operation: (World, nat) -> Attempt<V, X>, w: World,
                                                       attempt: nat)
    requires attempt >= 1 && OnlyCountsUp(interfere, key)
    requires 0 < Version(w.versions, key) && expected < Version(w.versions, key)
    ensures var f := Guarded(interfere, key, expected, operation);
            var before := interfere(Untouched(interfere, w, attempt), attempt);
            && Retry.Before(f, w, attempt) == Untouched(interfere, w, attempt)
            && Version(before.versions, key) >= Version(w.versions, key) && before.runs == w.runs
            && f(Retry.Before(f, w, attempt), attempt)
               == (before, Retry.Conflict(VersionConflict(expected, Version(before.versions, key), key)))
  {
    if attempt > 1 {
      StaleAttemptConflicts(interfere, key, expected, operation, w, attempt - 1);
    }
  }

  /** Every attempt conflicts, the operation never runs, the world is what the other threads alone make of it, and
      the conflict of the last attempt is thrown after exactly max(1, maxRetries) attempts. */
  lemma {:induction false} StaleRetriesAreFutile<V, X>(interfere: (World, nat) -> World, key: Key, expected: int,
                                                       operation: (World, nat) -> Attempt<V, X>, w: World,
                                                       c: Retry.Config, calls: nat)
    requires OnlyCountsUp(interfere, key)
    requires 0 < Version(w.versions, key) && expected < Version(w.versions, key)
    requires Retry.StopsAfter(Guarded(interfere, key, expected, operation), w, c, calls)
    ensures var f := Guarded(interfere, key, expected, operation);
            var final := f(Retry.Before(f, w, calls), calls).0;
            && calls == Retry.Allowed(c)
            && final == Untouched(interfere, w, calls + 1) && final.runs == w.runs
            && Retry.FinalResult(Retry.Outcome(f, w, calls))
               == Retry.ThrownConflict(VersionConflict(expected, Version(final.versions, key), key))
  {
    StaleAttemptConflicts(interfere, key, expected, operation, w, calls);
  }
}
