/**
 * The worker registry of the thread pool: the partition of worker uuids into an
 * idle set and a busy set. Worker records are compared and hashed by their uuid
 * only, so each set is a set of integers here.
 *
 * The functions below are the abstract meaning of the mutex-guarded bodies of
 * `move_to_busy` and `move_to_idle` (each body is one atomic step); the class
 * `ThreadPool.Impl` is proved to update its sets exactly as these functions say.
 */
module WorkerRegistry {

  /** Snapshot of the two sets `idle_threads_` and `busy_threads_`. */
  datatype Registry = Registry(idle: set<int>, busy: set<int>)

  /** The registry invariant: no worker is both idle and busy. */
  predicate Partitioned(r: Registry) {
    r.idle !! r.busy
  }

  /** Every worker the registry knows of, whatever its state. */
  function Workers(r: Registry): set<int> {
    r.idle + r.busy
  }

  /** The load figure `get_idle_thread_numbers() + get_busy_thread_numbers()`. */
  function Total(r: Registry): nat {
    |r.idle| + |r.busy|
  }

  /**
   * One call of `move_to_busy(id)`: nothing happens when the idle set is empty
   * (warning) or when `id` is not idle (the extracted node is empty, warning);
   * otherwise `id` is extracted from idle and inserted into busy.
   */
  function MoveToBusy(r: Registry, id: int): Registry {
    if |r.idle| == 0 then r
    else if id in r.idle then Registry(r.idle - {id}, r.busy + {id})
    else r
  }

  /** One call of `move_to_idle(id)`: the mirror image of `MoveToBusy`. */
  function MoveToIdle(r: Registry, id: int): Registry {
    if |r.busy| == 0 then r
    else if id in r.busy then Registry(r.idle + {id}, r.busy - {id})
    else r
  }

  /** `move_to_busy` on an empty idle set leaves both sets as they were. */
  lemma MoveToBusyNoIdle(r: Registry, id: int)
    requires r.idle == {}
    ensures MoveToBusy(r, id) == r
  {
  }

  /** `move_to_busy` of a worker that is not idle only warns. */
  lemma MoveToBusyAbsent(r: Registry, id: int)
    requires id !in r.idle
    ensures MoveToBusy(r, id) == r
  {
  }

  /**
   * `move_to_busy` of an idle worker transfers exactly that worker to busy; the
   * registry stays partitioned, knows the same workers and keeps its total.
   */
  lemma MoveToBusyTransfers(r: Registry, id: int)
    requires Partitioned(r) && id in r.idle
    ensures var r' := MoveToBusy(r, id);
      && id !in r'.idle && id in r'.busy
      && r'.idle == r.idle - {id} && r'.busy == r.busy + {id}
      && Partitioned(r')
      && Workers(r') == Workers(r)
      && Total(r') == Total(r)
  {
  }

  /** `move_to_idle` on an empty busy set leaves both sets as they were. */
  lemma MoveToIdleNoBusy(r: Registry, id: int)
    requires r.busy == {}
    ensures MoveToIdle(r, id) == r
  {
  }

  /** `move_to_idle` of a worker that is not busy only warns. */
  lemma MoveToIdleAbsent(r: Registry, id: int)
    requires id !in r.busy
    ensures MoveToIdle(r, id) == r
  {
  }

  /**
   * `move_to_idle` of a busy worker transfers exactly that worker to idle; the
   * registry stays partitioned, knows the same workers and keeps its total.
   */
  lemma MoveToIdleTransfers(r: Registry, id: int)
    requires Partitioned(r) && id in r.busy
    ensures var r' := MoveToIdle(r, id);
      && id in r'.idle && id !in r'.busy
      && r'.idle == r.idle + {id} && r'.busy == r.busy - {id}
      && Partitioned(r')
      && Workers(r') == Workers(r)
      && Total(r') == Total(r)
  {
  }

  /**
   * One worker-loop pass moves its own worker to busy and back: starting from
   * an idle worker, the pair of sets is restored exactly.
   */
  lemma BusyThenIdleRestores(r: Registry, id: int)
    requires Partitioned(r) && id in r.idle
    ensures MoveToIdle(MoveToBusy(r, id), id) == r
  {
  }

  /** A set with no member is the empty set. */
  lemma EmptyWithoutMembers(s: set<int>)
    requires forall x :: x !in s
    ensures s == {}
  {
    var none: set<int> := {};
    assert forall x :: x in s <==> x in none;
  }

  /** A registry transition, as issued by some worker thread under the mutex. */
  datatype Move = ToBusy(id: int) | ToIdle(id: int)

  /** The registry after one atomic step `m`. */
  function Step(r: Registry, m: Move): Registry {
    match m
    case ToBusy(id) => MoveToBusy(r, id)
    case ToIdle(id) => MoveToIdle(r, id)
  }

  /** The registry after the atomic steps `ms`, taken one after the other. */
  function Apply(r: Registry, ms: seq<Move>): Registry
    decreases |ms|
  {
    if ms == [] then r else Apply(Step(r, ms[0]), ms[1..])
  }

  /**
   * Whatever interleaving of `move_to_busy` and `move_to_idle` calls the
   * workers make, the registry stays a partition of the same workers and its
   * total never changes.
   */
  lemma {:induction false} ApplyPreservesPartition(r: Registry, ms: seq<Move>)
    requires Partitioned(r)
    ensures var r' := Apply(r, ms);
      && Partitioned(r')
      && Workers(r') == Workers(r)
      && Total(r') == Total(r)
    decreases |ms|
  {
    if ms != [] {
      match ms[0] {
        case ToBusy(id) =>
          if id in r.idle { MoveToBusyTransfers(r, id); } else { MoveToBusyAbsent(r, id); }
        case ToIdle(id) =>
          if id in r.busy { MoveToIdleTransfers(r, id); } else { MoveToIdleAbsent(r, id); }
      }
      ApplyPreservesPartition(Step(r, ms[0]), ms[1..]);
    }
  }

  /**
   * The uuids inserted into the idle set by `create_pool`, one per spawned
   * thread in spawning order. Keyed by uuid, a repeated uuid adds nothing.
   */
  function Spawned(ids: seq<int>): set<int>
    decreases |ids|
  {
    if ids == [] then {} else Spawned(ids[..|ids| - 1]) + {ids[|ids| - 1]}
  }

  /** No uuid occurs twice in `ids`. */
  predicate Distinct(ids: seq<int>) {
    forall i, j :: 0 <= i < j < |ids| ==> ids[i] != ids[j]
  }

  /** `Spawned(ids)` holds exactly the uuids that occur in `ids`. */
  lemma {:induction false} SpawnedMembers(ids: seq<int>, x: int)
    ensures x in Spawned(ids) <==> x in ids
    decreases |ids|
  {
    if ids != [] {
      var p := ids[..|ids| - 1];
      SpawnedMembers(p, x);
      assert ids == p + [ids[|ids| - 1]];
    }
  }

  /**
   * The idle set built from `ids` has at most one entry per spawned thread,
   * and exactly one per thread if and only if no uuid repeats.
   */
  lemma {:induction false} SpawnedCardinality(ids: seq<int>)
    ensures |Spawned(ids)| <= |ids|
    ensures |Spawned(ids)| == |ids| <==> Distinct(ids)
    decreases |ids|
  {
    if ids != [] {
      var n := |ids| - 1;
      var p, x := ids[..n], ids[n];
      SpawnedCardinality(p);
      SpawnedMembers(p, x);
      assert ids == p + [x];
      if x in p {
        var k :| 0 <= k < |p| && p[k] == x;
        assert ids[k] == ids[n];
        assert !Distinct(ids);
      } else {
        assert |Spawned(ids)| == |Spawned(p)| + 1;
        if Distinct(p) {
          forall i, j | 0 <= i < j < |ids| ensures ids[i] != ids[j] {
            if j == n {
              assert ids[i] == p[i];
            } else {
              assert ids[i] == p[i] && ids[j] == p[j];
            }
          }
        } else {
          var i, j :| 0 <= i < j < |p| && p[i] == p[j];
          assert ids[i] == ids[j];
        }
      }
    }
  }
}
