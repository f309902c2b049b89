# Thread pool bookkeeping

This project models the sequential bookkeeping inside `ThreadPool::Impl`, the core of a
fixed-size worker-thread pool. It covers three parts:

- **Worker registry.** Every worker is either in the idle set or in the busy set. Workers are
  identified by an integer uuid, because the source compares and hashes worker records by uuid
  only. `create_pool` fills the idle set. `move_to_busy` and `move_to_idle` move one worker from
  one set to the other.
- **Task queue.** `add_task` appends at the tail. `get_task` pops the head.
- **Worker loop.** One pass takes a task, moves its own worker to busy, runs the task and moves
  the worker back to idle. `ThreadPool` owns its `Impl`: its constructor runs `create_pool`, and
  `assign` forwards to `add_task`.

Each mutex-guarded method body is modelled as one atomic step of a single-threaded object.

The project has three modules:

- `WorkerRegistry` (`worker_registry.dfy`) is a pure model of the registry. `MoveToBusy` and
  `MoveToIdle` say what one call does to the pair of sets. `Spawned` is the set of uuids that
  `create_pool` inserts. The lemmas state the transfer, the warn-only branches, the round trip,
  and the fact that any sequence of moves preserves the partition.
- `TaskQueue` (`task_queue.dfy`) is a pure model of the queue. `Run` executes a script of
  `add_task`/`get_task` calls. The lemmas prove FIFO order and single-consumer submission order.
- `Pool` (`thread_pool.dfy`) holds the classes `Impl` and `ThreadPool`. Their fields are the
  source's fields, and their methods update those fields in place. `MoveToIdle`, `MoveToBusy`,
  `WorkerIteration` and `RunWorker` are proved to change the registry exactly as the matching
  `WorkerRegistry` functions say, and to keep the sets disjoint, the set of known workers
  unchanged and the idle count plus the busy count constant. `AddTask` and `GetTask` are proved
  to change the queue as one `add_task` or `get_task` step of `TaskQueue.Run`; they and
  `Assign` leave the registry alone because their frames exclude it. `CreatePool` fills an empty
  registry with the spawned uuids.

## Model

| member | source | states |
|---|---|---|
| `WorkerRegistry.MoveToBusyNoIdle` | deps/core/src/thread_pool.cpp:147-150 | `move_to_busy` with an empty idle set leaves both sets unchanged |
| `WorkerRegistry.MoveToBusyAbsent` | deps/core/src/thread_pool.cpp:151-157 | `move_to_busy` of a uuid that is not idle changes nothing (the warn-only branch) |
| `WorkerRegistry.MoveToBusyTransfers` | deps/core/src/thread_pool.cpp:151-155 | `move_to_busy` of an idle uuid takes exactly it out of idle and puts it into busy; the sets stay disjoint, the known workers and the idle count plus the busy count are unchanged |
| `WorkerRegistry.MoveToIdleNoBusy` | deps/core/src/thread_pool.cpp:128-131 | `move_to_idle` with an empty busy set leaves both sets unchanged |
| `WorkerRegistry.MoveToIdleAbsent` | deps/core/src/thread_pool.cpp:133-140 | `move_to_idle` of a uuid that is not busy changes nothing (the warn-only branch) |
| `WorkerRegistry.MoveToIdleTransfers` | deps/core/src/thread_pool.cpp:133-138 | `move_to_idle` of a busy uuid takes exactly it out of busy and puts it into idle; the sets stay disjoint, the known workers and the total are unchanged |
| `WorkerRegistry.BusyThenIdleRestores` | deps/core/src/thread_pool.cpp:100-109 | in a partitioned registry, `move_to_busy` and then `move_to_idle` of an idle uuid restore the original pair of sets |
| `WorkerRegistry.ApplyPreservesPartition` | deps/core/src/thread_pool.cpp:124-158 | any sequence of `move_to_busy`/`move_to_idle` calls, in any order and for any uuids, keeps the sets disjoint, keeps the same workers and keeps the idle count plus the busy count constant |
| `WorkerRegistry.SpawnedMembers` | deps/core/src/thread_pool.cpp:120 | the idle set built by `create_pool` holds exactly the uuids of the spawned threads |
| `WorkerRegistry.SpawnedCardinality` | deps/core/src/thread_pool.cpp:36-47 | because the set is keyed by uuid, n spawned threads give at most n idle entries, and exactly n if and only if no uuid repeats |
| `TaskQueue.RunAdd` | deps/core/src/thread_pool.cpp:190-197 | an `add_task` call extends the queue by its task at the tail |
| `TaskQueue.RunIsFifo` | deps/core/src/thread_pool.cpp:172-197 | for any script of `add_task`/`get_task` calls, the tasks handed out followed by those still queued equal the initial queue followed by the submitted tasks: tasks leave in the order they entered |
| `TaskQueue.AddAllThen` | deps/core/src/thread_pool.cpp:190-197 | submitting a list of tasks and then running further calls is the same as running those calls on the queue with the tasks appended |
| `TaskQueue.TakeAll` | deps/core/src/thread_pool.cpp:172-188 | as many `get_task` calls as there are queued tasks hand out the whole queue in order and leave it empty |
| `TaskQueue.SubmissionOrder` | deps/core/src/thread_pool.cpp:100-109 | with one consumer, tasks submitted after a pending queue are all handed out once each, after that queue and in submission order |
| `Pool.Impl.constructor` | deps/core/src/thread_pool.cpp:5-10 | a new `Impl` has empty sets, an empty queue and a worker count of zero |
| `Pool.Impl.CreatePool` | deps/core/src/thread_pool.cpp:82-122 | sets `threads_num_`; the idle set becomes the uuids of the spawned threads and busy stays empty; with distinct uuids the idle set has exactly one entry per thread, and only then |
| `Pool.Impl.MoveToIdle` | deps/core/src/thread_pool.cpp:124-141 | updates the sets as `WorkerRegistry.MoveToIdle` says; keeps them disjoint, with the same workers and the same total |
| `Pool.Impl.MoveToBusy` | deps/core/src/thread_pool.cpp:143-158 | updates the sets as `WorkerRegistry.MoveToBusy` says; keeps them disjoint, with the same workers and the same total |
| `Pool.Impl.GetIdleThreadNumbers` | deps/core/src/thread_pool.cpp:160-164 | returns the size of the idle set and changes nothing |
| `Pool.Impl.GetBusyThreadNumbers` | deps/core/src/thread_pool.cpp:166-170 | returns the size of the busy set and changes nothing |
| `Pool.Impl.GetTask` | deps/core/src/thread_pool.cpp:172-188 | on a non-empty queue, returns the head and leaves exactly the tail, which is one `Take` step of `TaskQueue.Run`; the registry is untouched |
| `Pool.Impl.AddTask` | deps/core/src/thread_pool.cpp:190-197 | the queue grows by one, the new task is last and every earlier element is unchanged, which is one `Add` step of `TaskQueue.Run` |
| `Pool.Impl.GetIdleThread` | deps/core/src/thread_pool.cpp:199-212 | on a non-empty idle set, returns one of its members and changes nothing |
| `Pool.Impl.WorkerIteration` | deps/core/src/thread_pool.cpp:100-109 | one loop pass hands out the head task and pops it, and applies `move_to_busy` then `move_to_idle` to the registry; when the worker started idle the registry ends exactly as it was |
| `Pool.Impl.RunWorker` | deps/core/src/thread_pool.cpp:100-109 | a worker that starts idle and makes k passes runs the first k queued tasks in queue order, leaves the rest queued, and ends with the registry unchanged |
| `Pool.ThreadPool.constructor` | deps/core/src/thread_pool.cpp:214-218 | a new pool owns a fresh `Impl` on which `create_pool(nums)` has run: a partitioned registry with the spawned uuids idle and an empty queue; the idle set has one entry per worker exactly when the uuids are distinct |
| `Pool.ThreadPool.Assign` | deps/core/src/thread_pool.cpp:231-234 | appends the task to the queue and does not touch the registry |

## Left out

- Thread creation, `detach` and the start handshake of `create_pool` (deps/core/src/thread_pool.cpp:87-99, 111-118) are OS threads and are not modelled. The uuid the platform gives each thread is the parameter `ids`.
- Uuid derivation from the native thread id (deps/core/src/thread_pool.cpp:26-28) is platform-specific. The uuids are arbitrary integers here.
- Pool.Impl.GetTask: the wait on `task_cond_` (deps/core/src/thread_pool.cpp:176) becomes the precondition that the queue is non-empty. The `nullptr` return after it (lines 179-181) cannot happen once that holds. `get_task` wakes only for a task and never for the stop flag, and the model follows that.
- Pool.Impl.GetIdleThread: the wait on `idle_cond_` (deps/core/src/thread_pool.cpp:204) becomes the precondition that the idle set is non-empty. Which member `begin()` yields is unspecified, so the model picks any member.
- The `notify_one` calls (deps/core/src/thread_pool.cpp:137, 196) only wake threads and have no effect on the state.
- Pool.Impl.RunWorker: the loop condition `!is_stop_` is set by another thread. The model replaces it with a number of passes made before the flag is seen. A pass needs a queued task, since the source would block there.
- Task bodies `fn_()` (deps/core/src/thread_pool.cpp:106) are foreign callables. Tasks are opaque tokens.
- Pool.Impl.WorkerIteration: the model assumes every task returns. In the source, `fn_()` runs without a try/catch (deps/core/src/thread_pool.cpp:105-106), so a throwing task leaves the thread function and ends the process; `move_to_idle` (line 108) never runs and the worker never returns to idle. The same assumption underlies Pool.Impl.RunWorker.
- `ThreadPool::stop` (deps/core/src/thread_pool.cpp:243-250) only sets `is_stop_` on the members of `busy_threads_`. The destructor (lines 220-229) calls `stop` and notifies `idle_cond_`. Every worker was detached at line 118, so `joinable()` is false at lines 226 and 247 and neither of them ever joins a thread. What the flag then does depends entirely on thread scheduling, so they are not modelled.
- `ThreadPool::printSize` and every `LOG_*` call are logging only.
- The sizes returned by `get_idle_thread_numbers` and `get_busy_thread_numbers` are `size_t` values converted to `int`. The model keeps unbounded integers, because a pool never comes near 2^31 workers.
- Pool.ThreadPool.Assign: the source has no check for a stopped pool, so the model always enqueues.
- deps/core/include/thread_pool.h only declares the interface. Its default worker count, `numeric_limits<short>::max()` (line 23), is not modelled: the model's constructor always takes the count.
