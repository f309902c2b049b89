/**
 * The bookkeeping of the thread pool, `ThreadPool::Impl`, as a single-threaded
 * object: every mutex-guarded method body is one atomic method here. The
 * threads themselves, the condition variables and the task callables are not
 * modelled; a wait on a condition variable becomes a precondition that the
 * awaited state already holds.
 */
module Pool {
  import opened WorkerRegistry
  import opened TaskQueue

  /** The number of threads `create_pool(threads)` spawns: its loop runs `threads` times, or not at all. */
  function SpawnCount(threads: int): nat {
    if threads < 0 then 0 else threads
  }

  /** `ThreadPool::Impl`: the task queue, the worker registry and the configured worker count. */
  class Impl {
    var threadsNum: int
    var taskList: seq<Task>
    var idleThreads: set<int>
    var busyThreads: set<int>

    /** The object invariant: the registry is a partition. */
    ghost predicate Valid()
      reads this
    {
      Partitioned(Reg())
    }

    /** The registry part of the state, as a value. */
    function Reg(): Registry
      reads this
    {
      Registry(idleThreads, busyThreads)
    }

    /** A fresh `Impl`: no worker, no task, a count of zero. */
    constructor ()
      ensures Valid()
      ensures threadsNum == 0 && taskList == []
      ensures idleThreads == {} && busyThreads == {}
    {
      threadsNum := 0;
      taskList := [];
      idleThreads := {};
      busyThreads := {};
    }

    /**
     * `create_pool(threads)`: records the count and registers one idle worker
     * per spawned thread; `ids[i]` is the uuid the platform gives the i-th
     * thread. Only the constructor calls it, on an empty registry.
     */
    method CreatePool(threads: int, ids: seq<int>)
      requires threads <= |ids|
      requires idleThreads == {} && busyThreads == {}
      modifies this`threadsNum, this`idleThreads
      ensures Valid()
      ensures threadsNum == threads
      ensures idleThreads == Spawned(ids[..SpawnCount(threads)]) && busyThreads == {}
      ensures |idleThreads| <= SpawnCount(threads)
      ensures |idleThreads| == SpawnCount(threads) <==> Distinct(ids[..SpawnCount(threads)])
    {
      threadsNum := threads;
      var i := 0;
      while i < threadsNum
        invariant 0 <= i <= SpawnCount(threads)
        invariant threadsNum == threads
        invariant idleThreads == Spawned(ids[..i])
      {
        assert ids[..i + 1][..i] == ids[..i];
        idleThreads := idleThreads + {ids[i]};
        i := i + 1;
      }
      SpawnedCardinality(ids[..SpawnCount(threads)]);
    }

    /**
     * `move_to_idle(id)`: moves a busy worker back to idle; does nothing when
     * no worker is busy or when `id` is not busy.
     */
    method MoveToIdle(id: int)
      requires Valid()
      modifies this`idleThreads, this`busyThreads
      ensures Reg() == WorkerRegistry.MoveToIdle(old(Reg()), id)
      ensures Valid()
      ensures Workers(Reg()) == Workers(old(Reg())) && Total(Reg()) == Total(old(Reg()))
    {
      ghost var r := Reg();
      if |busyThreads| == 0 {
        // "busy_threads_ empty!" warning
      } else if id in busyThreads {
        MoveToIdleTransfers(r, id);
        busyThreads := busyThreads - {id};
        idleThreads := idleThreads + {id};
      } else {
        // "node.empty()!" warning
      }
    }

    /**
     * `move_to_busy(id)`: moves an idle worker to busy; does nothing when no
     * worker is idle or when `id` is not idle.
     */
    method MoveToBusy(id: int)
      requires Valid()
      modifies this`idleThreads, this`busyThreads
      ensures Reg() == WorkerRegistry.MoveToBusy(old(Reg()), id)
      ensures Valid()
      ensures Workers(Reg()) == Workers(old(Reg())) && Total(Reg()) == Total(old(Reg()))
    {
      ghost var r := Reg();
      if |idleThreads| == 0 {
        // "idle_threads_ empty!" warning
      } else if id in idleThreads {
        MoveToBusyTransfers(r, id);
        idleThreads := idleThreads - {id};
        busyThreads := busyThreads + {id};
      } else {
        // "node.empty()!" warning
      }
    }

    /** `get_idle_thread_numbers()`: the size of the idle set. */
    method GetIdleThreadNumbers() returns (n: int)
      ensures n == |idleThreads|
    {
      n := |idleThreads|;
    }

    /** `get_busy_thread_numbers()`: the size of the busy set. */
    method GetBusyThreadNumbers() returns (n: int)
      ensures n == |busyThreads|
    {
      n := |busyThreads|;
    }

    /**
     * `get_task()`: pops the head of the queue. The source waits until the
     * queue is non-empty, so the caller here must find it non-empty.
     */
    method GetTask() returns (task: Task)
      requires taskList != []
      modifies this`taskList
      ensures task == old(taskList)[0]
      ensures taskList == old(taskList)[1..]
      ensures [task] + taskList == old(taskList)
      ensures Run(old(taskList), [Take]) == Some((taskList, [task]))
    {
      assert [Take][1..] == [];
      assert Run(taskList[1..], []) == Some((taskList[1..], []));
      assert [taskList[0]] + [] == [taskList[0]];
      task := taskList[0];
      taskList := taskList[1..];
    }

    /** `add_task(fn)`: appends a task at the tail of the queue. */
    method AddTask(task: Task)
      modifies this`taskList
      ensures taskList == old(taskList) + [task]
      ensures |taskList| == |old(taskList)| + 1 && taskList[|taskList| - 1] == task
      ensures taskList[..|old(taskList)|] == old(taskList)
      ensures Run(old(taskList), [Add(task)]) == Some((taskList, []))
    {
      taskList := taskList + [task];
    }

    /**
     * `get_idle_thread()`: some idle worker, whichever the set yields first.
     * The source waits until the idle set is non-empty, so the caller here must
     * find it non-empty.
     */
    method GetIdleThread() returns (id: int)
      requires idleThreads != {}
      ensures id in idleThreads
    {
      if forall x :: x !in idleThreads {
        EmptyWithoutMembers(idleThreads);
        assert false;
      }
      id :| id in idleThreads;
    }

    /**
     * One pass of the worker loop of thread `self`: take a task, become busy,
     * run the task (opaque), become idle again.
     */
    method WorkerIteration(self: int) returns (task: Task)
      requires Valid() && taskList != []
      modifies this`taskList, this`idleThreads, this`busyThreads
      ensures task == old(taskList)[0] && taskList == old(taskList)[1..]
      ensures Reg() == WorkerRegistry.MoveToIdle(WorkerRegistry.MoveToBusy(old(Reg()), self), self)
      ensures Valid()
      ensures Workers(Reg()) == Workers(old(Reg())) && Total(Reg()) == Total(old(Reg()))
      ensures self in old(idleThreads) ==> Reg() == old(Reg())
    {
      task := GetTask();
      MoveToBusy(self);
      // the task's callable runs here
      MoveToIdle(self);
      if self in old(idleThreads) {
        BusyThenIdleRestores(old(Reg()), self);
      }
    }

    /**
     * The worker loop of thread `self`, run until its stop flag is seen after
     * `rounds` passes: the worker runs the first `rounds` queued tasks in queue
     * order and ends idle, as it started.
     */
    method RunWorker(self: int, rounds: nat) returns (ran: seq<Task>)
      requires Valid() && self in idleThreads && rounds <= |taskList|
      modifies this`taskList, this`idleThreads, this`busyThreads
      ensures ran == old(taskList)[..rounds]
      ensures taskList == old(taskList)[rounds..]
      ensures Reg() == old(Reg())
    {
      ran := [];
      var i := 0;
      while i < rounds
        invariant 0 <= i <= rounds
        invariant ran == old(taskList)[..i]
        invariant taskList == old(taskList)[i..]
        invariant Reg() == old(Reg())
      {
        var task := WorkerIteration(self);
        ran := ran + [task];
        i := i + 1;
      }
    }
  }

  /** The public `ThreadPool`: owns its `Impl` and forwards to it. */
  class ThreadPool {
    const impl: Impl

    ghost predicate Valid()
      reads this, impl
    {
      impl.Valid()
    }

    /**
     * `ThreadPool(nums)`: a new `Impl` with `create_pool(nums)` run on it;
     * `ids` supplies the uuid of each spawned thread.
     */
    constructor (nums: int, ids: seq<int>)
      requires nums <= |ids|
      ensures fresh(impl) && Valid()
      ensures impl.threadsNum == nums && impl.taskList == []
      ensures impl.idleThreads == Spawned(ids[..SpawnCount(nums)]) && impl.busyThreads == {}
      ensures |impl.idleThreads| == SpawnCount(nums) <==> Distinct(ids[..SpawnCount(nums)])
    {
      impl := new Impl();
      new;
      impl.CreatePool(nums, ids);
    }

    /** `assign(task)`: forwards to `add_task`; the registry is not touched. */
    method Assign(task: Task)
      requires Valid()
      modifies impl`taskList
      ensures impl.taskList == old(impl.taskList) + [task]
      ensures Valid()
    {
      impl.AddTask(task);
    }
  }
}
