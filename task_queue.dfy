/**
 * The task queue `task_list_` of the thread pool: a FIFO list of pending
 * tasks. `add_task` appends at the tail, `get_task` pops the head. A task is
 * an opaque token; what its callable does is not part of this model.
 */
module TaskQueue {

  /** An opaque task; `token` only tells two submitted tasks apart. */
  datatype Task = Task(token: int)

  datatype Option<T> = None | Some(value: T)

  /** A call on the queue: `add_task(t)` or one `get_task()`. */
  datatype Op = Add(task: Task) | Take

  /** The tasks that the calls `ops` submit, in submission order. */
  function Added(ops: seq<Op>): seq<Task>
    decreases |ops|
  {
    if ops == [] then []
    else match ops[0]
      case Add(t) => [t] + Added(ops[1..])
      case Take => Added(ops[1..])
  }

  /**
   * Runs the calls `ops`, one after the other, on the queue `q`, and returns
   * the final queue with the tasks handed out, in the order they were handed
   * out. A `get_task` on an empty queue waits for a task that, in a run of one
   * thread, never comes: such a run has no result.
   */
  function Run(q: seq<Task>, ops: seq<Op>): Option<(seq<Task>, seq<Task>)>
    decreases |ops|
  {
    if ops == [] then Some((q, []))
    else match ops[0]
      case Add(t) => Run(q + [t], ops[1..])
      case Take =>
        if q == [] then None
        else match Run(q[1..], ops[1..])
          case None => None
          case Some(res) => Some((res.0, [q[0]] + res.1))
  }

  /**
   * FIFO: whatever the calls, the tasks that were queued or submitted come out
   * in the order they went in. What is handed out, followed by what is left,
   * is exactly what was queued followed by what was submitted.
   */
  lemma {:induction false} RunIsFifo(q: seq<Task>, ops: seq<Op>)
    requires Run(q, ops).Some?
    ensures q + Added(ops) == Run(q, ops).value.1 + Run(q, ops).value.0
    decreases |ops|
  {
    if ops != [] {
      match ops[0]
      case Add(t) =>
        RunIsFifo(q + [t], ops[1..]);
        assert q + Added(ops) == (q + [t]) + Added(ops[1..]);
      case Take =>
        var res := Run(q[1..], ops[1..]).value;
        RunIsFifo(q[1..], ops[1..]);
        assert Added(ops) == Added(ops[1..]);
        calc {
          q + Added(ops);
          [q[0]] + (q[1..] + Added(ops[1..]));
          [q[0]] + (res.1 + res.0);
          ([q[0]] + res.1) + res.0;
        }
    }
  }

  /** One `add_task` call per task of `ts`, in order. */
  function AddAll(ts: seq<Task>): (ops: seq<Op>)
    ensures |ops| == |ts|
    ensures Added(ops) == ts
    decreases |ts|
  {
    if ts == [] then [] else [Add(ts[0])] + AddAll(ts[1..])
  }

  /** `n` calls of `get_task`. */
  function TakeN(n: nat): (ops: seq<Op>)
    ensures |ops| == n
    ensures Added(ops) == []
  {
    if n == 0 then [] else [Take] + TakeN(n - 1)
  }

  /** One `add_task` call before the calls `rest` extends the queue by its task. */
  lemma RunAdd(q: seq<Task>, t: Task, rest: seq<Op>)
    ensures Run(q, [Add(t)] + rest) == Run(q + [t], rest)
  {
    assert ([Add(t)] + rest)[1..] == rest;
  }

  /** Submitting `ts` before the calls `rest` amounts to running `rest` on `q + ts`. */
  lemma {:induction false} AddAllThen(q: seq<Task>, ts: seq<Task>, rest: seq<Op>)
    ensures Run(q, AddAll(ts) + rest) == Run(q + ts, rest)
    decreases |ts|
  {
    if ts == [] {
      assert AddAll(ts) + rest == rest && q + ts == q;
    } else {
      var tail := AddAll(ts[1..]) + rest;
      assert AddAll(ts) + rest == [Add(ts[0])] + tail;
      RunAdd(q, ts[0], tail);
      AddAllThen(q + [ts[0]], ts[1..], rest);
      assert (q + [ts[0]]) + ts[1..] == q + ts;
    }
  }

  /** Taking as many tasks as are queued empties the queue in queue order. */
  lemma {:induction false} TakeAll(q: seq<Task>)
    ensures Run(q, TakeN(|q|)) == Some(([], q))
    decreases |q|
  {
    if q != [] {
      TakeAll(q[1..]);
      assert TakeN(|q|)[1..] == TakeN(|q[1..]|);
      assert [q[0]] + q[1..] == q;
    }
  }

  /**
   * With a single worker, tasks submitted while `q` was pending are run after
   * it, exactly once each and in submission order.
   */
  lemma SubmissionOrder(q: seq<Task>, ts: seq<Task>)
    ensures Run(q, AddAll(ts) + TakeN(|q| + |ts|)) == Some(([], q + ts))
  {
    AddAllThen(q, ts, TakeN(|q| + |ts|));
    TakeAll(q + ts);
  }
}
