/**
 * The completion-status worker pool (src/mdlx_thread.c): a fixed array of
 * workers, each with a list of engines it polls and a count of them; the
 * load-based choice of a worker for a new engine and its inverse; the
 * pending and poll steps a worker runs; and the start, stop, create and
 * destroy bookkeeping.
 *
 * Kernel threads, wait queues and locks are not modelled: thread creation
 * and stopping enter as results and are recorded in the call log.
 */
module CmplThreads {
  import opened Kernel
  import opened LibMdlx

  /** The number of workers the character-device layer creates. */
  const POOL_SIZE: nat := 8

  /** One worker (`struct mdlx_kthread`), the fields the driver touches. */
  datatype Worker = Worker(
    cpu: nat,
    timeout: nat,
    /** The kernel thread running this worker, when one is running. */
    task: Option<nat>,
    schedule: bool,
    id: int,
    workCnt: nat,
    /** The engines this worker polls, in the order they were added. */
    workList: seq<Engine>,
    /** `fproc` / `fpending` are installed. */
    hasProc: bool,
    hasPending: bool)

  /** A worker record as the zeroing allocation leaves it. */
  const IdleWorker: Worker := Worker(0, 0, None, false, 0, 0, [], false, false)

  /** A worker after a successful start in the pool's creation loop. */
  function Started(i: nat, task: nat): Worker {
    Worker(i, 0, Some(task), false, i, 0, [], true, true)
  }

  /** The engine appended at the tail of the worker's list, counted. */
  function Assigned(w: Worker, e: Engine): Worker {
    w.(workList := w.workList + [e], workCnt := w.workCnt + 1)
  }

  /** The engine unlinked from the worker's list, uncounted. */
  function Unassigned(w: Worker, e: Engine): Worker
    requires e in w.workList && w.workCnt >= 1
  {
    w.(workList := RemoveOne(w.workList, e), workCnt := w.workCnt - 1)
  }

  /** The list with the first occurrence of `e` unlinked. */
  function RemoveOne(s: seq<Engine>, e: Engine): (r: seq<Engine>)
    requires e in s
    ensures |r| == |s| - 1
    ensures multiset(r) == multiset(s) - multiset{e}
  {
    assert s == [s[0]] + s[1..];
    if s[0] == e then s[1..] else [s[0]] + RemoveOne(s[1..], e)
  }

  /** Unlinking the engine just appended gives the list back. */
  lemma {:induction false} RemoveOneAppended(s: seq<Engine>, e: Engine)
    requires e !in s
    ensures RemoveOne(s + [e], e) == s
  {
    if s != [] {
      assert (s + [e])[1..] == s[1..] + [e];
      RemoveOneAppended(s[1..], e);
    }
  }

  /** Removing an engine right after adding it restores the worker. */
  lemma RemoveUndoesAdd(w: Worker, e: Engine)
    requires e !in w.workList
    ensures Unassigned(Assigned(w, e), e) == w
  {
    RemoveOneAppended(w.workList, e);
  }

  /** The workers' `work_cnt` values. */
  function Loads(ws: seq<Worker>): (l: seq<nat>)
    ensures |l| == |ws|
    ensures forall i :: 0 <= i < |ws| ==> l[i] == ws[i].workCnt
  {
    seq(|ws|, i requires 0 <= i < |ws| => ws[i].workCnt)
  }

  /** The first index at or after `from` whose load is 0. */
  function FirstIdleFrom(loads: seq<nat>, from: nat): (r: Option<nat>)
    decreases |loads| - from
    ensures r.Some? ==> from <= r.value < |loads| && loads[r.value] == 0
    ensures r.Some? ==> forall j :: from <= j < r.value ==> loads[j] != 0
    ensures r.None? ==> forall j :: from <= j < |loads| ==> loads[j] != 0
  {
    if from >= |loads| then None
    else if loads[from] == 0 then Some(from)
    else FirstIdleFrom(loads, from + 1)
  }

  /** The last index in [1, upto) whose load is below worker 0's, or 0. */
  function LastBelowFirst(loads: seq<nat>, upto: nat): (r: nat)
    requires 1 <= |loads| && upto <= |loads|
    ensures r < |loads|
    ensures r == 0 ==> forall j :: 1 <= j < upto ==> loads[j] >= loads[0]
    ensures r != 0 ==> 1 <= r < upto && loads[r] < loads[0]
    ensures r != 0 ==> forall j :: r < j < upto ==> loads[j] >= loads[0]
  {
    if upto <= 1 then 0
    else if loads[upto - 1] < loads[0] then upto - 1
    else LastBelowFirst(loads, upto - 1)
  }

  /**
   * The worker the selection scan of `mdlx_thread_add_work` picks: the first
   * idle worker after worker 0 if there is one, otherwise the last worker
   * whose load is below worker 0's, otherwise worker 0. It never picks a
   * worker busier than worker 0.
   */
  function ChooseWorker(loads: seq<nat>): (idx: nat)
    requires |loads| >= 1
    ensures idx < |loads|
    ensures loads[idx] <= loads[0]
  {
    match FirstIdleFrom(loads, 1)
    case Some(z) => z
    case None => LastBelowFirst(loads, |loads|)
  }

  /** With every worker idle and at least two of them, worker 1 is chosen. */
  lemma AllIdleChoosesSecond(loads: seq<nat>)
    requires |loads| >= 2
    requires forall i :: 0 <= i < |loads| ==> loads[i] == 0
    ensures ChooseWorker(loads) == 1
  {
  }

  /** The choice is not a minimum: loads 3, 1, 2 send the engine to worker 2. */
  lemma ChoiceIsNotAlwaysLeastLoaded()
    ensures ChooseWorker([3, 1, 2]) == 2
  {
    var loads: seq<nat> := [3, 1, 2];
    assert FirstIdleFrom(loads, 1) == None;
  }

  /** No two loads differ by more than one. */
  predicate Balanced(loads: seq<nat>) {
    forall i, j :: 0 <= i < |loads| && 0 <= j < |loads| ==> loads[i] <= loads[j] + 1
  }

  /** On balanced loads the scan does pick a least-loaded worker. */
  lemma BalancedChoiceIsLeast(loads: seq<nat>)
    requires |loads| >= 1 && Balanced(loads)
    ensures forall j :: 0 <= j < |loads| ==> loads[ChooseWorker(loads)] <= loads[j]
  {
    match FirstIdleFrom(loads, 1)
    case Some(z) =>
    case None =>
      // Worker 0, or a worker below worker 0, which balance puts at the floor.
      assert ChooseWorker(loads) == LastBelowFirst(loads, |loads|);
  }

  /** Adding an engine where the scan points keeps balanced loads balanced. */
  lemma AddWorkKeepsBalance(loads: seq<nat>)
    requires |loads| >= 1 && Balanced(loads)
    ensures var c := ChooseWorker(loads); Balanced(loads[c := loads[c] + 1])
  {
    BalancedChoiceIsLeast(loads);
  }

  /** Adding an engine and removing it again restores every worker. */
  lemma AddThenRemoveRestores(ws: seq<Worker>, e: Engine)
    requires |ws| >= 1
    requires forall i :: 0 <= i < |ws| ==> e !in ws[i].workList
    ensures var c := ChooseWorker(Loads(ws));
      ws[c := Assigned(ws[c], e)][c := Unassigned(Assigned(ws[c], e), e)] == ws
  {
    var c := ChooseWorker(Loads(ws));
    RemoveUndoesAdd(ws[c], e);
  }

  /** `mdlx_thread_cmpl_status_pend`: the engine has transfers in flight. */
  function CmplStatusPend(engine: Engine): (pend: int)
    reads engine
    ensures pend == 0 || pend == 1
    ensures pend == 1 <==> |engine.transfers| > 0
  {
    if engine.transfers == [] then 0 else 1
  }

  /**
   * `mdlx_thread_cmpl_status_proc`: polls the engine for the oldest transfer
   * in flight, expecting its descriptor count. The worker loop calls it on
   * every engine of its list, pending or not; on an engine with no transfer
   * the code takes the list head itself for a transfer, and the count it
   * passes is then whatever lies there, `headWord`.
   */
  method CmplStatusProc(engine: Engine, headWord: int, log: Log) returns (rv: int)
    modifies log
    ensures rv == 0
    ensures engine.transfers != [] ==> log.calls == old(log.calls) + [EngineServicePoll(engine.transfers[0].descNum)]
    ensures engine.transfers == [] ==> log.calls == old(log.calls) + [EngineServicePoll(headWord)]
  {
    if engine.transfers != [] {
      log.calls := log.calls + [EngineServicePoll(engine.transfers[0].descNum)];
    } else {
      log.calls := log.calls + [EngineServicePoll(headWord)];
    }
    rv := 0;
  }

  /**
   * `xthread_work_pending`: 1 exactly when the worker's pending hook is
   * installed and some engine on its list has a transfer in flight.
   */
  method WorkPending(w: Worker) returns (pend: int)
    ensures pend == 0 || pend == 1
    ensures pend == 1 <==>
      w.hasPending && exists k :: 0 <= k < |w.workList| && CmplStatusPend(w.workList[k]) == 1
  {
    if w.workList == [] {
      return 0;
    }
    var k := 0;
    while k < |w.workList|
      invariant 0 <= k <= |w.workList|
      invariant !w.hasPending || forall m :: 0 <= m < k ==> CmplStatusPend(w.workList[m]) == 0
    {
      if w.hasPending && CmplStatusPend(w.workList[k]) == 1 {
        return 1;
      }
      k := k + 1;
    }
    return 0;
  }

  /** Index of the first failed thread creation, or the count when none failed. */
  function FirstFailure(created: seq<Option<nat>>): (k: nat)
    ensures k <= |created|
    ensures forall j :: 0 <= j < k ==> created[j].Some?
    ensures k < |created| ==> created[k].None?
  {
    if created == [] then 0
    else if created[0].None? then 0
    else 1 + FirstFailure(created[1..])
  }

  /** The thread creations for the given (all successful) results, in order. */
  function Creates(created: seq<Option<nat>>): (r: seq<Call>)
    requires forall j :: 0 <= j < |created| ==> created[j].Some?
    ensures |r| == |created|
    ensures forall j :: 0 <= j < |created| ==> r[j] == CreateThread(created[j].value)
  {
    if created == [] then []
    else Creates(created[..|created| - 1]) + [CreateThread(created[|created| - 1].value)]
  }

  /** The thread stops for the given (all successful) creations, in order. */
  function Stops(created: seq<Option<nat>>): (r: seq<Call>)
    requires forall j :: 0 <= j < |created| ==> created[j].Some?
    ensures |r| == |created|
    ensures forall j :: 0 <= j < |created| ==> r[j] == StopThread(created[j].value)
  {
    if created == [] then []
    else Stops(created[..|created| - 1]) + [StopThread(created[|created| - 1].value)]
  }

  /**
   * The stops `mdlx_threads_destroy` issues: every worker with a hook and a
   * thread has its thread stopped, and nothing else is stopped.
   */
  function DestroyStops(ws: seq<Worker>): (r: seq<Call>)
    ensures |r| <= |ws|
    ensures forall c :: c in r ==>
      exists i :: 0 <= i < |ws| && ws[i].hasProc && ws[i].task.Some? && c == StopThread(ws[i].task.value)
    ensures forall i :: 0 <= i < |ws| && ws[i].hasProc && ws[i].task.Some? ==> StopThread(ws[i].task.value) in r
  {
    if ws == [] then []
    else
      var w := ws[|ws| - 1];
      var rest := DestroyStops(ws[..|ws| - 1]);
      if w.hasProc && w.task.Some? then rest + [StopThread(w.task.value)] else rest
  }

  /** The worker pool: `cs_threads` and `thread_cnt`. */
  class Pool {
    var threads: array?<Worker>
    var threadCnt: nat

    constructor ()
      ensures threads == null && threadCnt == 0
    {
      threads := null;
      threadCnt := 0;
    }

    /**
     * The array holds exactly `thread_cnt` workers, and each worker's count
     * is the length of its list.
     */
    ghost predicate Valid()
      reads this, threads
    {
      && (threads == null ==> threadCnt == 0)
      && (threads != null ==> threads.Length == threadCnt)
      && (threads != null ==> forall i :: 0 <= i < threads.Length ==> threads[i].workCnt == |threads[i].workList|)
    }

    /**
     * `mdlx_thread_add_work`: scans the workers (keeping worker 0's load as
     * the bar), appends the engine to the chosen worker's list, and points
     * the engine at that worker.
     */
    method AddWork(engine: Engine)
      requires Valid() && threadCnt >= 1
      modifies threads, engine
      ensures Valid()
      ensures var idx := ChooseWorker(Loads(old(threads[..])));
        && threads[..] == old(threads[..])[idx := Assigned(old(threads[idx]), engine)]
        && engine.cmplthp == Some(idx) && engine.intrWorkCpu == idx
      ensures engine.transfers == old(engine.transfers) && engine.deviceOpen == old(engine.deviceOpen)
      ensures engine.cyclicReq == old(engine.cyclicReq)
    {
      ghost var loads := Loads(threads[..]);
      var v: nat := 0;
      var idx: nat := threadCnt;
      var i: nat := 0;
      while i < threadCnt
        invariant 0 <= i <= threadCnt
        invariant i == 0 ==> idx == threadCnt
        invariant i >= 1 ==> v == loads[0] && idx == LastBelowFirst(loads, i)
        invariant i >= 1 ==> FirstIdleFrom(loads, 1) == FirstIdleFrom(loads, i)
      {
        if idx == threadCnt {
          v := threads[i].workCnt;
          idx := i;
        } else if threads[i].workCnt == 0 {
          idx := i;
          assert FirstIdleFrom(loads, 1) == Some(i);
          break;
        } else if threads[i].workCnt < v {
          idx := i;
        }
        i := i + 1;
      }
      assert idx == ChooseWorker(loads);
      threads[idx] := Assigned(threads[idx], engine);
      engine.intrWorkCpu := idx;
      engine.cmplthp := Some(idx);
    }

    /**
     * `mdlx_thread_remove_work`: detaches the engine from its worker, if it
     * has one, unlinking it from that worker's list.
     */
    method RemoveWork(engine: Engine)
      requires Valid()
      requires engine.cmplthp.Some? ==>
        threads != null && engine.cmplthp.value < threads.Length
        && engine in threads[engine.cmplthp.value].workList
      modifies threads, engine
      ensures Valid()
      ensures engine.cmplthp == None
      ensures old(engine.cmplthp).None? ==> threads == null || threads[..] == old(threads[..])
      ensures old(engine.cmplthp).Some? ==>
        var k := old(engine.cmplthp).value;
        threads[..] == old(threads[..])[k := Unassigned(old(threads[k]), engine)]
      ensures engine.transfers == old(engine.transfers) && engine.deviceOpen == old(engine.deviceOpen)
      ensures engine.cyclicReq == old(engine.cyclicReq) && engine.intrWorkCpu == old(engine.intrWorkCpu)
    {
      var cmplThread := engine.cmplthp;
      engine.cmplthp := None;
      if cmplThread.Some? {
        var k := cmplThread.value;
        threads[k] := Unassigned(threads[k], engine);
      }
    }

    /**
     * `mdlx_kthread_start`: refuses a worker whose thread is already running;
     * otherwise names it, empties its list and records the thread the kernel
     * created (`created`, None when creation failed).
     */
    method KthreadStart(i: nat, id: int, created: Option<nat>, log: Log) returns (rv: int)
      requires threads != null && i < threads.Length
      modifies threads, log
      ensures old(threads[i]).task.Some? ==>
        rv == -EINVAL && threads[..] == old(threads[..]) && log.calls == old(log.calls)
      ensures old(threads[i]).task.None? ==>
        threads[..] == old(threads[..])[i := old(threads[i]).(id := id, workList := [], task := created)]
      ensures old(threads[i]).task.None? && created.None? ==>
        rv == -EFAULT && log.calls == old(log.calls)
      ensures old(threads[i]).task.None? && created.Some? ==>
        rv == 0 && log.calls == old(log.calls) + [CreateThread(created.value)]
    {
      if threads[i].task.Some? {
        return -EINVAL;
      }
      threads[i] := threads[i].(id := id, workList := []);
      threads[i] := threads[i].(task := created);
      if created.None? {
        return -EFAULT;
      }
      log.calls := log.calls + [CreateThread(created.value)];
      rv := 0;
    }

    /**
     * `mdlx_kthread_stop`: nothing to do without a thread; otherwise asks it
     * to run once more and stops it (`stopRv` is what the stop reported),
     * forgetting the thread unless the stop failed.
     */
    method KthreadStop(i: nat, stopRv: int, log: Log) returns (rv: int)
      requires threads != null && i < threads.Length
      modifies threads, log
      ensures old(threads[i]).task.None? ==>
        rv == 0 && threads[..] == old(threads[..]) && log.calls == old(log.calls)
      ensures old(threads[i]).task.Some? ==>
        log.calls == old(log.calls) + [StopThread(old(threads[i]).task.value)]
      ensures old(threads[i]).task.Some? && stopRv < 0 ==>
        rv == stopRv && threads[..] == old(threads[..])[i := old(threads[i]).(schedule := true)]
      ensures old(threads[i]).task.Some? && stopRv >= 0 ==>
        rv == 0 && threads[..] == old(threads[..])[i := old(threads[i]).(schedule := true, task := None)]
    {
      if threads[i].task.None? {
        return 0;
      }
      threads[i] := threads[i].(schedule := true);
      log.calls := log.calls + [StopThread(threads[i].task.value)];
      if stopRv < 0 {
        return stopRv;
      }
      threads[i] := threads[i].(task := None);
      rv := 0;
    }

    /**
     * `mdlx_threads_create`, with the two failure paths repaired: a failed
     * allocation leaves the count at 0, and a failed start stops the workers
     * already started before the array is released. `allocOk` is the
     * allocation's outcome and `created[i]` the thread creation for worker i.
     */
    method Create(num: nat, allocOk: bool, created: seq<Option<nat>>, log: Log) returns (rv: int)
      requires Valid()
      requires |created| == num
      modifies this, log
      ensures Valid()
      ensures old(threadCnt) != 0 ==>
        rv == 0 && threadCnt == old(threadCnt) && threads == old(threads) && log.calls == old(log.calls)
      ensures old(threadCnt) == 0 && !allocOk ==>
        rv == -ENOMEM && threadCnt == 0 && threads == null && log.calls == old(log.calls)
      ensures old(threadCnt) == 0 && allocOk && FirstFailure(created) == num ==>
        && rv == 0 && threadCnt == num && threads != null && fresh(threads)
        && (forall j :: 0 <= j < num ==> threads[j] == Started(j, created[j].value))
        && log.calls == old(log.calls) + Creates(created)
      ensures old(threadCnt) == 0 && allocOk && FirstFailure(created) < num ==>
        var k := FirstFailure(created);
        && rv == -EFAULT && threadCnt == 0 && threads == null
        && log.calls == old(log.calls) + Creates(created[..k]) + Stops(created[..k])
    {
      if threadCnt != 0 {
        return 0;
      }
      if !allocOk {
        threads := null;
        return -ENOMEM;
      }
      threadCnt := num;
      threads := new Worker[num](_ => IdleWorker);
      var k;
      rv, k := StartAll(num, created, log);
      if rv < 0 {
        StopStarted(k, created, log);
        threads := null;
        threadCnt := 0;
      }
    }

    /**
     * The creation loop over a freshly zeroed array: starts workers in order
     * until one fails (its index is `k`) or all have started.
     */
    method StartAll(num: nat, created: seq<Option<nat>>, log: Log) returns (rv: int, k: nat)
      requires threads != null && threads.Length == num && |created| == num
      requires forall j :: 0 <= j < num ==> threads[j] == IdleWorker
      modifies threads, log
      ensures k == FirstFailure(created)
      ensures rv == 0 || rv == -EFAULT
      ensures rv < 0 <==> k < num
      ensures forall j :: 0 <= j < k ==> threads[j] == Started(j, created[j].value)
      ensures log.calls == old(log.calls) + Creates(created[..k])
    {
      var i: nat := 0;
      rv := 0;
      while i < num
        invariant 0 <= i <= num
        invariant FirstFailure(created) >= i
        invariant forall j :: 0 <= j < i ==> threads[j] == Started(j, created[j].value)
        invariant forall j :: i <= j < num ==> threads[j] == IdleWorker
        invariant log.calls == old(log.calls) + Creates(created[..i])
      {
        rv := SetUpWorker(i, created[i], log);
        if rv < 0 {
          return rv, i;
        }
        assert created[..i + 1] == created[..i] + [created[i]];
        i := i + 1;
      }
      assert created[..num] == created;
      return 0, num;
    }

    /** One step of the creation loop: worker i gets its CPU and hooks, then its thread. */
    method SetUpWorker(i: nat, created: Option<nat>, log: Log) returns (rv: int)
      requires threads != null && i < threads.Length && threads[i] == IdleWorker
      modifies threads, log
      ensures forall j :: 0 <= j < threads.Length && j != i ==> threads[j] == old(threads[j])
      ensures created.Some? ==>
        rv == 0 && threads[i] == Started(i, created.value) && log.calls == old(log.calls) + [CreateThread(created.value)]
      ensures created.None? ==> rv == -EFAULT && log.calls == old(log.calls)
    {
      threads[i] := threads[i].(cpu := i, timeout := 0, hasProc := true, hasPending := true);
      rv := KthreadStart(i, i, created, log);
    }

    /** The clean-up of a failed creation: stops workers 0 .. n-1 in order. */
    method StopStarted(n: nat, created: seq<Option<nat>>, log: Log)
      requires threads != null && n <= threads.Length && n <= |created|
      requires forall j :: 0 <= j < n ==> created[j].Some? && threads[j] == Started(j, created[j].value)
      modifies threads, log
      ensures log.calls == old(log.calls) + Stops(created[..n])
    {
      var j: nat := 0;
      while j < n
        invariant 0 <= j <= n
        invariant forall m :: j <= m < n ==> threads[m] == Started(m, created[m].value)
        invariant log.calls == old(log.calls) + Stops(created[..j])
      {
        var stopped := KthreadStop(j, 0, log);
        assert created[..j + 1] == created[..j] + [created[j]];
        j := j + 1;
      }
    }

    /**
     * `mdlx_threads_create` as written: a failed allocation returns -ENOMEM
     * with the count already set, and a failed start releases the array
     * while the workers already started keep running.
     */
    method CreateAsWritten(num: nat, allocOk: bool, created: seq<Option<nat>>, log: Log) returns (rv: int)
      requires |created| == num
      modifies this, log
      ensures old(threadCnt) != 0 ==>
        rv == 0 && threadCnt == old(threadCnt) && threads == old(threads) && log.calls == old(log.calls)
      ensures old(threadCnt) == 0 && !allocOk ==>
        rv == -ENOMEM && threadCnt == num && threads == null && log.calls == old(log.calls)
      ensures old(threadCnt) == 0 && allocOk && FirstFailure(created) == num ==>
        && rv == 0 && threadCnt == num && threads != null && fresh(threads) && Valid()
        && (forall j :: 0 <= j < num ==> threads[j] == Started(j, created[j].value))
        && log.calls == old(log.calls) + Creates(created)
      ensures old(threadCnt) == 0 && allocOk && FirstFailure(created) < num ==>
        && rv == -EFAULT && threadCnt == 0 && threads == null
        && log.calls == old(log.calls) + Creates(created[..FirstFailure(created)])
    {
      if threadCnt != 0 {
        return 0;
      }
      threadCnt := num;
      if !allocOk {
        threads := null;
        return -ENOMEM;
      }
      threads := new Worker[num](_ => IdleWorker);
      var k;
      rv, k := StartAll(num, created, log);
      if rv < 0 {
        threads := null;
        threadCnt := 0;
      }
    }

    /**
     * `mdlx_threads_destroy`: with workers present, stops every worker that
     * has its hook installed, releases the array and resets the count.
     */
    method Destroy(stopRvs: seq<int>, log: Log)
      requires Valid() && |stopRvs| == threadCnt
      modifies this, threads, log
      ensures Valid()
      ensures old(threadCnt) == 0 ==>
        threadCnt == 0 && threads == old(threads) && log.calls == old(log.calls)
      ensures old(threadCnt) != 0 ==>
        threadCnt == 0 && threads == null && log.calls == old(log.calls) + DestroyStops(old(threads[..]))
    {
      if threadCnt == 0 {
        return;
      }
      ghost var ws := threads[..];
      var i: nat := 0;
      while i < threadCnt
        invariant 0 <= i <= threadCnt && threads != null && threads.Length == threadCnt
        invariant |ws| == threadCnt && threads == old(threads)
        invariant threads[i..] == ws[i..]
        invariant log.calls == old(log.calls) + DestroyStops(ws[..i])
      {
        assert ws[..i + 1] == ws[..i] + [ws[i]];
        if threads[i].hasProc {
          var stopped := KthreadStop(i, stopRvs[i], log);
        }
        assert threads[i + 1..] == ws[i + 1..];
        i := i + 1;
      }
      assert ws[..threadCnt] == ws;
      threads := null;
      threadCnt := 0;
    }
  }

  /**
   * The pool the driver creates: with the allocation failing, the written
   * code is left claiming eight workers and holding none, so a second
   * creation reports success and still allocates nothing.
   */
  method AllocationFailureAsWritten() returns (cnt: nat, hasArray: bool, secondRv: int, stillNone: bool)
    ensures cnt == POOL_SIZE && !hasArray
    ensures secondRv == 0 && stillNone
  {
    var pool := new Pool();
    var log := new Log();
    var none := seq(POOL_SIZE, _ => None);
    var rv := pool.CreateAsWritten(POOL_SIZE, false, none, log);
    cnt, hasArray := pool.threadCnt, pool.threads != null;
    assert !pool.Valid();
    secondRv := pool.CreateAsWritten(POOL_SIZE, true, none, log);
    stillNone := pool.threads == null;
  }

  /** The repaired creation leaves an empty, valid pool after the same failure. */
  method AllocationFailureRepaired() returns (cnt: nat, hasArray: bool)
    ensures cnt == 0 && !hasArray
  {
    var pool := new Pool();
    var log := new Log();
    var none := seq(POOL_SIZE, _ => None);
    var rv := pool.Create(POOL_SIZE, false, none, log);
    cnt, hasArray := pool.threadCnt, pool.threads != null;
  }

  /**
   * Two workers, the second one's thread failing to start: the written code
   * creates the first worker's thread and never stops it.
   */
  method StartFailureAsWritten() returns (calls: seq<Call>)
    ensures calls == [CreateThread(7)]
  {
    var pool := new Pool();
    var log := new Log();
    var created := [Some(7), None];
    assert FirstFailure(created) == 1;
    var rv := pool.CreateAsWritten(2, true, created, log);
    calls := log.calls;
  }

  /** The repaired creation stops the first worker's thread after the failure. */
  method StartFailureRepaired() returns (calls: seq<Call>)
    ensures calls == [CreateThread(7), StopThread(7)]
  {
    var pool := new Pool();
    var log := new Log();
    var created := [Some(7), None];
    assert FirstFailure(created) == 1;
    var rv := pool.Create(2, true, created, log);
    calls := log.calls;
  }
}
