/** Scheduler queues and mutex hand-off (kernel/proc/sched.c, kernel/proc/kmutex.c) as a step system.

    The kernel does not preempt: the current thread runs until it sleeps, yields or exits, and then
    `sched_switch` takes the next thread from the run queue, waiting for interrupts while there is
    none.  `kmutex_lock` is in two steps when the mutex is taken: up to the sleep, and what it does
    once the thread runs again. */
module Scheduler {
  import opened Lists

  /** The run queue, a wait queue of some driver, or the wait queue of a mutex. */
  datatype Chan = RunQ | WaitQ(q: nat) | MutexQ(m: nat)

  datatype KtState = NoState | Run | Sleep | Exited

  datatype Thread = Thread(state: KtState, wchan: Option<Chan>)

  /** A queue: the list with the latest arrival first, and its size. */
  datatype Queue = Queue(list: seq<nat>, size: nat)

  /** `cur` is None while `sched_switch` has not found the next thread.  `locking` are the threads
      that have gone to sleep in `kmutex_lock` and not yet returned from it; `inside` the pairs of a
      thread and a mutex it has locked.  `arrivals` and `grants` list, latest first, the threads
      that asked for each mutex and that were given it. */
  datatype State = State(cur: Option<nat>, threads: map<nat, Thread>, queues: map<Chan, Queue>,
                         holder: map<nat, Option<nat>>, locking: map<nat, nat>, inside: set<(nat, nat)>,
                         arrivals: map<nat, seq<nat>>, grants: map<nat, seq<nat>>)

  // ----- the queues -----

  ghost predicate QueuesOk(threads: map<nat, Thread>, queues: map<Chan, Queue>) {
    && RunQ in queues
    && (forall q :: q in queues ==> NoDup(queues[q].list) && queues[q].size == |queues[q].list|)
    && (forall q, t :: q in queues && t in queues[q].list ==> t in threads && threads[t].wchan == Some(q))
    && (forall t :: t in threads && threads[t].wchan.Some? ==>
          threads[t].wchan.value in queues && t in queues[threads[t].wchan.value].list)
  }

  function Enqueued(queues: map<Chan, Queue>, q: Chan, t: nat): map<Chan, Queue>
    requires q in queues
  {
    queues[q := Queue([t] + queues[q].list, queues[q].size + 1)]
  }

  function Dequeued(queues: map<Chan, Queue>, q: Chan): map<Chan, Queue>
    requires q in queues && queues[q].list != [] && queues[q].size > 0
  {
    queues[q := Queue(queues[q].list[..|queues[q].list| - 1], queues[q].size - 1)]
  }

  function First(queues: map<Chan, Queue>, q: Chan): nat
    requires q in queues && queues[q].list != []
  {
    queues[q].list[|queues[q].list| - 1]
  }

  function Moved(threads: map<nat, Thread>, t: nat, state: KtState, wchan: Option<Chan>): map<nat, Thread> {
    threads[t := Thread(state, wchan)]
  }

  lemma EnqueueOk(threads: map<nat, Thread>, queues: map<Chan, Queue>, q: Chan, t: nat, state: KtState)
    requires QueuesOk(threads, queues) && q in queues && t in threads && threads[t].wchan == None
    ensures QueuesOk(Moved(threads, t, state, Some(q)), Enqueued(queues, q, t))
  {
    NoDupCons(queues[q].list, t);
  }

  lemma DequeueOk(threads: map<nat, Thread>, queues: map<Chan, Queue>, q: Chan, state: KtState)
    requires QueuesOk(threads, queues) && q in queues && queues[q].list != []
    ensures queues[q].size > 0 && First(queues, q) in threads && NoDup(queues[q].list)
    ensures var t := First(queues, q);
            QueuesOk(Moved(threads, t, state, None), Dequeued(queues, q)) && threads[t].wchan == Some(q)
  {
    hide NoDup;
    LastOut(queues[q].list);
  }

  lemma LastOut(list: seq<nat>)
    requires NoDup(list) && list != []
    ensures var rest, t := list[..|list| - 1], list[|list| - 1];
            NoDup(rest) && forall x :: x in rest <==> x in list && x != t
  {
    var rest, t := list[..|list| - 1], list[|list| - 1];
    assert forall i :: 0 <= i < |rest| ==> rest[i] == list[i] && list[i] != t;
    assert list == rest + [t];
  }

  lemma StateOk(threads: map<nat, Thread>, queues: map<Chan, Queue>, t: nat, state: KtState)
    requires QueuesOk(threads, queues) && t in threads
    ensures QueuesOk(Moved(threads, t, state, threads[t].wchan), queues)
  {
  }

  // ----- who runs and who sleeps -----

  /** No thread is lost: a runnable one is current or on the run queue, a sleeping one on a wait
      queue, and nobody else is on any queue. */
  ghost predicate StatesOk(cur: Option<nat>, threads: map<nat, Thread>) {
    && (cur.Some? ==> cur.value in threads && threads[cur.value] == Thread(Run, None))
    && forall t :: t in threads ==>
         match threads[t].state
         case Run => threads[t].wchan == Some(RunQ) || (cur == Some(t) && threads[t].wchan == None)
         case Sleep => threads[t].wchan.Some? && threads[t].wchan.value != RunQ
         case _ => threads[t].wchan == None && cur != Some(t)
  }

  lemma StatesSleep(threads: map<nat, Thread>, t: nat, q: Chan)
    requires StatesOk(Some(t), threads) && q != RunQ
    ensures StatesOk(None, Moved(threads, t, Sleep, Some(q)))
  {
  }

  lemma StatesYield(threads: map<nat, Thread>, t: nat)
    requires StatesOk(Some(t), threads)
    ensures StatesOk(None, Moved(threads, t, Run, Some(RunQ)))
  {
  }

  lemma StatesWake(cur: Option<nat>, threads: map<nat, Thread>, t: nat)
    requires StatesOk(cur, threads) && t in threads && threads[t].state != Run
    ensures StatesOk(cur, Moved(threads, t, Run, Some(RunQ)))
  {
  }

  lemma StatesExit(threads: map<nat, Thread>, t: nat)
    requires StatesOk(Some(t), threads)
    ensures StatesOk(None, Moved(threads, t, Exited, None))
  {
  }

  lemma StatesDispatch(threads: map<nat, Thread>, t: nat)
    requires StatesOk(None, threads) && t in threads && threads[t].wchan == Some(RunQ)
    ensures StatesOk(Some(t), Moved(threads, t, Run, None))
  {
  }

  /** Who is on a wait queue sleeps. */
  lemma Waiting(cur: Option<nat>, threads: map<nat, Thread>, t: nat)
    requires StatesOk(cur, threads) && t in threads && threads[t].wchan.Some? && threads[t].wchan.value != RunQ
    ensures threads[t].state == Sleep && cur != Some(t)
  {
  }

  // ----- the mutexes -----

  /** `locking`, `inside` and the wait queue of each mutex against its holder. */
  ghost predicate MutexesOk(queues: map<Chan, Queue>, holder: map<nat, Option<nat>>, locking: map<nat, nat>,
                            inside: set<(nat, nat)>) {
    && (forall m :: m in holder <==> MutexQ(m) in queues)
    && (forall m :: m in holder && holder[m].None? ==> queues[MutexQ(m)].list == [])
    && (forall m, t :: m in holder && t in queues[MutexQ(m)].list ==>
         t in locking && locking[t] == m && holder[m] != Some(t))
    && (forall t :: t in locking ==> locking[t] in holder && Awaits(queues, holder, t, locking[t]))
    && (forall t, m :: (t, m) in inside ==> m in holder && holder[m] == Some(t) && !(t in locking && locking[t] == m))
    && (forall m :: m in holder && holder[m].Some? ==> Has(locking, inside, holder[m].value, m))
  }

  /** Thread `t` waits for mutex `m` or has been given it. */
  ghost predicate Awaits(queues: map<Chan, Queue>, holder: map<nat, Option<nat>>, t: nat, m: nat)
    requires m in holder
  {
    (MutexQ(m) in queues && t in queues[MutexQ(m)].list) || holder[m] == Some(t)
  }

  /** Thread `t` has been given mutex `m`: it has locked it, or will as soon as it runs. */
  ghost predicate Has(locking: map<nat, nat>, inside: set<(nat, nat)>, t: nat, m: nat) {
    (t, m) in inside || (t in locking && locking[t] == m)
  }

  /** First come, first served: whoever asked and does not wait was given the mutex in that order. */
  ghost predicate HistoryOk(queues: map<Chan, Queue>, holder: map<nat, Option<nat>>,
                            arrivals: map<nat, seq<nat>>, grants: map<nat, seq<nat>>)
  {
    forall m :: m in holder ==>
      && MutexQ(m) in queues && m in arrivals && m in grants
      && arrivals[m] == queues[MutexQ(m)].list + grants[m]
      && (holder[m].Some? ==> grants[m] != [] && grants[m][0] == holder[m].value)
  }

  ghost predicate Inv(s: State) {
    && QueuesOk(s.threads, s.queues) && StatesOk(s.cur, s.threads)
    && MutexesOk(s.queues, s.holder, s.locking, s.inside)
    && HistoryOk(s.queues, s.holder, s.arrivals, s.grants)
    && (forall t :: t in s.locking ==> t in s.threads)
  }

  /** At most one thread is inside a mutex. */
  lemma MutualExclusion(s: State, t: nat, u: nat, m: nat)
    requires Inv(s) && (t, m) in s.inside && (u, m) in s.inside
    ensures t == u && s.holder[m] == Some(t)
  {
  }

  // ----- the steps -----

  datatype Action =
    | Lock(m: nat)        // kmutex_lock, up to the sleep if the mutex is taken
    | LockReturn          // the rest of kmutex_lock, once the thread runs again
    | Unlock(m: nat)      // kmutex_unlock
    | SleepOn(q: nat)     // sched_sleep_on on a driver's queue
    | WakeupOn(q: nat)    // sched_wakeup_on, also from an interrupt
    | BroadcastOn(q: nat) // sched_broadcast_on, also from an interrupt
    | Spawn(t: nat)       // sched_make_runnable of a new thread
    | Yield               // sched_make_runnable of the current thread, and sched_switch
    | Exit                // the end of a thread
    | Dispatch            // sched_switch finds the next thread

  /** What the kernel's assertions and the order of its code demand. */
  predicate Enabled(s: State, a: Action) {
    match a
    case Lock(m) => s.cur.Some? && s.cur.value !in s.locking && m in s.holder && s.holder[m] != s.cur
    case LockReturn => s.cur.Some? && s.cur.value in s.locking
    case Unlock(m) => s.cur.Some? && s.cur.value !in s.locking && m in s.holder && s.holder[m] == s.cur
    case SleepOn(q) => s.cur.Some? && s.cur.value !in s.locking && WaitQ(q) in s.queues
    case WakeupOn(q) => WaitQ(q) in s.queues
    case BroadcastOn(q) => WaitQ(q) in s.queues
    case Spawn(t) => s.cur.Some? && s.cur.value !in s.locking && t in s.threads && s.threads[t].state == NoState
    case Yield => s.cur.Some? && s.cur.value !in s.locking
    case Exit => s.cur.Some? && s.cur.value !in s.locking
    case Dispatch => s.cur.None? && RunQ in s.queues && s.queues[RunQ].list != []
  }

  /** The longest waiting thread of a queue becomes runnable, if there is one. */
  function Woken(s: State, q: Chan): (s': State)
    requires QueuesOk(s.threads, s.queues) && q in s.queues
    ensures QueuesOk(s'.threads, s'.queues) && s'.queues.Keys == s.queues.Keys
    ensures s.queues[q].list != [] && q != RunQ ==> |s'.queues[q].list| < |s.queues[q].list|
  {
    if s.queues[q].list == [] then s
    else
      DequeueOk(s.threads, s.queues, q, Run);
      var t := First(s.queues, q);
      EnqueueOk(Moved(s.threads, t, Run, None), Dequeued(s.queues, q), RunQ, t, Run);
      assert Moved(Moved(s.threads, t, Run, None), t, Run, Some(RunQ)) == Moved(s.threads, t, Run, Some(RunQ));
      s.(threads := Moved(s.threads, t, Run, Some(RunQ)), queues := Enqueued(Dequeued(s.queues, q), RunQ, t))
  }

  function Broadcast(s: State, q: Chan): State
    requires QueuesOk(s.threads, s.queues) && q in s.queues && q != RunQ
    decreases |s.queues[q].list|
  {
    if s.queues[q].list == [] then s else Broadcast(Woken(s, q), q)
  }

  /** The state after a step. */
  function Step(s: State, a: Action): State
    requires Inv(s) && Enabled(s, a)
  {
    match a
    case Lock(m) =>
      var t := s.cur.value;
      if s.holder[m].None? then
        s.(holder := s.holder[m := Some(t)], inside := s.inside + {(t, m)},
        arrivals := s.arrivals[m := [t] + s.arrivals[m]], grants := s.grants[m := [t] + s.grants[m]])
      else
        s.(cur := None, threads := Moved(s.threads, t, Sleep, Some(MutexQ(m))),
              queues := Enqueued(s.queues, MutexQ(m), t),
        locking := s.locking[t := m], arrivals := s.arrivals[m := [t] + s.arrivals[m]])
    case LockReturn =>
      var t := s.cur.value;
      var m := s.locking[t];
      s.(holder := s.holder[m := Some(t)], locking := s.locking - {t}, inside := s.inside + {(t, m)})
    case Unlock(m) =>
      var t := s.cur.value;
      var left := s.(inside := s.inside - {(t, m)});
      if s.queues[MutexQ(m)].list == [] then left.(holder := s.holder[m := None])
      else
        var u := First(s.queues, MutexQ(m));
        Woken(left, MutexQ(m)).(holder := s.holder[m := Some(u)], grants := s.grants[m := [u] + s.grants[m]])
    case SleepOn(q) =>
      var t := s.cur.value;
      s.(cur := None, threads := Moved(s.threads, t, Sleep, Some(WaitQ(q))), queues := Enqueued(s.queues, WaitQ(q), t))
    case WakeupOn(q) => Woken(s, WaitQ(q))
    case BroadcastOn(q) => Broadcast(s, WaitQ(q))
    case Spawn(t) =>
      s.(threads := Moved(s.threads, t, Run, Some(RunQ)), queues := Enqueued(s.queues, RunQ, t))
    case Yield =>
      var t := s.cur.value;
      s.(cur := None, threads := Moved(s.threads, t, Run, Some(RunQ)), queues := Enqueued(s.queues, RunQ, t))
    case Exit =>
      s.(cur := None, threads := Moved(s.threads, s.cur.value, Exited, None))
    case Dispatch =>
      var t := First(s.queues, RunQ);
      s.(cur := Some(t), threads := Moved(s.threads, t, Run, None), queues := Dequeued(s.queues, RunQ))
  }

  // ----- every step keeps the invariant -----

  /** Changes to other queues do not concern the mutexes. */
  lemma MutexFrame(s: State, queues': map<Chan, Queue>)
    requires MutexesOk(s.queues, s.holder, s.locking, s.inside) && HistoryOk(s.queues, s.holder, s.arrivals, s.grants)
    requires SameMutexQueues(s.queues, queues')
    ensures MutexesOk(queues', s.holder, s.locking, s.inside) && HistoryOk(queues', s.holder, s.arrivals, s.grants)
  {
    hide MutexesOk;
    MutexesFrame(s.queues, queues', s.holder, s.locking, s.inside);
  }

  ghost predicate SameMutexQueues(queues: map<Chan, Queue>, queues': map<Chan, Queue>) {
    queues'.Keys == queues.Keys && forall m :: MutexQ(m) in queues' ==> queues'[MutexQ(m)] == queues[MutexQ(m)]
  }

  lemma MutexesFrame(queues: map<Chan, Queue>, queues': map<Chan, Queue>, holder: map<nat, Option<nat>>,
                     locking: map<nat, nat>, inside: set<(nat, nat)>)
    requires MutexesOk(queues, holder, locking, inside) && SameMutexQueues(queues, queues')
    ensures MutexesOk(queues', holder, locking, inside)
  {
    hide Has;
    forall t | t in locking
      ensures Awaits(queues', holder, t, locking[t])
    {
      assert Awaits(queues, holder, t, locking[t]);
    }
  }

  lemma WokenInv(s: State, q: Chan)
    requires Inv(s) && q in s.queues && q.WaitQ?
    ensures Inv(Woken(s, q)) && Woken(s, q).cur == s.cur
  {
    hide MutexesOk, HistoryOk, QueuesOk, StatesOk;
    WokenStates(s, q);
    MutexFrame(s, Woken(s, q).queues);
  }

  lemma WokenStates(s: State, q: Chan)
    requires QueuesOk(s.threads, s.queues) && StatesOk(s.cur, s.threads) && q in s.queues && q != RunQ
    ensures var s' := Woken(s, q);
            && StatesOk(s'.cur, s'.threads) && s'.threads.Keys == s.threads.Keys
            && (forall r :: r in s.queues && r != q && r != RunQ ==> s'.queues[r] == s.queues[r])
            && (s.queues[q].list != [] ==> s'.queues[q].list == s.queues[q].list[..|s.queues[q].list| - 1])
  {
    hide QueuesOk, StatesOk;
    if s.queues[q].list != [] {
      DequeueOk(s.threads, s.queues, q, Run);
      var t := First(s.queues, q);
      Waiting(s.cur, s.threads, t);
      StatesWake(s.cur, s.threads, t);
    }
  }

  lemma {:induction false} BroadcastInv(s: State, q: Chan)
    requires Inv(s) && q in s.queues && q.WaitQ?
    ensures Inv(Broadcast(s, q))
    decreases |s.queues[q].list|
  {
    hide Inv, QueuesOk;
    QueuesOfInv(s);
    if s.queues[q].list != [] {
      WokenInv(s, q);
      BroadcastInv(Woken(s, q), q);
    }
  }

  lemma QueuesOfInv(s: State)
    requires Inv(s)
    ensures QueuesOk(s.threads, s.queues)
  {
  }

  lemma LockInv(s: State, m: nat)
    requires Inv(s) && Enabled(s, Lock(m))
    ensures Inv(Step(s, Lock(m)))
  {
    hide QueuesOk, StatesOk, MutexesOk, HistoryOk;
    var t := s.cur.value;
    CurFree(s.threads, t);
    if s.holder[m].Some? {
      MutexQueued(s.queues, s.holder, s.locking, s.inside, m);
      EnqueueOk(s.threads, s.queues, MutexQ(m), t, Sleep);
      StatesSleep(s.threads, t, MutexQ(m));
      LockSleepMutexes(s.queues, s.holder, s.locking, s.inside, t, m);
      LockSleepHistory(s.queues, s.holder, s.arrivals, s.grants, t, m);
    } else {
      MutexQueued(s.queues, s.holder, s.locking, s.inside, m);
      LockFreeMutexes(s.queues, s.holder, s.locking, s.inside, t, m);
      LockFreeHistory(s.queues, s.holder, s.arrivals, s.grants, t, m);
    }
  }

  lemma CurFree(threads: map<nat, Thread>, t: nat)
    requires StatesOk(Some(t), threads)
    ensures t in threads && threads[t].wchan == None
  {
  }

  lemma MutexQueued(queues: map<Chan, Queue>, holder: map<nat, Option<nat>>, locking: map<nat, nat>,
                    inside: set<(nat, nat)>, m: nat)
    requires MutexesOk(queues, holder, locking, inside) && m in holder
    ensures MutexQ(m) in queues && (holder[m].None? ==> queues[MutexQ(m)].list == [])
  {
  }

  lemma LockFreeHistory(queues: map<Chan, Queue>, holder: map<nat, Option<nat>>,
                        arrivals: map<nat, seq<nat>>, grants: map<nat, seq<nat>>, t: nat, m: nat)
    requires HistoryOk(queues, holder, arrivals, grants) && m in holder && MutexQ(m) in queues
             && queues[MutexQ(m)].list == []
    ensures HistoryOk(queues, holder[m := Some(t)], arrivals[m := [t] + arrivals[m]], grants[m := [t] + grants[m]])
  {
  }

  lemma LockSleepHistory(queues: map<Chan, Queue>, holder: map<nat, Option<nat>>,
                         arrivals: map<nat, seq<nat>>, grants: map<nat, seq<nat>>, t: nat, m: nat)
    requires HistoryOk(queues, holder, arrivals, grants) && m in holder && MutexQ(m) in queues
    ensures HistoryOk(Enqueued(queues, MutexQ(m), t), holder, arrivals[m := [t] + arrivals[m]], grants)
  {
    assert [t] + (queues[MutexQ(m)].list + grants[m]) == [t] + queues[MutexQ(m)].list + grants[m];
  }

  lemma LockFreeMutexes(queues: map<Chan, Queue>, holder: map<nat, Option<nat>>, locking: map<nat, nat>,
                        inside: set<(nat, nat)>, t: nat, m: nat)
    requires MutexesOk(queues, holder, locking, inside) && m in holder && holder[m].None? && t !in locking
    ensures MutexesOk(queues, holder[m := Some(t)], locking, inside + {(t, m)})
  {
    var holder', inside' := holder[m := Some(t)], inside + {(t, m)};
    forall x | x in locking
      ensures Awaits(queues, holder', x, locking[x])
    {
      assert Awaits(queues, holder, x, locking[x]);
    }
    forall n | n in holder' && holder'[n].Some?
      ensures Has(locking, inside', holder'[n].value, n)
    {
      assert n != m ==> Has(locking, inside, holder[n].value, n);
    }
  }

  lemma LockSleepMutexes(queues: map<Chan, Queue>, holder: map<nat, Option<nat>>, locking: map<nat, nat>,
                         inside: set<(nat, nat)>, t: nat, m: nat)
    requires MutexesOk(queues, holder, locking, inside) && m in holder && holder[m].Some? && holder[m] != Some(t)
             && t !in locking
    requires MutexQ(m) in queues
    ensures MutexesOk(Enqueued(queues, MutexQ(m), t), holder, locking[t := m], inside)
  {
    var queues', locking' := Enqueued(queues, MutexQ(m), t), locking[t := m];
    assert forall x :: x in queues'[MutexQ(m)].list <==> x == t || x in queues[MutexQ(m)].list;
    forall x | x in locking'
      ensures Awaits(queues', holder, x, locking'[x])
    {
      assert x != t ==> Awaits(queues, holder, x, locking[x]);
    }
    forall n | n in holder && holder[n].Some?
      ensures Has(locking', inside, holder[n].value, n)
    {
      assert Has(locking, inside, holder[n].value, n);
    }
  }

  /** When a thread that slept in `kmutex_lock` runs again the mutex is its own already. */
  lemma GivenBeforeRunning(s: State)
    requires Inv(s) && Enabled(s, LockReturn)
    ensures s.locking[s.cur.value] in s.holder && s.holder[s.locking[s.cur.value]] == s.cur
  {
    hide QueuesOk, StatesOk, MutexesOk, HistoryOk;
    CurFree(s.threads, s.cur.value);
    NotQueued(s.threads, s.queues, s.cur.value);
    AwaitsOrHas(s.queues, s.holder, s.locking, s.inside, s.cur.value);
  }

  lemma NotQueued(threads: map<nat, Thread>, queues: map<Chan, Queue>, t: nat)
    requires QueuesOk(threads, queues) && t in threads && threads[t].wchan == None
    ensures forall q :: q in queues ==> t !in queues[q].list
  {
  }

  lemma AwaitsOrHas(queues: map<Chan, Queue>, holder: map<nat, Option<nat>>, locking: map<nat, nat>,
                    inside: set<(nat, nat)>, t: nat)
    requires MutexesOk(queues, holder, locking, inside) && t in locking
             && forall q :: q in queues ==> t !in queues[q].list
    ensures locking[t] in holder && holder[locking[t]] == Some(t)
  {
    assert Awaits(queues, holder, t, locking[t]);
  }

  lemma LockReturnInv(s: State)
    requires Inv(s) && Enabled(s, LockReturn)
    ensures Inv(Step(s, LockReturn))
  {
    hide QueuesOk, StatesOk, MutexesOk, HistoryOk;
    GivenBeforeRunning(s);
    var t := s.cur.value;
    assert s.holder[s.locking[t] := Some(t)] == s.holder;
    LockReturnMutexes(s.queues, s.holder, s.locking, s.inside, t);
  }

  lemma LockReturnMutexes(queues: map<Chan, Queue>, holder: map<nat, Option<nat>>, locking: map<nat, nat>,
                          inside: set<(nat, nat)>, t: nat)
    requires MutexesOk(queues, holder, locking, inside) && t in locking && locking[t] in holder
             && holder[locking[t]] == Some(t)
    ensures MutexesOk(queues, holder, locking - {t}, inside + {(t, locking[t])})
  {
    var m, locking', inside' := locking[t], locking - {t}, inside + {(t, locking[t])};
    forall x | x in locking'
      ensures Awaits(queues, holder, x, locking'[x])
    {
      assert Awaits(queues, holder, x, locking[x]);
    }
    forall n | n in holder && holder[n].Some?
      ensures Has(locking', inside', holder[n].value, n)
    {
      assert Has(locking, inside, holder[n].value, n);
    }
  }

  lemma UnlockInv(s: State, m: nat)
    requires Inv(s) && Enabled(s, Unlock(m))
    ensures Inv(Step(s, Unlock(m)))
  {
    hide QueuesOk, StatesOk, MutexesOk, HistoryOk;
    MutexQueued(s.queues, s.holder, s.locking, s.inside, m);
    if s.queues[MutexQ(m)].list == [] {
      UnlockIdle(s.queues, s.holder, s.locking, s.inside, s.cur.value, m);
      UnlockIdleHistory(s.queues, s.holder, s.arrivals, s.grants, m);
    } else {
      UnlockHandOff(s, m);
    }
  }

  lemma UnlockIdle(queues: map<Chan, Queue>, holder: map<nat, Option<nat>>, locking: map<nat, nat>,
                   inside: set<(nat, nat)>, t: nat, m: nat)
    requires MutexesOk(queues, holder, locking, inside) && m in holder && holder[m] == Some(t) && t !in locking
    requires MutexQ(m) in queues && queues[MutexQ(m)].list == []
    ensures MutexesOk(queues, holder[m := None], locking, inside - {(t, m)})
  {
    var holder', inside' := holder[m := None], inside - {(t, m)};
    forall x | x in locking
      ensures Awaits(queues, holder', x, locking[x])
    {
      assert Awaits(queues, holder, x, locking[x]);
    }
    forall n | n in holder' && holder'[n].Some?
      ensures Has(locking, inside', holder'[n].value, n)
    {
      assert Has(locking, inside, holder[n].value, n);
    }
  }

  lemma UnlockIdleHistory(queues: map<Chan, Queue>, holder: map<nat, Option<nat>>,
                          arrivals: map<nat, seq<nat>>, grants: map<nat, seq<nat>>, m: nat)
    requires HistoryOk(queues, holder, arrivals, grants) && m in holder
    ensures HistoryOk(queues, holder[m := None], arrivals, grants)
  {
  }

  /** With waiters, the mutex goes to the one that came first, before it has run. */
  lemma UnlockHandOff(s: State, m: nat)
    requires Inv(s) && Enabled(s, Unlock(m)) && s.queues[MutexQ(m)].list != []
    ensures var s', u := Step(s, Unlock(m)), First(s.queues, MutexQ(m));
            && Inv(s') && s'.holder[m] == Some(u) && Some(u) != s.cur
            && s'.queues[MutexQ(m)].list == s.queues[MutexQ(m)].list[..|s.queues[MutexQ(m)].list| - 1]
  {
    hide QueuesOk, StatesOk, MutexesOk, HistoryOk;
    var left := s.(inside := s.inside - {(s.cur.value, m)});
    var s', u := Step(s, Unlock(m)), First(s.queues, MutexQ(m));
    DequeueOk(s.threads, s.queues, MutexQ(m), Run);
    Waiting(s.cur, s.threads, u);
    WokenStates(left, MutexQ(m));
    HandOffMutexes(s.queues, s'.queues, s.holder, s.locking, s.inside, s.cur.value, m);
    HandOffHistory(s.queues, s'.queues, s.holder, s.arrivals, s.grants, m);
  }

  /** Queue `MutexQ(m)` without its first waiter, the other mutexes' queues as before. */
  ghost predicate TookFirst(queues: map<Chan, Queue>, queues': map<Chan, Queue>, m: nat) {
    && MutexQ(m) in queues && queues'.Keys == queues.Keys && queues[MutexQ(m)].list != []
    && queues[MutexQ(m)].list == queues'[MutexQ(m)].list + [First(queues, MutexQ(m))]
    && (forall n :: MutexQ(n) in queues && n != m ==> queues'[MutexQ(n)] == queues[MutexQ(n)])
  }

  lemma HandOffMutexes(queues: map<Chan, Queue>, queues': map<Chan, Queue>, holder: map<nat, Option<nat>>,
                       locking: map<nat, nat>, inside: set<(nat, nat)>, t: nat, m: nat)
    requires MutexesOk(queues, holder, locking, inside) && m in holder && holder[m] == Some(t) && t !in locking
    requires TookFirst(queues, queues', m) && NoDup(queues[MutexQ(m)].list)
    ensures MutexesOk(queues', holder[m := Some(First(queues, MutexQ(m)))], locking, inside - {(t, m)})
  {
    var u := First(queues, MutexQ(m));
    var holder', inside' := holder[m := Some(u)], inside - {(t, m)};
    var list, list' := queues[MutexQ(m)].list, queues'[MutexQ(m)].list;
    assert list[|list| - 1] == u && u in list;
    assert forall i :: 0 <= i < |list'| ==> list'[i] == list[i] && list[i] != list[|list| - 1];
    assert forall x :: x in list' ==> x in list;
    forall x | x in locking
      ensures Awaits(queues', holder', x, locking[x])
    {
      assert Awaits(queues, holder, x, locking[x]);
    }
    forall n | n in holder' && holder'[n].Some?
      ensures Has(locking, inside', holder'[n].value, n)
    {
      assert n != m ==> Has(locking, inside, holder[n].value, n);
    }
  }

  lemma HandOffHistory(queues: map<Chan, Queue>, queues': map<Chan, Queue>, holder: map<nat, Option<nat>>,
                       arrivals: map<nat, seq<nat>>, grants: map<nat, seq<nat>>, m: nat)
    requires HistoryOk(queues, holder, arrivals, grants) && m in holder && TookFirst(queues, queues', m)
    ensures var u := First(queues, MutexQ(m));
            HistoryOk(queues', holder[m := Some(u)], arrivals, grants[m := [u] + grants[m]])
  {
    var u, list' := First(queues, MutexQ(m)), queues'[MutexQ(m)].list;
    assert list' + [u] + grants[m] == list' + ([u] + grants[m]);
  }

  /** The steps that leave the mutexes alone. */
  lemma QueueStepInv(s: State, a: Action)
    requires Inv(s) && Enabled(s, a) && (a.SleepOn? || a.Spawn? || a.Yield? || a.Exit? || a.Dispatch?)
    ensures Inv(Step(s, a))
  {
    hide QueuesOk, StatesOk, MutexesOk, HistoryOk;
    RunQueue(s.threads, s.queues);
    MutexFrame(s, Step(s, a).queues);
    if s.cur.Some? { CurFree(s.threads, s.cur.value); }
    match a {
      case SleepOn(q) => EnqueueOk(s.threads, s.queues, WaitQ(q), s.cur.value, Sleep);
            StatesSleep(s.threads, s.cur.value, WaitQ(q));
      case Spawn(t) => SpawnOk(s.cur, s.threads, t); EnqueueOk(s.threads, s.queues, RunQ, t, Run);
            StatesWake(s.cur, s.threads, t);
      case Yield => EnqueueOk(s.threads, s.queues, RunQ, s.cur.value, Run); StatesYield(s.threads, s.cur.value);
      case Exit => StateOk(s.threads, s.queues, s.cur.value, Exited); StatesExit(s.threads, s.cur.value);
      case Dispatch => DequeueOk(s.threads, s.queues, RunQ, Run); StatesDispatch(s.threads, First(s.queues, RunQ));
    }
  }

  lemma RunQueue(threads: map<nat, Thread>, queues: map<Chan, Queue>)
    requires QueuesOk(threads, queues)
    ensures RunQ in queues
  {
  }

  lemma SpawnOk(cur: Option<nat>, threads: map<nat, Thread>, t: nat)
    requires StatesOk(cur, threads) && t in threads && threads[t].state == NoState
    ensures threads[t].wchan == None
  {
  }

  lemma StepInv(s: State, a: Action)
    requires Inv(s) && Enabled(s, a)
    ensures Inv(Step(s, a))
  {
    hide Inv, Step;
    match a {
      case Lock(m) => LockInv(s, m);
      case LockReturn => LockReturnInv(s);
      case Unlock(m) => UnlockInv(s, m);
      case WakeupOn(q) => WokenInv(s, WaitQ(q)); StepsOf(s, a);
      case BroadcastOn(q) => BroadcastInv(s, WaitQ(q)); StepsOf(s, a);
      case _ => QueueStepInv(s, a);
    }
  }

  lemma StepsOf(s: State, a: Action)
    requires Inv(s) && Enabled(s, a)
    ensures a.WakeupOn? ==> Step(s, a) == Woken(s, WaitQ(a.q))
    ensures a.BroadcastOn? ==> Step(s, a) == Broadcast(s, WaitQ(a.q))
  {
  }

  /** Boot: one thread runs, the others are new, every queue is empty and every mutex free. */
  ghost predicate Boot(s: State) {
    && s.cur.Some? && s.cur.value in s.threads
    && (forall t :: t in s.threads ==> s.threads[t] == Thread(if s.cur == Some(t) then Run else NoState, None))
    && RunQ in s.queues && (forall q :: q in s.queues ==> s.queues[q] == Queue([], 0))
    && (forall m :: m in s.holder <==> MutexQ(m) in s.queues)
    && s.arrivals.Keys == s.holder.Keys == s.grants.Keys
    && (forall m :: m in s.holder ==> s.holder[m] == None && s.arrivals[m] == [] && s.grants[m] == [])
    && s.locking == map[] && s.inside == {}
  }

  /** A run: each step is enabled in the state it starts from.  (`Step` is defined on states in
      order.) */
  ghost predicate IsRun(states: seq<State>, actions: seq<Action>) {
    && |states| == |actions| + 1 && Boot(states[0])
    && forall i :: 0 <= i < |actions| ==> Takes(states[i], actions[i], states[i + 1])
  }

  ghost predicate Takes(s: State, a: Action, s': State) {
    Inv(s) ==> Enabled(s, a) && s' == Step(s, a)
  }

  lemma BootInv(s: State)
    requires Boot(s)
    ensures Inv(s)
  {
  }

  /** Every state of every run is in order, however the steps of the threads interleave. */
  lemma {:induction false} EveryRun(states: seq<State>, actions: seq<Action>, i: nat)
    requires IsRun(states, actions) && i < |states|
    ensures Inv(states[i])
  {
    hide Inv, Step;
    if i == 0 {
      BootInv(states[0]);
    } else {
      var k := i - 1;
      EveryRun(states, actions, k);
      assert Takes(states[k], actions[k], states[k + 1]);
      StepInv(states[k], actions[k]);
    }
  }

  /** A broadcast empties the queue into the run queue, keeping the order of arrival. */
  lemma {:induction false} BroadcastOrder(s: State, q: Chan)
    requires Inv(s) && q in s.queues && q.WaitQ?
    ensures RunQ in s.queues
    ensures var s' := Broadcast(s, q);
            && s'.queues.Keys == s.queues.Keys && s'.queues[q] == Queue([], 0)
            && s'.queues[RunQ].list == s.queues[q].list + s.queues[RunQ].list
            && (forall r :: r in s.queues && r != q && r != RunQ ==> s'.queues[r] == s.queues[r])
    decreases |s.queues[q].list|
  {
    hide Inv, QueuesOk, Woken, Broadcast;
    QueuesOfInv(s);
    QueueFacts(s.threads, s.queues, q);
    BroadcastAt(s, q);
    if s.queues[q].list != [] {
      WokenInv(s, q);
      WokenQueues(s, q);
      BroadcastOrder(Woken(s, q), q);
    }
  }

  lemma WokenQueues(s: State, q: Chan)
    requires QueuesOk(s.threads, s.queues) && q in s.queues && q != RunQ && s.queues[q].list != []
    ensures var s' := Woken(s, q);
            && RunQ in s.queues && s'.queues.Keys == s.queues.Keys && |s'.queues[q].list| < |s.queues[q].list|
            && s'.queues[q].list + s'.queues[RunQ].list == s.queues[q].list + s.queues[RunQ].list
            && (forall r :: r in s.queues && r != q && r != RunQ ==> s'.queues[r] == s.queues[r])
  {
    hide NoDup;
    var s', list, t := Woken(s, q), s.queues[q].list, First(s.queues, q);
    assert s'.queues[RunQ].list == [t] + s.queues[RunQ].list && s'.queues[q].list == list[..|list| - 1];
    assert list == list[..|list| - 1] + [t];
    assert list[..|list| - 1] + ([t] + s.queues[RunQ].list) == list + s.queues[RunQ].list;
  }

  /** The queues of a system: the run queue, wait queues, and one for each mutex. */
  function Channels(waits: set<nat>, mutexes: set<nat>): set<Chan> {
    {RunQ} + (set q | q in waits :: WaitQ(q)) + (set m | m in mutexes :: MutexQ(m))
  }

  lemma AtBoot(s: State, first: nat, others: set<nat>, waits: set<nat>, mutexes: set<nat>)
    requires s.cur == Some(first) && s.threads.Keys == others + {first}
    requires forall t :: t in s.threads ==> s.threads[t] == Thread(if t == first then Run else NoState, None)
    requires s.queues.Keys == Channels(waits, mutexes) && (forall q :: q in s.queues ==> s.queues[q] == Queue([], 0))
    requires s.holder.Keys == s.arrivals.Keys == s.grants.Keys == mutexes && s.locking == map[] && s.inside == {}
    requires forall m :: m in mutexes ==> s.holder[m] == None && s.arrivals[m] == [] && s.grants[m] == []
    ensures Boot(s)
  {
    assert RunQ in Channels(waits, mutexes);
    forall m
      ensures m in s.holder <==> MutexQ(m) in s.queues
    {
      assert MutexQ(m) in Channels(waits, mutexes) <==> m in mutexes;
    }
  }

  class Kernel {
    var cur: Option<nat>
    var threads: map<nat, Thread>
    var queues: map<Chan, Queue>
    var holder: map<nat, Option<nat>>
    ghost var locking: map<nat, nat>
    ghost var inside: set<(nat, nat)>
    ghost var arrivals: map<nat, seq<nat>>
    ghost var grants: map<nat, seq<nat>>

    ghost function Now(): State
      reads this
    {
      State(cur, threads, queues, holder, locking, inside, arrivals, grants)
    }

    /** The kernel when its first thread starts: the others new, the wait queues and mutexes
        initialised as by `sched_queue_init` and `kmutex_init`. */
    constructor (first: nat, others: set<nat>, waits: set<nat>, mutexes: set<nat>)
      ensures Boot(Now()) && Inv(Now()) && cur == Some(first) && threads.Keys == others + {first}
      ensures queues.Keys == Channels(waits, mutexes) && holder.Keys == mutexes
    {
      hide Inv, Boot, Channels;
      cur := Some(first);
      threads := map t | t in others + {first} :: Thread(if t == first then Run else NoState, None);
      queues := map q | q in Channels(waits, mutexes) :: Queue([], 0);
      holder := map m | m in mutexes :: None;
      locking, inside := map[], {};
      arrivals := map m | m in mutexes :: [];
      grants := map m | m in mutexes :: [];
      new;
      AtBoot(Now(), first, others, waits, mutexes);
      BootInv(Now());
    }

    /** `ktqueue_enqueue`. */
    method Enqueue(q: Chan, t: nat)
      requires q in queues && t in threads && threads[t].wchan == None
      modifies this`queues, this`threads
      ensures queues == Enqueued(old(queues), q, t)
      ensures threads == Moved(old(threads), t, old(threads)[t].state, Some(q))
    {
      queues := queues[q := queues[q].(list := [t] + queues[q].list)];
      threads := threads[t := threads[t].(wchan := Some(q))];
      queues := queues[q := queues[q].(size := queues[q].size + 1)];
      assert queues == Enqueued(old(queues), q, t);
    }

    /** `ktqueue_dequeue`. */
    method Dequeue(q: Chan) returns (r: Option<nat>)
      requires q in queues && queues[q].size == |queues[q].list|
      requires queues[q].list != [] ==> First(queues, q) in threads
      modifies this`queues, this`threads
      ensures r.None? <==> old(queues)[q].list == []
      ensures r.None? ==> queues == old(queues) && threads == old(threads)
      ensures r.Some? ==> r.value == First(old(queues), q) && queues == Dequeued(old(queues), q)
      ensures r.Some? ==> threads == Moved(old(threads), r.value, old(threads)[r.value].state, None)
    {
      if queues[q].list == [] {
        return None;
      }
      var t := queues[q].list[|queues[q].list| - 1];
      queues := queues[q := queues[q].(list := queues[q].list[..|queues[q].list| - 1])];
      threads := threads[t := threads[t].(wchan := None)];
      queues := queues[q := queues[q].(size := queues[q].size - 1)];
      assert queues == Dequeued(old(queues), q);
      return Some(t);
    }

    /** `sched_make_runnable`. */
    method MakeRunnable(t: nat)
      requires RunQ in queues && t in threads && threads[t].wchan == None
      modifies this`queues, this`threads
      ensures queues == Enqueued(old(queues), RunQ, t) && threads == Moved(old(threads), t, Run, Some(RunQ))
    {
      assert threads[t].wchan != Some(RunQ);
      threads := threads[t := threads[t].(state := Run)];
      Enqueue(RunQ, t);
    }

    /** `sched_wakeup_on`, whose assertion that the thread sleeps holds. */
    method WakeupOn(q: Chan) returns (r: Option<nat>)
      requires QueuesOk(threads, queues) && StatesOk(cur, threads) && q in queues && q != RunQ
      modifies this`queues, this`threads
      ensures Now() == Woken(old(Now()), q)
      ensures r == if old(queues)[q].list == [] then None else Some(First(old(queues), q))
    {
      hide QueuesOk, StatesOk;
      QueueFacts(threads, queues, q);
      if queues[q].list != [] {
        DequeueOk(threads, queues, q, Run);
        Waiting(cur, threads, First(queues, q));
      }
      r := Dequeue(q);
      if r.Some? {
        assert threads[r.value].state == Sleep;
        threads := threads[r.value := threads[r.value].(state := Run)];
        MakeRunnable(r.value);
        assert threads == Moved(old(threads), r.value, Run, Some(RunQ));
      }
    }

    /** `sched_broadcast_on`: its loop ends. */
    method BroadcastOn(q: nat)
      requires Inv(Now()) && WaitQ(q) in queues
      modifies this`queues, this`threads
      ensures Now() == Broadcast(old(Now()), WaitQ(q))
    {
      hide Inv, QueuesOk, StatesOk, Broadcast;
      OrderOf(Now());
      QueueFacts(threads, queues, WaitQ(q));
      while queues[WaitQ(q)].size != 0
        invariant Inv(Now()) && QueuesOk(threads, queues) && StatesOk(cur, threads) && WaitQ(q) in queues
        invariant Broadcast(Now(), WaitQ(q)) == Broadcast(old(Now()), WaitQ(q))
        invariant queues[WaitQ(q)].size == |queues[WaitQ(q)].list|
        decreases |queues[WaitQ(q)].list|
        modifies this`queues, this`threads
      {
        WokenInv(Now(), WaitQ(q));
        BroadcastAt(Now(), WaitQ(q));
        var t := WakeupOn(WaitQ(q));
        OrderOf(Now());
        QueueFacts(threads, queues, WaitQ(q));
      }
      BroadcastAt(Now(), WaitQ(q));
    }

    /** `sched_sleep_on`, up to the switch. */
    method SleepOn(q: Chan)
      requires Inv(Now()) && cur.Some? && q in queues && q != RunQ
      modifies this`queues, this`threads, this`cur
      ensures cur == None && queues == Enqueued(old(queues), q, old(cur).value)
      ensures threads == Moved(old(threads), old(cur).value, Sleep, Some(q))
    {
      hide QueuesOk, MutexesOk, HistoryOk;
      threads := threads[cur.value := threads[cur.value].(state := Sleep)];
      Enqueue(q, cur.value);
      assert threads == Moved(old(threads), cur.value, Sleep, Some(q));
      cur := None;
    }

    /** `sched_switch` once there is a thread to run. */
    method Switch()
      requires Inv(Now()) && Enabled(Now(), Dispatch)
      modifies this
      ensures Now() == Step(old(Now()), Dispatch) && Inv(Now())
      ensures var list := old(queues)[RunQ].list;
              cur == Some(list[|list| - 1]) && queues[RunQ].list == list[..|list| - 1]
    {
      hide QueuesOk, MutexesOk, HistoryOk, StatesOk;
      StepInv(Now(), Dispatch);
      QueueFacts(threads, queues, RunQ);
      DequeueOk(threads, queues, RunQ, Run);
      StatesDispatch(threads, First(queues, RunQ));
      RunsNext(threads, First(queues, RunQ));
      var t := Dequeue(RunQ);
      cur := t;
    }

    /** `kmutex_lock`, up to the sleep when the mutex is taken. */
    method MutexLock(m: nat) returns (locked: bool)
      requires Inv(Now()) && Enabled(Now(), Lock(m))
      modifies this
      ensures Now() == Step(old(Now()), Lock(m)) && Inv(Now())
      ensures locked <==> old(holder)[m] == None
      ensures locked ==> cur == old(cur) && holder[m] == cur && (cur.value, m) in inside
      ensures !locked ==> cur == None && holder == old(holder)
      ensures !locked ==> threads == old(threads)[old(cur).value := Thread(Sleep, Some(MutexQ(m)))]
    {
      hide QueuesOk, MutexesOk, HistoryOk, StatesOk;
      StepInv(Now(), Lock(m));
      MutexQueued(queues, holder, locking, inside, m);
      HistoryAt(queues, holder, arrivals, grants, m);
      ghost var t := cur.value;
      if holder[m] == None {
        holder := holder[m := cur];
        inside := inside + {(t, m)};
        grants := grants[m := [t] + grants[m]];
        locked := true;
      } else {
        SleepOn(MutexQ(m));
        locking := locking[t := m];
        locked := false;
      }
      arrivals := arrivals[m := [t] + arrivals[m]];
    }

    /** The rest of `kmutex_lock`, once the thread runs again. */
    method MutexLockReturn(m: nat)
      requires Inv(Now()) && Enabled(Now(), LockReturn) && locking[cur.value] == m
      modifies this
      ensures Now() == Step(old(Now()), LockReturn) && Inv(Now()) && holder == old(holder)
      ensures cur == old(cur) && (cur.value, m) in inside && holder[m] == cur
    {
      hide QueuesOk, MutexesOk, HistoryOk, StatesOk;
      StepInv(Now(), LockReturn);
      GivenBeforeRunning(Now());
      holder := holder[m := cur];
      locking := locking - {cur.value};
      inside := inside + {(cur.value, m)};
    }

    /** `kmutex_unlock`, whose assertion that the mutex is not the caller's any more holds. */
    method MutexUnlock(m: nat)
      requires Inv(Now()) && Enabled(Now(), Unlock(m))
      modifies this
      ensures Now() == Step(old(Now()), Unlock(m)) && Inv(Now())
      ensures cur == old(cur) && (cur.value, m) !in inside
      ensures old(queues)[MutexQ(m)].list == [] ==> holder[m] == None && threads == old(threads)
      ensures var list := old(queues)[MutexQ(m)].list;
              list != [] ==>
                && holder[m] == Some(list[|list| - 1])
                && threads == old(threads)[list[|list| - 1] := Thread(Run, Some(RunQ))]
    {
      hide QueuesOk, MutexesOk, HistoryOk, StatesOk;
      StepInv(Now(), Unlock(m));
      MutexQueued(queues, holder, locking, inside, m);
      HistoryAt(queues, holder, arrivals, grants, m);
      inside := inside - {(cur.value, m)};
      if queues[MutexQ(m)].list != [] {
        UnlockHandOff(old(Now()), m);
        var next := WakeupOn(MutexQ(m));
        holder := holder[m := next];
        grants := grants[m := [next.value] + grants[m]];
      } else {
        holder := holder[m := None];
      }
      assert cur != holder[m];
    }
  }

  lemma HistoryAt(queues: map<Chan, Queue>, holder: map<nat, Option<nat>>,
                  arrivals: map<nat, seq<nat>>, grants: map<nat, seq<nat>>, m: nat)
    requires HistoryOk(queues, holder, arrivals, grants) && m in holder
    ensures m in arrivals && m in grants
  {
  }

  lemma RunsNext(threads: map<nat, Thread>, t: nat)
    requires StatesOk(None, threads) && t in threads && threads[t].wchan == Some(RunQ)
    ensures threads[t].state == Run
  {
  }

  lemma OrderOf(s: State)
    requires Inv(s)
    ensures QueuesOk(s.threads, s.queues) && StatesOk(s.cur, s.threads)
  {
  }

  lemma QueueFacts(threads: map<nat, Thread>, queues: map<Chan, Queue>, q: Chan)
    requires QueuesOk(threads, queues) && q in queues
    ensures RunQ in queues && queues[q].size == |queues[q].list|
  {
  }

  lemma BroadcastAt(s: State, q: Chan)
    requires QueuesOk(s.threads, s.queues) && q in s.queues && q != RunQ
    ensures Broadcast(s, q) == if s.queues[q].list == [] then s else Broadcast(Woken(s, q), q)
  {
  }
}
