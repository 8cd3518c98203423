/** The order in which threads leave the queues of the scheduler (kernel/proc/sched.c), over whole runs and
    in terms of the threads: which queue a thread is on, and which thread is current. */
module SchedulerOrder {
  import opened Lists
  import opened Scheduler

  ghost predicate On(s: State, q: Chan, t: nat) {
    t in s.threads && s.threads[t].wchan == Some(q)
  }

  lemma OnList(s: State, q: Chan, t: nat)
    requires Inv(s) && q in s.queues
    ensures NoDup(s.queues[q].list) && (On(s, q, t) <==> t in s.queues[q].list)
  {
  }

  /** A list that has lost its last threads, or gained some in front. */
  ghost predicate Shifted(list: seq<nat>, list': seq<nat>) {
    list' <= list || Gained(list, list')
  }

  ghost predicate Gained(list: seq<nat>, list': seq<nat>) {
    |list| <= |list'| && list'[|list'| - |list|..] == list
  }

  ghost predicate QueueStep(s: State, a: Action, s': State, q: Chan)
    requires q in s.queues
  {
    && q in s'.queues && Shifted(s.queues[q].list, s'.queues[q].list)
    && (q == RunQ && a != Dispatch ==> Gained(s.queues[q].list, s'.queues[q].list))
    && (a == Dispatch && RunQ in s.queues ==>
          var list := s.queues[RunQ].list;
          list != [] && s'.cur == Some(list[|list| - 1])
          && (q == RunQ ==> s'.queues[q].list == list[..|list| - 1]))
  }

  lemma WokenStep(s: State, q: Chan, r: Chan)
    requires QueuesOk(s.threads, s.queues) && StatesOk(s.cur, s.threads) && q in s.queues && q != RunQ && r in s.queues
    ensures var s' := Woken(s, q);
            && r in s'.queues && Shifted(s.queues[r].list, s'.queues[r].list)
            && (r == RunQ ==> Gained(s.queues[r].list, s'.queues[r].list))
  {
    hide QueuesOk, StatesOk;
    WokenStates(s, q);
    if s.queues[q].list != [] {
      WokenQueues(s, q);
      var list := s.queues[q].list;
      assert list == list[..|list| - 1] + [list[|list| - 1]];
    }
  }

  lemma EnqueuedGains(queues: map<Chan, Queue>, q: Chan, t: nat, r: Chan)
    requires q in queues && r in queues
    ensures r in Enqueued(queues, q, t) && Gained(queues[r].list, Enqueued(queues, q, t)[r].list)
  {
  }

  lemma SameGains(list: seq<nat>)
    ensures Gained(list, list)
  {
  }

  lemma DispatchStep(s: State, q: Chan)
    requires Inv(s) && Enabled(s, Dispatch) && q in s.queues
    ensures QueueStep(s, Dispatch, Step(s, Dispatch), q)
  {
    hide StatesOk, MutexesOk, HistoryOk, NoDup, Gained;
  }

  lemma BroadcastStep(s: State, w: nat, q: Chan)
    requires Inv(s) && WaitQ(w) in s.queues && q in s.queues
    ensures QueueStep(s, BroadcastOn(w), Broadcast(s, WaitQ(w)), q)
  {
    hide Inv, QueuesOk, Broadcast;
    BroadcastOrder(s, WaitQ(w));
  }

  /** The steps that move the current thread or a new one, if any. */
  lemma OwnStep(s: State, a: Action, q: Chan)
    requires Inv(s) && Enabled(s, a) && q in s.queues
    requires a.Lock? || a.LockReturn? || a.SleepOn? || a.Spawn? || a.Yield? || a.Exit?
    ensures QueueStep(s, a, Step(s, a), q)
  {
    hide QueuesOk, StatesOk, MutexesOk, HistoryOk, Gained, Enqueued, Moved;
    RunQueue(s.threads, s.queues);
    SameGains(s.queues[q].list);
    match a {
      case Lock(m) =>
        MutexQueued(s.queues, s.holder, s.locking, s.inside, m);
        EnqueuedGains(s.queues, MutexQ(m), s.cur.value, q);
      case SleepOn(w) => EnqueuedGains(s.queues, WaitQ(w), s.cur.value, q);
      case Spawn(t) => EnqueuedGains(s.queues, RunQ, t, q);
      case Yield => EnqueuedGains(s.queues, RunQ, s.cur.value, q);
      case _ =>
    }
  }

  lemma UnlockStep(s: State, m: nat, q: Chan)
    requires Inv(s) && Enabled(s, Unlock(m)) && q in s.queues
    ensures QueueStep(s, Unlock(m), Step(s, Unlock(m)), q)
  {
    hide QueuesOk, StatesOk, MutexesOk, HistoryOk, Woken, Gained, Shifted;
    MutexQueued(s.queues, s.holder, s.locking, s.inside, m);
    SameGains(s.queues[q].list);
    GainedShifted(s.queues[q].list, s.queues[q].list);
    WokenStep(s.(inside := s.inside - {(s.cur.value, m)}), MutexQ(m), q);
  }

  lemma GainedShifted(list: seq<nat>, list': seq<nat>)
    requires Gained(list, list')
    ensures Shifted(list, list')
  {
  }

  lemma StepShifts(s: State, a: Action, q: Chan)
    requires Inv(s) && Enabled(s, a) && q in s.queues
    ensures QueueStep(s, a, Step(s, a), q)
  {
    hide Inv, QueuesOk, StatesOk, Step, Gained, Shifted;
    OrderOf(s);
    StepsOf(s, a);
    match a {
      case Unlock(m) => UnlockStep(s, m, q);
      case WakeupOn(w) => WokenStep(s, WaitQ(w), q);
      case BroadcastOn(w) => BroadcastStep(s, w, q);
      case Dispatch => DispatchStep(s, q);
      case _ => OwnStep(s, a, q);
    }
  }

  /** Thread `t` came to the queue before thread `u`. */
  ghost predicate Ahead(list: seq<nat>, t: nat, u: nat) {
    exists a, b :: 0 <= a < b < |list| && list[a] == u && list[b] == t
  }

  lemma AheadStays(list: seq<nat>, list': seq<nat>, t: nat, u: nat)
    requires Shifted(list, list') && NoDup(list) && Ahead(list, t, u) && t in list'
    ensures Ahead(list', t, u)
  {
    var a, b :| 0 <= a < b < |list| && list[a] == u && list[b] == t;
    if list' <= list {
      var i :| 0 <= i < |list'| && list'[i] == t;
      assert list[i] == list'[i];
      assert list'[a] == list[a] && list'[b] == list[b];
    } else {
      var d := |list'| - |list|;
      assert list'[d + a] == list[a] && list'[d + b] == list[b];
    }
  }

  lemma AheadComes(list: seq<nat>, list': seq<nat>, t: nat, u: nat)
    requires Shifted(list, list') && t in list && u !in list && t in list' && u in list'
    ensures Ahead(list', t, u)
  {
    assert list' <= list ==> forall x :: x in list' ==> x in list;
    var d := |list'| - |list|;
    assert list' == list'[..d] + list;
    var a :| 0 <= a < d && list'[a] == u;
    var b :| 0 <= b < |list| && list[b] == t;
    assert list'[d + b] == list[b];
  }

  /** What a step of a run does to a queue. */
  lemma RunShifts(states: seq<State>, actions: seq<Action>, i: nat, q: Chan)
    requires IsRun(states, actions) && i < |actions| && q in states[i].queues
    ensures Inv(states[i]) && Inv(states[i + 1]) && QueueStep(states[i], actions[i], states[i + 1], q)
  {
    hide Inv, Step, QueueStep;
    EveryRun(states, actions, i);
    EveryRun(states, actions, i + 1);
    assert Takes(states[i], actions[i], states[i + 1]);
    StepShifts(states[i], actions[i], q);
  }

  /** While `t` stays on the queue it stays before `u`, who came later. */
  lemma {:induction false} StaysAhead(states: seq<State>, actions: seq<Action>, q: Chan, t: nat, u: nat, j: nat, k: nat)
    requires IsRun(states, actions) && j < k < |states| && q in states[j].queues
    requires On(states[j], q, t) && !On(states[j], q, u)
    requires forall l :: j < l <= k ==> On(states[l], q, t)
    requires forall l :: j < l < k ==> On(states[l], q, u)
    ensures q in states[k].queues && Inv(states[k])
    ensures (k == j + 1 && !On(states[k], q, u)) || Ahead(states[k].queues[q].list, t, u)
    decreases k
  {
    hide Inv, Boot, Takes, Ahead, On;
    if k == j + 1 {
      RunShifts(states, actions, j, q);
      OnList(states[j], q, t);
      OnList(states[j], q, u);
      OnList(states[k], q, t);
      OnList(states[k], q, u);
      if On(states[k], q, u) {
        AheadComes(states[j].queues[q].list, states[k].queues[q].list, t, u);
      }
    } else {
      StaysAhead(states, actions, q, t, u, j, k - 1);
      RunShifts(states, actions, k - 1, q);
      OnList(states[k - 1], q, t);
      OnList(states[k], q, t);
      AheadStays(states[k - 1].queues[q].list, states[k].queues[q].list, t, u);
    }
  }

  /** First come, first served, on the run queue and every wait queue: a thread that comes to a queue where
      another already is does not leave it before that one does. */
  lemma FirstComeFirstServed(states: seq<State>, actions: seq<Action>, q: Chan, t: nat, u: nat, j: nat, k: nat)
    requires IsRun(states, actions) && j + 1 < k < |states| && q in states[j].queues
    requires On(states[j], q, t) && !On(states[j], q, u)
    requires forall l :: j < l <= k ==> On(states[l], q, t)
    requires forall l :: j < l < k ==> On(states[l], q, u)
    ensures On(states[k], q, u)
  {
    hide Inv, Boot, Takes, On;
    StaysAhead(states, actions, q, t, u, j, k);
    OnList(states[k], q, u);
  }

  function Dispatches(actions: seq<Action>): nat {
    if actions == [] then 0 else (if actions[0] == Dispatch then 1 else 0) + Dispatches(actions[1..])
  }

  /** A thread with `p` threads before it in the run queue is the current one after `p + 1` switches,
      whatever steps lie between. */
  lemma {:induction false} TurnComes(states: seq<State>, actions: seq<Action>, i: nat, j: nat, p: nat)
    requires IsRun(states, actions) && i < j <= |actions| && RunQ in states[i].queues
    requires p < |states[i].queues[RunQ].list|
    requires Dispatches(actions[i..j]) == p + 1 && actions[j - 1] == Dispatch
    ensures var list := states[i].queues[RunQ].list;
            states[j].cur == Some(list[|list| - 1 - p])
    decreases j - i
  {
    hide Inv, Boot, Takes;
    RunShifts(states, actions, i, RunQ);
    assert actions[i..j][1..] == actions[i + 1..j];
    var list, list' := states[i].queues[RunQ].list, states[i + 1].queues[RunQ].list;
    if i + 1 == j {
      assert Dispatches(actions[i + 1..j]) == 0;
    } else if actions[i] == Dispatch {
      LastDispatch(actions[i + 1..j]);
      TurnComes(states, actions, i + 1, j, p - 1);
    } else {
      assert list'[|list'| - |list|..][|list| - 1 - p] == list'[|list'| - 1 - p];
      TurnComes(states, actions, i + 1, j, p);
    }
  }

  lemma {:induction false} LastDispatch(actions: seq<Action>)
    requires actions != [] && actions[|actions| - 1] == Dispatch
    ensures Dispatches(actions) > 0
  {
    if |actions| > 1 {
      LastDispatch(actions[1..]);
    }
  }

  lemma {:induction false} BroadcastInside(s: State, q: Chan)
    requires QueuesOk(s.threads, s.queues) && q in s.queues && q != RunQ
    ensures Broadcast(s, q).inside == s.inside
    decreases |s.queues[q].list|
  {
    if s.queues[q].list != [] {
      BroadcastInside(Woken(s, q), q);
    }
  }

  /** A thread has mutex `m` locked from when its `kmutex_lock` returns until it unlocks it. */
  lemma InsideUntilUnlock(s: State, a: Action, t: nat, m: nat)
    requires Inv(s) && Enabled(s, a)
    ensures var enters := (a == Lock(m) && s.holder[m].None?) || (a.LockReturn? && s.locking[s.cur.value] == m);
            (t, m) in Step(s, a).inside <==>
            if s.cur == Some(t) && a == Unlock(m) then false
            else (t, m) in s.inside || (s.cur == Some(t) && enters)
  {
    hide MutexesOk, HistoryOk, StatesOk;
    if a.BroadcastOn? {
      BroadcastInside(s, WaitQ(a.q));
    }
  }
}
