// The scheduler's queue state machine (src/task/scheduler.c).
//
// The global queues `ready_tasks`, `ready_tasks_candidates` and
// `dead_tasks` are sequences of threads (a thread node and the thread it
// carries are one and the same here), `crt_thread_node` is `current`, and
// the flag `main_thread_in_ready_queue` is `mainInReady`.  Whether
// `spinlock_trylock` on the candidate queue succeeds is a parameter; the
// assembly context switch, the TSS and page-directory reloads and
// interrupt masking have no effect on this state.

module Scheduling {
  import opened Common
  import LinkedList
  import opened Tasks

  /** One timer tick for a thread whose ready queue is not empty: the new
      tick count and whether its time slice is over. */
  function TickStep(ticks: nat, priority: nat): (r: (nat, bool))
    ensures r.1 <==> ticks + 1 >= priority
    ensures r.1 ==> r.0 == 0
    ensures !r.1 ==> r.0 == ticks + 1 < priority
  {
    if ticks + 1 >= priority then (0, true) else (ticks + 1, false)
  }

  /** Whether `k` consecutive ticks (k >= 1) end the slice on the last one
      and not earlier. */
  function SwitchesAt(ticks: nat, priority: nat, k: nat): (b: bool)
    ensures b ==> k >= 1
    decreases k
  {
    k >= 1 && var next := TickStep(ticks, priority);
    if next.1 then k == 1 else SwitchesAt(next.0, priority, k - 1)
  }

  /** How many ticks a thread runs from `ticks` on: until the count reaches
      its priority, and at least one. */
  function SliceLeft(ticks: nat, priority: nat): (n: nat)
  {
    if ticks + 1 >= priority then 1 else priority - ticks
  }

  /** The time slice ends exactly on the SliceLeft-th tick. */
  lemma {:induction false} SliceLength(ticks: nat, priority: nat, k: nat)
    ensures SwitchesAt(ticks, priority, k) <==> k == SliceLeft(ticks, priority)
    decreases k
  {
    if k >= 1 && ticks + 1 < priority {
      SliceLength(ticks + 1, priority, k - 1);
    }
  }

  /** A fresh thread of priority 5 is switched out on its fifth tick. */
  lemma FifthTickSwitches()
    ensures SwitchesAt(0, 5, 5)
    ensures forall k :: 0 <= k < 5 ==> !SwitchesAt(0, 5, k)
  {
    forall k | 0 <= k <= 5 ensures SwitchesAt(0, 5, k) <==> k == 5 {
      SliceLength(0, 5, k);
    }
  }

  /** The scheduler's queues: ready_tasks, dead_tasks and the flag
      main_thread_in_ready_queue. */
  datatype Queues = Queues(ready: seq<Thread>, dead: seq<Thread>, mainInReady: bool)

  /** How many times `x` occurs in `s`. */
  function Occurrences(s: seq<Thread>, x: Thread): (n: nat)
    ensures n == 0 <==> x !in s
  {
    if s == [] then 0 else (if s[0] == x then 1 else 0) + Occurrences(s[1..], x)
  }

  lemma {:induction false} OccurrencesAppend(a: seq<Thread>, b: seq<Thread>, x: Thread)
    ensures Occurrences(a + b, x) == Occurrences(a, x) + Occurrences(b, x)
  {
    if a != [] {
      assert a + b != [] && (a + b)[0] == a[0];
      assert (a + b)[1..] == a[1..] + b;
      OccurrencesAppend(a[1..], b, x);
    } else {
      assert a + b == b;
    }
  }

  /** The main thread stays in the ready queue at most once and the flag
      says whether it is there. */
  ghost predicate MainQueued(q: Queues, main: Thread)
  {
    (q.mainInReady <==> main in q.ready) && Occurrences(q.ready, main) <= 1
  }

  /** The queue effects of do_context_switch, step by step: a dead current
      thread joins the dead queue and wakes the main thread unless it is
      queued already; the head of the ready queue is taken off and becomes
      current; a RUNNING current thread other than main goes to the ready
      tail; taking main clears the flag.  The result is the new queues and
      the next thread. */
  function SwitchQueues(q: Queues, cur: Thread, status: Status, main: Thread): (r: (Queues, Thread))
    requires |q.ready| > 0 || (status == Dead && !q.mainInReady)
    ensures r.1 == if |q.ready| > 0 then q.ready[0] else main
    ensures |q.ready| > 0 ==> |r.0.ready| >= |q.ready| - 1 && r.0.ready[..|q.ready| - 1] == q.ready[1..]
    ensures r.0.dead == q.dead + (if status == Dead then [cur] else [])
    ensures status == Running && cur != main ==> |r.0.ready| > 0 && r.0.ready[|r.0.ready| - 1] == cur
    ensures status != Running || cur == main ==>
      |r.0.ready| == |q.ready| - 1 + (if status == Dead && !q.mainInReady then 1 else 0)
  {
    var dead1 := if status == Dead then q.dead + [cur] else q.dead;
    var ready1 := if status == Dead && !q.mainInReady then q.ready + [main] else q.ready;
    var flag1 := q.mainInReady || status == Dead;
    var head := ready1[0];
    var ready2 := ready1[1..];
    var ready3 := if status == Running && cur != main then ready2 + [cur] else ready2;
    (Queues(ready3, dead1, if head == main then false else flag1), head)
  }

  /** do_context_switch keeps the main thread's bookkeeping, and a dead
      thread always leaves the main thread queued or running to clean it up. */
  lemma {:induction false} SwitchKeepsMainQueued(q: Queues, cur: Thread, status: Status, main: Thread)
    requires MainQueued(q, main)
    requires |q.ready| > 0 || (status == Dead && !q.mainInReady)
    ensures MainQueued(SwitchQueues(q, cur, status, main).0, main)
    ensures status == Dead ==> main in SwitchQueues(q, cur, status, main).0.ready || SwitchQueues(q, cur, status, main).1 == main
  {
    var r := SwitchQueues(q, cur, status, main);
    var woken := status == Dead && !q.mainInReady;
    var ready1 := if woken then q.ready + [main] else q.ready;
    if woken {
      OccurrencesAppend(q.ready, [main], main);
      assert Occurrences([main], main) == 1 by {
        assert [main][1..] == [];
      }
    }
    assert ready1 == [ready1[0]] + ready1[1..];
    OccurrencesAppend([ready1[0]], ready1[1..], main);
    assert Occurrences([ready1[0]], main) == (if ready1[0] == main then 1 else 0) by {
      assert [ready1[0]][1..] == [];
    }
    var requeued := if status == Running && cur != main then [cur] else [];
    assert r.0.ready == ready1[1..] + requeued;
    OccurrencesAppend(ready1[1..], requeued, main);
  }

  /** The ready queue after merge_ready_tasks, whose trylock succeeded or not. */
  function Merged(ready: seq<Thread>, cands: seq<Thread>, lockFree: bool): seq<Thread>
  {
    if lockFree then ready + cands else ready
  }

  /** The status do_context_switch leaves on the thread it switches away
      from: a RUNNING thread other than main becomes READY. */
  function Preempted(status: Status, isMain: bool): Status
  {
    if status == Running && !isMain then Ready else status
  }

  /** What schedule_thread_yield does to the queues, and the thread that
      runs afterwards: the merges (`merge` says whether either trylock
      succeeded), the main thread queued when nothing is ready and the
      caller is not main, then a switch if anything is ready. */
  function Yielded(q: Queues, cands: seq<Thread>, merge: bool, cur: Thread, status: Status, main: Thread): (r: (Queues, Thread))
  {
    var merged := Merged(q.ready, cands, merge);
    var q1 := if merged == [] && cur != main then Queues([main], q.dead, true) else Queues(merged, q.dead, q.mainInReady);
    if q1.ready == [] then (q1, cur) else SwitchQueues(q1, cur, status, main)
  }

  /** Yielding gives the CPU away: a thread other than main that is not
      queued itself never keeps running (the main thread is queued for it
      if need be), and unless it was RUNNING it is not put back into the
      ready queue; the main thread yielding with nothing ready changes
      nothing. */
  lemma YieldGivesWay(q: Queues, cands: seq<Thread>, merge: bool, cur: Thread, status: Status, main: Thread)
    requires cur !in Merged(q.ready, cands, merge)
    ensures cur != main ==> Yielded(q, cands, merge, cur, status, main).1 != cur
    ensures cur != main && status != Running ==>
      cur !in Yielded(q, cands, merge, cur, status, main).0.ready
    ensures cur == main && Merged(q.ready, cands, merge) == [] ==>
      Yielded(q, cands, merge, cur, status, main) == (q, cur)
  {
    var merged := Merged(q.ready, cands, merge);
    if merged == [] && cur != main {
      var q1 := Queues([main], q.dead, true);
      var r := SwitchQueues(q1, cur, status, main);
      assert r.1 == main;
      if status != Running {
        assert r.0.ready == [];
      }
    } else if merged != [] {
      var r := SwitchQueues(Queues(merged, q.dead, q.mainInReady), cur, status, main);
      assert r.1 == merged[0];
      if status != Running && cur != main {
        var ready1 := if status == Dead && !q.mainInReady then merged + [main] else merged;
        assert r.0.ready == ready1[1..];
        assert cur !in ready1;
      }
    }
  }

  class Scheduler {
    var ready: seq<Thread>
    var candidates: seq<Thread>
    var dead: seq<Thread>
    var current: Thread
    const mainThread: Thread
    var mainInReady: bool
    /** The threads handed to destroy_thread so far, in order. */
    var destroyed: seq<Thread>

    function State(): (q: Queues)
      reads this
      ensures q.ready == ready && q.dead == dead && q.mainInReady == mainInReady
    {
      Queues(ready, dead, mainInReady)
    }

    /** The thread do_context_switch runs next from ready queue `s`: its
        head, or the main thread that a dead thread wakes into an empty
        queue. */
    function NextOf(s: seq<Thread>): Thread
      reads this
    {
      if s == [] then mainThread else s[0]
    }

    ghost predicate Valid()
      reads this
    {
      MainQueued(State(), mainThread) && mainThread !in candidates
    }

    /** The queue part of init_scheduler: empty queues, the main thread
        running. */
    constructor (main: Thread)
      ensures Valid()
      ensures mainThread == main && current == main && !mainInReady
      ensures ready == [] && candidates == [] && dead == [] && destroyed == []
    {
      mainThread := main;
      current := main;
      ready := [];
      candidates := [];
      dead := [];
      mainInReady := false;
      destroyed := [];
    }

    /** merge_ready_tasks: with the candidate lock free the candidates move
        to the tail of the ready queue; otherwise nothing changes. */
    method MergeReadyTasks(lockFree: bool)
      requires Valid()
      modifies this
      ensures Valid()
      ensures lockFree ==> ready == old(ready) + old(candidates) && candidates == []
      ensures !lockFree ==> ready == old(ready) && candidates == old(candidates)
      ensures dead == old(dead) && current == old(current) && mainInReady == old(mainInReady)
      ensures destroyed == old(destroyed)
    {
      if !lockFree {
        return;
      }
      OccurrencesAppend(ready, candidates, mainThread);
      ready := ready + candidates;
      candidates := [];
    }

    /** do_context_switch: the queues change as SwitchQueues says; only the
        statuses of the old and the next thread are written: the next
        thread is RUNNING, the old one Preempted. */
    method DoContextSwitch()
      requires Valid()
      requires |ready| > 0 || (current.status == Dead && !mainInReady)
      modifies this, current`status, NextOf(ready)`status
      ensures Valid()
      ensures (State(), current) == SwitchQueues(old(State()), old(current), old(current.status), mainThread)
      ensures current == old(NextOf(ready)) && current.status == Running
      ensures current != old(current) ==>
        old(current).status == Preempted(old(current.status), old(current) == mainThread)
      ensures candidates == old(candidates) && destroyed == old(destroyed)
    {
      var oldThread := current;
      var status := oldThread.status;
      SwitchKeepsMainQueued(State(), oldThread, status, mainThread);
      var r := SwitchQueues(State(), oldThread, status, mainThread);
      var head := r.1;
      if status == Running && oldThread != mainThread {
        oldThread.status := Ready;
      }
      head.status := Running;
      ready, dead, mainInReady, current := r.0.ready, r.0.dead, r.0.mainInReady, head;
    }

    /** maybe_context_switch, called on every timer tick: after the merge,
        with an empty ready queue nothing happens; otherwise the current
        thread's tick count advances by TickStep and the thread is switched
        out exactly when its slice is over.  No other thread's tick count
        changes. */
    method MaybeContextSwitch(lockFree: bool)
      requires Valid()
      modifies this, current`ticks, current`status, NextOf(Merged(ready, candidates, lockFree))`status
      ensures Valid()
      ensures candidates == (if lockFree then [] else old(candidates)) && destroyed == old(destroyed)
      ensures var merged := Merged(old(ready), old(candidates), lockFree);
        var step := TickStep(old(current.ticks), old(current.priority));
        if merged == [] then
          State() == old(State()) && current == old(current) && current.ticks == old(current.ticks)
          && current.status == old(current.status)
        else if step.1 then
          old(current).ticks == 0 &&
          (State(), current) == SwitchQueues(Queues(merged, old(dead), old(mainInReady)), old(current), old(current.status), mainThread) &&
          current.status == Running &&
          (current != old(current) ==> old(current).status == Preempted(old(current.status), old(current) == mainThread))
        else
          State() == Queues(merged, old(dead), old(mainInReady)) && current == old(current) && current.ticks == step.0
          && current.status == old(current.status)
    {
      MergeReadyTasks(lockFree);
      var needSwitch := false;
      if |ready| > 0 {
        current.ticks := current.ticks + 1;
        if current.ticks >= current.priority {
          current.ticks := 0;
          needSwitch := true;
        }
      }
      if needSwitch {
        DoContextSwitch();
      }
    }

    /** add_thread_node_to_schedule: READY, at the tail of the candidates;
        the ready queue itself is not touched. */
    method AddToSchedule(node: Thread)
      requires Valid() && node != mainThread
      modifies this, node`status
      ensures Valid()
      ensures node.status == Ready
      ensures candidates == old(candidates) + [node]
      ensures ready == old(ready) && dead == old(dead) && current == old(current)
      ensures mainInReady == old(mainInReady) && destroyed == old(destroyed)
    {
      node.status := Ready;
      candidates := candidates + [node];
    }

    /** add_thread_node_to_schedule_head: READY, put into the candidates by
        linked_list_insert_to_head (so behind the first candidate, if any). */
    method AddToScheduleHead(node: Thread)
      requires Valid() && node != mainThread
      modifies this, node`status
      ensures Valid()
      ensures node.status == Ready
      ensures candidates == LinkedList.InsertedToHead(old(candidates), node)
      ensures ready == old(ready) && dead == old(dead) && current == old(current)
      ensures mainInReady == old(mainInReady) && destroyed == old(destroyed)
    {
      node.status := Ready;
      LinkedList.InsertedToHeadShape(candidates, node);
      candidates := LinkedList.InsertedToHead(candidates, node);
    }

    /** schedule_thread_yield: merges twice (each with its own trylock);
        with nothing ready a thread other than main queues the main thread;
        then it switches if anything is ready.  So main yielding with an
        empty ready queue changes nothing but the merges. */
    method Yield(lockFree1: bool, lockFree2: bool)
      requires Valid()
      modifies this, current`status, NextOf(Merged(ready, candidates, lockFree1 || lockFree2))`status
      ensures Valid()
      ensures (State(), current) == Yielded(old(State()), old(candidates), lockFree1 || lockFree2, old(current), old(current.status), mainThread)
      ensures candidates == (if lockFree1 || lockFree2 then [] else old(candidates)) && destroyed == old(destroyed)
      ensures var merged := Merged(old(ready), old(candidates), lockFree1 || lockFree2);
        if merged == [] && old(current) == mainThread then
          current.status == old(current.status)
        else
          current == old(NextOf(merged)) && current.status == Running &&
          (current != old(current) ==> old(current).status == Preempted(old(current.status), old(current) == mainThread))
    {
      MergeReadyTasks(lockFree1);
      MergeReadyTasks(lockFree2);
      ghost var merged := Merged(old(ready), old(candidates), lockFree1 || lockFree2);
      assert ready == merged;
      if |ready| == 0 && current != mainThread {
        ready := ready + [mainThread];
        mainInReady := true;
        assert Occurrences(ready, mainThread) == 1 by {
          assert ready[1..] == [];
        }
      }
      if |ready| > 0 {
        DoContextSwitch();
      }
    }

    /** schedule_mark_thread_block: only the current thread's status
        changes. */
    method MarkThreadBlock()
      modifies current`status
      ensures current.status == Waiting
    {
      current.status := Waiting;
    }

    /** schedule_thread_exit: detach from the process, merge, mark DEAD and
        switch; the thread joins the dead queue and main is queued (or
        running) to clean it up. */
    method ThreadExit(lockFree: bool)
      requires Valid() && current.process != null
      modifies this, current`status, current.process, NextOf(Merged(ready, candidates, lockFree))`status
      ensures Valid()
      ensures (State(), current) == SwitchQueues(Queues(Merged(old(ready), old(candidates), lockFree), old(dead), old(mainInReady)),
        old(current), Dead, mainThread)
      ensures candidates == (if lockFree then [] else old(candidates)) && destroyed == old(destroyed)
      ensures dead == old(dead) + [old(current)]
      ensures mainThread in ready || current == mainThread
      ensures old(current.process).threads == Detached(old(current.process.threads), old(current))
      ensures current.status == Running
      ensures current != old(current) ==> old(current).status == Dead
    {
      var thread := current;
      RemoveProcessThread(thread.process, thread);
      MergeReadyTasks(lockFree);
      thread.status := Dead;
      SwitchKeepsMainQueued(State(), thread, Dead, mainThread);
      DoContextSwitch();
    }

    /** One pass of the loop in kernel_main_thread: the whole dead queue is
        moved out at once and each moved thread is destroyed exactly once in
        queue order; then the main thread yields.  With nothing to clean it
        idles and nothing changes. */
    method CleanDeadTasks(lockFree1: bool, lockFree2: bool)
      requires Valid() && current.status != Dead
      modifies this, current`status, NextOf(Merged(ready, candidates, lockFree1 || lockFree2))`status
      ensures Valid()
      ensures destroyed == old(destroyed) + old(dead)
      ensures dead == []
      ensures old(dead) == [] ==>
        ready == old(ready) && candidates == old(candidates) && mainInReady == old(mainInReady) &&
        current == old(current) && current.status == old(current.status)
      ensures old(dead) != [] ==>
        (State(), current) == Yielded(Queues(old(ready), [], old(mainInReady)), old(candidates), lockFree1 || lockFree2,
          old(current), old(current.status), mainThread) &&
        candidates == (if lockFree1 || lockFree2 then [] else old(candidates))
    {
      var moved := dead;
      dead := [];
      if |moved| > 0 {
        var rest := moved;
        var freed := destroyed;
        while |rest| > 0
          invariant |rest| <= |moved|
          invariant rest == moved[|moved| - |rest|..]
          invariant freed == old(destroyed) + moved[..|moved| - |rest|]
        {
          var head := rest[0];
          rest := LinkedList.RemoveAt(rest, 0);
          freed := freed + [head];
        }
        destroyed := freed;
        Yield(lockFree1, lockFree2);
      }
    }
  }
}
