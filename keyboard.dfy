// The keyboard driver's scancode queue and its waiting readers
// (src/driver/keyboard.c).
//
// The static `queue` becomes a KeyQueue object over a 1024-byte array; the
// static list `waiting_tasks` is a sequence of threads held by the
// Keyboard object together with the scheduler it wakes threads into.  The
// byte read from port 0x60 is a parameter of the interrupt handler, and
// process_scancode with the KH_* macros of keyhelp.h is a parameter
// `decode`: Some(c) for a byte that completes a character, None otherwise.

module Keyboard {
  import opened Common
  import LinkedList
  import opened Tasks
  import opened Scheduling

  const BufSize: int := 1024

  /** next_index: one slot on, wrapping at the end of the buffer.  C's `%`
      truncates toward zero, which matters only for negative indexes. */
  function NextIndex(index: int): (r: int)
    ensures 0 <= index < BufSize ==> 0 <= r < BufSize
    ensures 0 <= index < BufSize - 1 ==> r == index + 1
    ensures index == BufSize - 1 ==> r == 0
  {
    if index + 1 >= 0 then (index + 1) % BufSize else -((-(index + 1)) % BufSize)
  }

  /** The `size` bytes of the ring `b` that start at `head`, oldest first. */
  function Ring(b: seq<u8>, head: int, size: int): (r: seq<u8>)
    requires |b| == BufSize && 0 <= head < BufSize && 0 <= size <= BufSize
    ensures |r| == size
  {
    seq(size, i requires 0 <= i < size => b[(head + i) % BufSize])
  }

  /** Storing at the slot behind the last byte appends it, and the bytes
      already queued keep their slots. */
  lemma RingPush(b: seq<u8>, head: int, size: int, x: u8)
    requires |b| == BufSize && 0 <= head < BufSize && 0 <= size < BufSize
    ensures Ring(b[(head + size) % BufSize := x], head, size + 1) == Ring(b, head, size) + [x]
  {
    var t := (head + size) % BufSize;
    var r := Ring(b[t := x], head, size + 1);
    forall i | 0 <= i < size ensures r[i] == b[(head + i) % BufSize] {
      assert (head + i) % BufSize != t;
    }
  }

  /** The oldest byte sits at `head`, and moving `head` on drops it. */
  lemma RingPop(b: seq<u8>, head: int, size: int)
    requires |b| == BufSize && 0 <= head < BufSize && 0 < size <= BufSize
    ensures Ring(b, head, size)[0] == b[head]
    ensures Ring(b, NextIndex(head), size - 1) == Ring(b, head, size)[1..]
  {
    var r := Ring(b, NextIndex(head), size - 1);
    forall i | 0 <= i < size - 1 ensures r[i] == b[(head + 1 + i) % BufSize] {
      assert (NextIndex(head) + i) % BufSize == (head + 1 + i) % BufSize;
    }
  }

  /** What read_keyboard_char_impl does to the queued bytes `s`: it consumes
      bytes up to and including the first one that decodes to a character
      and returns that character, or consumes everything and returns -1. */
  function Scan(s: seq<u8>, decode: u8 -> Option<u8>): (r: (nat, int))
    ensures r.0 <= |s|
  {
    if s == [] then (0, -1)
    else if decode(s[0]).Some? then (1, decode(s[0]).value)
    else var rest := Scan(s[1..], decode); (1 + rest.0, rest.1)
  }

  /** The scan stops right after the first byte that decodes. */
  lemma {:induction false} ScanFirst(s: seq<u8>, decode: u8 -> Option<u8>, n: nat)
    requires 1 <= n <= |s|
    requires forall k :: 0 <= k < n - 1 ==> decode(s[k]).None?
    requires decode(s[n - 1]).Some?
    ensures Scan(s, decode) == (n, decode(s[n - 1]).value)
  {
    if n > 1 {
      assert decode(s[0]).None?;
      ScanFirst(s[1..], decode, n - 1);
    }
  }

  /** With no byte that decodes, everything is consumed and -1 returned. */
  lemma {:induction false} ScanNone(s: seq<u8>, decode: u8 -> Option<u8>)
    requires forall k :: 0 <= k < |s| ==> decode(s[k]).None?
    ensures Scan(s, decode) == (|s|, -1)
  {
    if s != [] {
      ScanNone(s[1..], decode);
    }
  }

  /** -1 comes back exactly when no queued byte decodes to a character (in
      particular on an empty queue, with nothing consumed); otherwise the
      character of the last consumed byte, which is a byte value. */
  lemma {:induction false} ScanResult(s: seq<u8>, decode: u8 -> Option<u8>)
    ensures s == [] ==> Scan(s, decode) == (0, -1)
    ensures Scan(s, decode).1 == -1 <==> forall k :: 0 <= k < |s| ==> decode(s[k]).None?
    ensures Scan(s, decode).1 != -1 ==>
      (Scan(s, decode).0 >= 1 && decode(s[Scan(s, decode).0 - 1]).Some? &&
       decode(s[Scan(s, decode).0 - 1]).value == Scan(s, decode).1)
  {
    if s != [] && decode(s[0]).None? {
      ScanResult(s[1..], decode);
      assert forall k :: 1 <= k < |s| ==> s[k] == s[1..][k - 1];
    }
  }

  /** The ring buffer `buffer_queue_t`. */
  class KeyQueue {
    const buffer: array<u8>
    var head: int
    var tail: int
    var size: int

    ghost predicate Valid()
      reads this
    {
      buffer.Length == BufSize && 0 <= head < BufSize && 0 <= size <= BufSize &&
      tail == (head + size) % BufSize
    }

    /** The queued scancodes, oldest first. */
    function Contents(): (r: seq<u8>)
      reads this, buffer
      requires Valid()
      ensures |r| == size
    {
      Ring(buffer[..], head, size)
    }

    /** The queue part of init_keyboard: empty. */
    constructor ()
      ensures Valid() && fresh(buffer)
      ensures head == 0 && tail == 0 && Contents() == []
    {
      buffer := new u8[BufSize];
      head := 0;
      tail := 0;
      size := 0;
    }

    /** enqueue: -1 and no change when full; otherwise 0 with `code`
        appended. */
    method Enqueue(code: u8) returns (r: int)
      requires Valid()
      modifies this, buffer
      ensures Valid()
      ensures old(size) == BufSize ==> r == -1 && Contents() == old(Contents())
      ensures old(size) < BufSize ==> r == 0 && Contents() == old(Contents()) + [code]
      ensures head == old(head)
    {
      if size == BufSize {
        return -1;
      }
      RingPush(buffer[..], head, size, code);
      buffer[tail] := code;
      tail := NextIndex(tail);
      size := size + 1;
      r := 0;
    }

    /** dequeue: the oldest byte comes out (first in, first out). */
    method Dequeue() returns (code: u8)
      requires Valid() && size > 0
      modifies this
      ensures Valid()
      ensures code == old(Contents())[0] && Contents() == old(Contents())[1..]
      ensures tail == old(tail)
    {
      RingPop(buffer[..], head, size);
      code := buffer[head];
      head := NextIndex(head);
      size := size - 1;
    }

    /** read_keyboard_char_impl: -1 without touching an empty queue;
        otherwise bytes are dequeued and decoded until one gives a
        character, and -1 when the queue runs dry first. */
    method ReadCharImpl(decode: u8 -> Option<u8>) returns (c: int)
      requires Valid()
      modifies this
      ensures Valid()
      ensures c == Scan(old(Contents()), decode).1
      ensures Contents() == old(Contents())[Scan(old(Contents()), decode).0..]
    {
      if size == 0 {
        return -1;
      }
      ghost var s := Contents();
      var code := Dequeue();
      var aug := decode(code);
      var n := 1;
      while aug.None?
        invariant Valid() && 1 <= n <= |s| && Contents() == s[n..]
        invariant forall k :: 0 <= k < n - 1 ==> decode(s[k]).None?
        invariant aug == decode(s[n - 1])
        decreases size
      {
        if size == 0 {
          ScanNone(s, decode);
          return -1;
        }
        code := Dequeue();
        aug := decode(code);
        n := n + 1;
      }
      ScanFirst(s, decode, n);
      c := aug.value;
    }
  }

  /** The schedule candidates after the waiters `got` are handed to
      add_thread_node_to_schedule_head from the tail of the list back. */
  function HandedOff(cands: seq<Thread>, got: seq<Thread>): (r: seq<Thread>)
    decreases |got|
  {
    if got == [] then cands
    else HandedOff(LinkedList.InsertedToHead(cands, got[|got| - 1]), got[..|got| - 1])
  }

  /** Every waiter becomes a candidate once and no candidate is lost. */
  lemma {:induction false} HandedOffContents(cands: seq<Thread>, got: seq<Thread>)
    ensures multiset(HandedOff(cands, got)) == multiset(cands) + multiset(got)
    decreases |got|
  {
    if got != [] {
      var last := got[|got| - 1];
      LinkedList.InsertedToHeadShape(cands, last);
      HandedOffContents(LinkedList.InsertedToHead(cands, last), got[..|got| - 1]);
      assert got == got[..|got| - 1] + [last];
    }
  }

  /** Insert-to-head into a non-empty list puts the new node second. */
  lemma InsertedBehindHead(cands: seq<Thread>, t: Thread)
    requires cands != []
    ensures LinkedList.InsertedToHead(cands, t) == [cands[0], t] + cands[1..]
  {
    LinkedList.InsertAfterSplice(cands, 0, t);
  }

  /** Walking the waiters from the tail while inserting each behind the
      first candidate keeps their order: they land, in list order, right
      behind the first candidate. */
  lemma {:induction false} HandedOffOrder(cands: seq<Thread>, got: seq<Thread>)
    requires cands != []
    ensures HandedOff(cands, got) == [cands[0]] + got + cands[1..]
    decreases |got|
  {
    if got != [] {
      var last := got[|got| - 1];
      var init := got[..|got| - 1];
      var next := LinkedList.InsertedToHead(cands, last);
      calc {
        HandedOff(cands, got);
        HandedOff(next, init);
        { HandedOffOrder(next, init); }
        [next[0]] + init + next[1..];
        { InsertedBehindHead(cands, last); }
        [cands[0]] + init + ([last] + cands[1..]);
        { assert got == init + [last]; }
        [cands[0]] + got + cands[1..];
      }
    }
  }

  /** With no candidates the last waiter comes first and the others follow
      in list order. */
  lemma HandedOffToEmpty(got: seq<Thread>)
    requires got != []
    ensures HandedOff([], got) == [got[|got| - 1]] + got[..|got| - 1]
  {
    HandedOffOrder([got[|got| - 1]], got[..|got| - 1]);
  }

  /** The wake-up loop of keyboard_interrupt_handler over the waiters moved
      out of `waiting_tasks`: each is made READY and becomes a candidate. */
  method WakeWaiters(sched: Scheduler, got: seq<Thread>)
    requires sched.Valid() && sched.mainThread !in got
    modifies sched, got`status
    ensures sched.Valid()
    ensures sched.candidates == HandedOff(old(sched.candidates), got)
    ensures forall t :: t in got ==> t.status == Ready
    ensures sched.ready == old(sched.ready) && sched.dead == old(sched.dead)
    ensures sched.current == old(sched.current) && sched.mainInReady == old(sched.mainInReady)
    ensures sched.destroyed == old(sched.destroyed)
  {
    var i := |got|;
    assert got[..i] == got;
    while i > 0
      invariant 0 <= i <= |got|
      invariant sched.Valid()
      invariant HandedOff(sched.candidates, got[..i]) == HandedOff(old(sched.candidates), got)
      invariant forall j :: i <= j < |got| ==> got[j].status == Ready
      invariant sched.ready == old(sched.ready) && sched.dead == old(sched.dead)
      invariant sched.current == old(sched.current) && sched.mainInReady == old(sched.mainInReady)
      invariant sched.destroyed == old(sched.destroyed)
    {
      var node := got[i - 1];
      assert got[..i][..i - 1] == got[..i - 1];
      sched.AddToScheduleHead(node);
      i := i - 1;
    }
    assert got[..0] == [];
  }

  /** The part of keyboard_interrupt_handler after the lock is released:
      the waiters are woken, and if it was the main thread that took the
      interrupt, it yields.  A waiter may be the interrupted thread itself
      (it was interrupted between joining the waiters and yielding); it is
      then READY but keeps running. */
  method WakeAndYield(sched: Scheduler, got: seq<Thread>, lockFree1: bool, lockFree2: bool)
    requires sched.Valid() && sched.mainThread !in got
    modifies sched, got`status, sched.current`status,
      sched.NextOf(Merged(sched.ready, HandedOff(sched.candidates, got), lockFree1 || lockFree2))`status
    ensures sched.Valid() && sched.destroyed == old(sched.destroyed)
    ensures var cands := HandedOff(old(sched.candidates), got);
      if old(sched.current) != sched.mainThread then
        sched.candidates == cands && sched.State() == old(sched.State()) && sched.current == old(sched.current) &&
        sched.current.status == (if old(sched.current) in got then Ready else old(sched.current.status))
      else
        (sched.State(), sched.current) == Yielded(old(sched.State()), cands, lockFree1 || lockFree2,
          old(sched.current), old(sched.current.status), sched.mainThread) &&
        sched.candidates == (if lockFree1 || lockFree2 then [] else cands)
    ensures forall t | t in got :: t.status == Ready || t == sched.current
  {
    ghost var cands := sched.candidates;
    WakeWaiters(sched, got);
    HandedOffContents(cands, got);
    forall i | 0 <= i < |sched.candidates| ensures sched.candidates[i] in cands || sched.candidates[i] in got {
      assert sched.candidates[i] in multiset(sched.candidates);
    }
    if sched.current == sched.mainThread {
      sched.Yield(lockFree1, lockFree2);
    }
  }

  /** The driver: its queue, the threads waiting for a key, and the
      scheduler they are woken into. */
  class Keyboard {
    const queue: KeyQueue
    var waiting: seq<Thread>
    const sched: Scheduler

    ghost predicate Valid()
      reads this, queue, sched
    {
      queue.Valid() && sched.Valid() && sched.mainThread !in waiting
    }

    /** init_keyboard: an empty queue and no waiters. */
    constructor (sched: Scheduler)
      requires sched.Valid()
      ensures Valid() && this.sched == sched && fresh(queue) && fresh(queue.buffer)
      ensures queue.Contents() == [] && waiting == []
    {
      queue := new KeyQueue();
      waiting := [];
      this.sched := sched;
    }

    /** keyboard_interrupt_handler: the scancode is queued (dropped when the
        buffer is full), every waiter is moved out and woken into the
        candidates, READY, and if the main thread took the interrupt it
        yields. */
    method InterruptHandler(scancode: u8, lockFree1: bool, lockFree2: bool)
      requires Valid()
      modifies this, queue, queue.buffer, sched, waiting`status, sched.current`status,
        sched.NextOf(Merged(sched.ready, HandedOff(sched.candidates, waiting), lockFree1 || lockFree2))`status
      ensures Valid()
      ensures waiting == [] && sched.destroyed == old(sched.destroyed)
      ensures old(queue.size) == BufSize ==> queue.Contents() == old(queue.Contents())
      ensures old(queue.size) < BufSize ==> queue.Contents() == old(queue.Contents()) + [scancode]
      ensures var cands := HandedOff(old(sched.candidates), old(waiting));
        if old(sched.current) != sched.mainThread then
          sched.candidates == cands && sched.State() == old(sched.State()) && sched.current == old(sched.current) &&
          sched.current.status == (if old(sched.current) in old(waiting) then Ready else old(sched.current.status))
        else
          (sched.State(), sched.current) == Yielded(old(sched.State()), cands, lockFree1 || lockFree2,
            old(sched.current), old(sched.current.status), sched.mainThread) &&
          sched.candidates == (if lockFree1 || lockFree2 then [] else cands)
      ensures forall t | t in old(waiting) :: t.status == Ready || t == sched.current
    {
      var _ := queue.Enqueue(scancode);
      var got := waiting;
      waiting := [];
      WakeAndYield(sched, got, lockFree1, lockFree2);
    }

    /** One pass of read_keyboard_char: a character read from the queue is
        returned; with none, the current thread joins the waiters, is
        marked WAITING and yields (and would try again when woken). */
    method ReadOrBlock(decode: u8 -> Option<u8>, lockFree1: bool, lockFree2: bool) returns (c: int)
      requires Valid() && sched.current != sched.mainThread
      modifies this, queue, sched, sched.current`status,
        sched.NextOf(Merged(sched.ready, sched.candidates, lockFree1 || lockFree2))`status
      ensures Valid()
      ensures c == Scan(old(queue.Contents()), decode).1
      ensures queue.Contents() == old(queue.Contents())[Scan(old(queue.Contents()), decode).0..]
      ensures c == -1 ==> waiting == old(waiting) + [old(sched.current)]
      ensures c == -1 ==>
        (sched.State(), sched.current) == Yielded(old(sched.State()), old(sched.candidates), lockFree1 || lockFree2,
          old(sched.current), Waiting, sched.mainThread) &&
        old(sched.current).status == (if sched.current == old(sched.current) then Running else Waiting)
      ensures c != -1 ==>
        (waiting == old(waiting) && sched.State() == old(sched.State()) &&
         sched.candidates == old(sched.candidates) && sched.current == old(sched.current) &&
         sched.current.status == old(sched.current.status))
    {
      c := queue.ReadCharImpl(decode);
      if c == -1 {
        waiting := waiting + [sched.current];
        sched.MarkThreadBlock();
        sched.Yield(lockFree1, lockFree2);
      }
    }
  }
}
