// Threads and processes (src/task/thread.c, src/task/process.c).
//
// A thread control block lives at the start of its own page, with the
// initial kernel-stack frame at the top of that page.  The global id
// counters of the two files become the classes ThreadIds and ProcessIds;
// the page that kmalloc_aligned returns is a parameter.

module Tasks {
  import opened Common
  import Format
  import Bitmap
  import BitWords

  const ThreadStackMagic: u32 := 0x3260_2021
  /** sizeof(interrupt_stack_t): sixteen saved 32-bit registers. */
  const InterruptStackSize: nat := 64
  /** sizeof(thread_stack_t): twelve 32-bit slots. */
  const ThreadStackSize: nat := 48

  const UserStackTop: nat := 0xBFC0_0000
  const UserStackSize: nat := 65536
  const UserProcessThreadsMax: nat := 4096

  /** The task states scheduler.c uses. */
  datatype Status = Running | Ready | Waiting | Dead

  /** The slots of the initial kernel-stack frame that init_thread writes;
      the others are left as the page held them. */
  datatype InitialFrame = InitialFrame(edi: u32, esi: u32, ebp: u32, ebx: u32, eip: u32, entry: u32, funcArg: u32)

  class Thread {
    const page: nat
    const id: nat
    const name: string
    const priority: u8
    const stackMagic: u32
    const selfKstack: nat
    const frame: InitialFrame
    var status: Status
    var ticks: nat
    var process: Process?
    /** Where a user thread's stack starts (0 for a kernel thread). */
    var userStackTop: nat

    constructor (page: nat, id: nat, name: string, priority: u8, frame: InitialFrame)
      ensures this.page == page && this.id == id && this.name == name && this.priority == priority
      ensures this.frame == frame
      ensures stackMagic == ThreadStackMagic
      ensures selfKstack == page + PageSize - (InterruptStackSize + ThreadStackSize)
      ensures status == Running && ticks == 0 && process == null && userStackTop == 0
    {
      this.page := page;
      this.id := id;
      this.name := name;
      this.priority := priority;
      this.frame := frame;
      stackMagic := ThreadStackMagic;
      selfKstack := page + PageSize - (InterruptStackSize + ThreadStackSize);
      status := Running;
      ticks := 0;
      process := null;
      userStackTop := 0;
    }
  }

  /** The name a task gets: a copy of the given one, or the prefix followed
      by the id in decimal. */
  function TaskName(given: Option<string>, prefix: string, id: nat): (r: string)
    ensures given.Some? ==> r == given.value
    ensures given.None? ==> |r| > |prefix| && r[..|prefix|] == prefix && r[|prefix|..] == Format.Decimal(id)
  {
    if given.Some? then given.value else prefix + Format.Decimal(id)
  }

  /** Two unnamed tasks with different ids get different names. */
  lemma DefaultNamesDiffer(prefix: string, i: nat, j: nat)
    requires i != j
    ensures TaskName(None, prefix, i) != TaskName(None, prefix, j)
  {
    var a := TaskName(None, prefix, i);
    var b := TaskName(None, prefix, j);
    Format.DigitsInjective(i, j, 10);
    assert a[|prefix|..] != b[|prefix|..];
  }

  /** The kernel stack pointer of a new thread leaves exactly room for the
      interrupt frame and the thread frame at the top of its page. */
  lemma KernelStackInPage(page: nat)
    ensures var k := page + PageSize - (InterruptStackSize + ThreadStackSize);
      page < k && k + InterruptStackSize + ThreadStackSize == page + PageSize && k == page + 3984
  {
  }

  /** The static `next_thread_id` of thread.c, with the ids handed out so far. */
  class ThreadIds {
    var next: nat
    ghost var issued: set<nat>

    ghost predicate Valid()
      reads this
    {
      next >= 1 && forall i :: i in issued ==> 1 <= i < next
    }

    constructor ()
      ensures Valid() && next == 1 && issued == {}
    {
      next := 1;
      issued := {};
    }

    /** init_thread: the next id, the given or default name, RUNNING with no
        ticks, the priority truncated to the uint8 field, the stack magic,
        and the initial frame at the top of the page. */
    method InitThread(name: Option<string>, entry: u32, funcArg: u32, priority: u32, page: nat, kernelThread: u32)
      returns (t: Thread)
      requires Valid()
      modifies this
      ensures Valid() && fresh(t)
      ensures t.id == old(next) && next == old(next) + 1
      ensures t.id !in old(issued) && issued == old(issued) + {t.id}
      ensures t.name == TaskName(name, "thread-", t.id)
      ensures t.status == Running && t.ticks == 0 && t.priority == priority % 256
      ensures t.stackMagic == ThreadStackMagic && t.page == page
      ensures t.selfKstack == page + PageSize - (InterruptStackSize + ThreadStackSize)
      ensures t.frame == InitialFrame(0, 0, 0, 0, kernelThread, entry, funcArg)
      ensures t.process == null
    {
      var id := next;
      next := next + 1;
      issued := issued + {id};
      t := new Thread(page, id, TaskName(name, "thread-", id), priority % 256,
        InitialFrame(0, 0, 0, 0, kernelThread, entry, funcArg));
    }
  }

  /** Where the stack of user-stack slot `slot` starts (it grows down). */
  function StackTop(slot: nat): (top: int)
  {
    UserStackTop - slot * UserStackSize
  }

  /** Every slot's 64 KiB region lies below USER_STACK_TOP and above 0, and
      the regions of two different slots do not overlap. */
  lemma StackRegionsDisjoint(i: nat, j: nat)
    requires i < UserProcessThreadsMax && j < UserProcessThreadsMax
    ensures 0 < StackTop(i) - UserStackSize && StackTop(i) <= UserStackTop
    ensures i != j ==> StackTop(i) <= StackTop(j) - UserStackSize || StackTop(j) <= StackTop(i) - UserStackSize
  {
  }

  class Process {
    const id: nat
    const name: string
    const isKernelProcess: u8
    /** The user-stack slot pool. */
    const stackSlots: Bitmap.Bitmap
    var threads: seq<Thread>

    constructor (id: nat, name: string, isKernelProcess: u8)
      ensures this.id == id && this.name == name && this.isKernelProcess == isKernelProcess
      ensures fresh(stackSlots) && fresh(stackSlots.words)
      ensures stackSlots.Valid() && stackSlots.arraySize == UserProcessThreadsMax / 32
      ensures stackSlots.words.Length == UserProcessThreadsMax / 32
      ensures threads == []
    {
      this.id := id;
      this.name := name;
      this.isKernelProcess := isKernelProcess;
      stackSlots := new Bitmap.Bitmap(null, UserProcessThreadsMax);
      threads := [];
    }

    ghost predicate Valid()
      reads this, stackSlots
    {
      stackSlots.Valid() && stackSlots.arraySize == UserProcessThreadsMax / 32
    }
  }

  /** The thread list of a process with `t` taken out and the order of the
      others kept. */
  function Detached(threads: seq<Thread>, t: Thread): (r: seq<Thread>)
    ensures multiset(r) == multiset(threads)[t := 0]
    ensures t !in r
  {
    if threads == [] then []
    else
      assert threads == [threads[0]] + threads[1..];
      if threads[0] == t then Detached(threads[1..], t) else [threads[0]] + Detached(threads[1..], t)
  }

  /** remove_process_thread, whose body is not part of this model, by its
      evident effect: the thread leaves its process's thread collection. */
  method RemoveProcessThread(process: Process, t: Thread)
    modifies process
    ensures process.threads == Detached(old(process.threads), t)
  {
    process.threads := Detached(process.threads, t);
  }

  /** The static `next_pid` of process.c, with the ids handed out so far. */
  class ProcessIds {
    var next: nat
    ghost var issued: set<nat>

    ghost predicate Valid()
      reads this
    {
      next >= 1 && forall i :: i in issued ==> 1 <= i < next
    }

    constructor ()
      ensures Valid() && next == 1 && issued == {}
    {
      next := 1;
      issued := {};
    }

    /** create_process: the next pid, the given or default name, the kernel
        flag as given, a 4096-slot stack pool and no threads. */
    method CreateProcess(name: Option<string>, isKernelProcess: u8) returns (p: Process)
      requires Valid()
      modifies this
      ensures Valid() && fresh(p) && fresh(p.stackSlots) && fresh(p.stackSlots.words)
      ensures p.Valid()
      ensures p.id == old(next) && next == old(next) + 1
      ensures p.id !in old(issued) && issued == old(issued) + {p.id}
      ensures p.name == TaskName(name, "process-", p.id)
      ensures p.isKernelProcess == isKernelProcess && p.threads == []
    {
      var id := next;
      next := next + 1;
      issued := issued + {id};
      p := new Process(id, TaskName(name, "process-", id), isKernelProcess);
    }
  }

  /** create_new_kernel_thread: a new thread attached to `process`. */
  method CreateKernelThread(ids: ThreadIds, process: Process, name: Option<string>, entry: u32, priority: u32, page: nat, kernelThread: u32)
    returns (t: Thread)
    requires ids.Valid()
    modifies ids, process
    ensures ids.Valid() && fresh(t)
    ensures t.id == old(ids.next) && ids.next == old(ids.next) + 1
    ensures t.name == TaskName(name, "thread-", t.id) && t.status == Running
    ensures t.process == process
    ensures process.threads == old(process.threads) + [t]
  {
    t := ids.InitThread(name, entry, 0, priority, page, kernelThread);
    t.process := process;
    process.threads := process.threads + [t];
  }

  /** create_new_user_thread: the thread is attached to the process before
      a stack slot is sought, so when the pool is full the result is null
      but the thread stays attached.  Otherwise the lowest free slot is
      taken and the thread's stack starts at StackTop(slot). */
  method CreateUserThread(ids: ThreadIds, process: Process, name: Option<string>, entry: u32, priority: u32, page: nat, kernelThread: u32)
    returns (t: Thread?, ghost slot: nat)
    requires ids.Valid() && process.Valid()
    modifies ids, process, process.stackSlots.words
    ensures ids.Valid() && process.Valid()
    ensures ids.next == old(ids.next) + 1
    ensures |process.threads| == |old(process.threads)| + 1
    ensures process.threads[..|old(process.threads)|] == old(process.threads)
    ensures fresh(process.threads[|old(process.threads)|])
    ensures process.threads[|old(process.threads)|].process == process
    ensures t == null <==> forall b: nat :: b < UserProcessThreadsMax ==> old(process.stackSlots.IsSet(b))
    ensures t == null ==> process.stackSlots.words[..] == old(process.stackSlots.words[..])
    ensures t != null ==> t == process.threads[|old(process.threads)|]
    ensures t != null ==> slot < UserProcessThreadsMax && t.userStackTop == StackTop(slot)
    ensures t != null ==> !old(process.stackSlots.IsSet(slot))
    ensures t != null ==> forall b: nat :: b < slot ==> old(process.stackSlots.IsSet(b))
    ensures t != null ==> forall b: nat :: b < UserProcessThreadsMax ==>
      process.stackSlots.IsSet(b) == (b == slot || old(process.stackSlots.IsSet(b)))
  {
    var thread := ids.InitThread(name, entry, 0, priority, page, kernelThread);
    thread.process := process;
    process.threads := process.threads + [thread];
    assert process.stackSlots.words[..] == old(process.stackSlots.words[..]);
    assert forall b: nat :: b < UserProcessThreadsMax ==>
      process.stackSlots.IsSet(b) == old(process.stackSlots.IsSet(b));
    var r := process.stackSlots.AllocateFirstFree();
    if r.None? {
      return null, 0;
    }
    thread.userStackTop := StackTop(r.value);
    slot := r.value;
    t := thread;
  }
}
