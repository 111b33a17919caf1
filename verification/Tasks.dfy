/** The round-robin scheduler of src/impl/task.c: a linked list of tasks, of which one runs. */
module Tasks {

  const RESUMED: nat := 0x31415926 // what read_eip answers in a task that is switched to

  const KERNEL_STACK_SIZE: nat := 2048

  /** Where a task continues. */
  datatype Context = Context(eip: nat, esp: nat, ebp: nat)

  /** What switch_task ends with: a plain return in a task that was switched to, or the jump into
      the next task, with the page directory to load and the top of the stack for interrupts. */
  datatype Outcome = Return | Jump(context: Context, directory: nat, stackTop: nat)

  datatype TaskInfo = TaskInfo(id: nat, directory: nat, context: Context)

  /** The tasks in the order of the list, the position of the current one, and the page
      directory in force. */
  datatype Queue = Queue(tasks: seq<TaskInfo>, current: nat, directory: nat)

  /** Ids count from 1 in list order, and the current task's directory is in force. */
  ghost predicate Orderly(q: Queue) {
    && q.current < |q.tasks|
    && (forall i :: 0 <= i < |q.tasks| ==> q.tasks[i].id == i + 1)
    && q.directory == q.tasks[q.current].directory
  }

  /** What happens to the queue: the current task gives way, with the context it is to continue
      in; or create_proc or fork append a task with its own directory and context. */
  datatype Event = Switch(saved: Context) | Append(directory: nat, context: Context)

  ghost function Successor(n: nat, current: nat): nat {
    if current + 1 < n then current + 1 else 0
  }

  ghost function After(q: Queue, e: Event): Queue
    requires Orderly(q)
  {
    match e
    case Switch(saved) =>
      var next := Successor(|q.tasks|, q.current);
      var tasks := q.tasks[q.current := q.tasks[q.current].(context := saved)];
      Queue(tasks, next, tasks[next].directory)
    case Append(directory, context) =>
      q.(tasks := q.tasks + [TaskInfo(|q.tasks| + 1, directory, context)])
  }

  lemma AfterIsOrderly(q: Queue, e: Event)
    requires Orderly(q)
    ensures Orderly(After(q, e)) && 0 < |q.tasks| && q.current < |q.tasks|
    ensures forall i :: 0 <= i < |q.tasks| ==> q.tasks[i].id == i + 1
  {
  }

  ghost function AfterAll(q: Queue, events: seq<Event>): (r: Queue)
    requires Orderly(q)
    ensures Orderly(r) && |q.tasks| <= |r.tasks|
    decreases |events|
  {
    if events == [] then q else AfterAll(After(q, events[0]), events[1..])
  }

  ghost function Switches(events: seq<Event>): nat {
    if events == [] then 0 else (if events[0].Switch? then 1 else 0) + Switches(events[1..])
  }

  ghost function Appends(events: seq<Event>): nat {
    if events == [] then 0 else (if events[0].Append? then 1 else 0) + Appends(events[1..])
  }

  /** The number of switches until the task at position t runs again if nothing is appended. */
  function Wait(n: nat, current: nat, t: nat): nat
    requires current < n && t < n
  {
    if t > current then t - current else n - current + t
  }

  /** Who runs after event k of the run. */
  ghost function CurrentAfter(q: Queue, events: seq<Event>, k: nat): nat
    requires Orderly(q) && k < |events|
  {
    AfterAll(q, events[..k + 1]).current
  }

  /** Event k of the run is a switch to the task at position t. */
  ghost predicate RunsAt(q: Queue, events: seq<Event>, k: nat, t: nat)
    requires Orderly(q)
  {
    k < |events| && events[k].Switch? && CurrentAfter(q, events, k) == t
  }

  /** With enough switches to make up for the tasks appended meanwhile, every task runs. */
  lemma {:induction false} RunsWithinWait(q: Queue, events: seq<Event>, t: nat) returns (k: nat)
    requires Orderly(q) && t < |q.tasks|
    requires Wait(|q.tasks|, q.current, t) + Appends(events) <= Switches(events)
    ensures RunsAt(q, events, k, t)
    decreases |events|
  {
    var r, rest := After(q, events[0]), events[1..];
    if events[0].Switch? && Wait(|q.tasks|, q.current, t) == 1 {
      k := 0;
      assert events[..k + 1] == [events[0]] && [events[0]][1..] == [];
      assert AfterAll(q, [events[0]]) == AfterAll(r, []);
    } else {
      k := RunsWithinWait(r, rest, t);
      assert events[..k + 2][1..] == rest[..k + 1];
      assert CurrentAfter(q, events, k + 1) == CurrentAfter(r, rest, k);
      k := k + 1;
    }
  }

  /** Any task runs within n + k switches if k tasks are appended meanwhile. */
  lemma EveryTaskRuns(q: Queue, events: seq<Event>, t: nat)
    requires Orderly(q) && t < |q.tasks| && |q.tasks| + Appends(events) <= Switches(events)
    ensures exists k :: RunsAt(q, events, k, t)
  {
    var k := RunsWithinWait(q, events, t);
  }

  lemma {:induction false} OnlySwitches(q: Queue, events: seq<Event>)
    requires Orderly(q) && Appends(events) == 0
    ensures |AfterAll(q, events).tasks| == |q.tasks| && Switches(events) == |events|
    ensures q.current + |events| < |q.tasks| ==> AfterAll(q, events).current == q.current + |events|
    ensures |q.tasks| <= q.current + |events| < 2 * |q.tasks| ==>
      AfterAll(q, events).current == q.current + |events| - |q.tasks|
    decreases |events|
  {
    if events != [] {
      var r := After(q, events[0]);
      OnlySwitches(r, events[1..]);
    }
  }

  /** While nothing is appended, n switches run each of the n tasks exactly once. */
  lemma EachRunsOnce(q: Queue, events: seq<Event>, t: nat) returns (k: nat)
    requires Orderly(q) && t < |q.tasks| == |events| && Appends(events) == 0
    ensures k < |events| && CurrentAfter(q, events, k) == t
    ensures forall i :: 0 <= i < |events| && i != k ==> CurrentAfter(q, events, i) != t
  {
    k := Wait(|q.tasks|, q.current, t) - 1;
    forall i | 0 <= i < |events|
      ensures CurrentAfter(q, events, i) ==
        if q.current + i + 1 < |q.tasks| then q.current + i + 1 else q.current + i + 1 - |q.tasks|
    {
      NoAppendsIn(events, i + 1);
      OnlySwitches(q, events[..i + 1]);
    }
  }

  lemma {:induction false} NoAppendsIn(events: seq<Event>, n: nat)
    requires n <= |events| && Appends(events) == 0
    ensures Appends(events[..n]) == 0
    decreases n
  {
    if n > 0 {
      NoAppendsIn(events[1..], n - 1);
      assert events[..n][1..] == events[1..][..n - 1];
    }
  }

  /** The run never switches away from the task at position t. */
  ghost predicate NeverLeaves(q: Queue, events: seq<Event>, t: nat)
    requires Orderly(q)
    decreases |events|
  {
    events == [] || ((events[0].Switch? ==> q.current != t) && NeverLeaves(After(q, events[0]), events[1..], t))
  }

  /** A task that has been left continues, whenever it runs next, in the context and with the
      directory it was left with; what other tasks do does not touch them. */
  lemma {:induction false} ContextIsKept(q: Queue, events: seq<Event>, t: nat)
    requires Orderly(q) && t < |q.tasks| && NeverLeaves(q, events, t)
    ensures t < |AfterAll(q, events).tasks| && AfterAll(q, events).tasks[t] == q.tasks[t]
    decreases |events|
  {
    if events != [] {
      ContextIsKept(After(q, events[0]), events[1..], t);
    }
  }

  /** The task that is switched away from has the context saved by that switch, and its own id and
      directory, for as long as it is not left again. */
  lemma SwitchSaves(q: Queue, saved: Context, events: seq<Event>)
    requires Orderly(q) && NeverLeaves(After(q, Switch(saved)), events, q.current)
    ensures var r := AfterAll(q, [Switch(saved)] + events);
      q.current < |r.tasks| && r.tasks[q.current] == TaskInfo(q.current + 1, q.tasks[q.current].directory, saved)
  {
    ContextIsKept(After(q, Switch(saved)), events, q.current);
    assert ([Switch(saved)] + events)[1..] == events;
  }

  /** A task that is appended starts in the context and with the directory given to it, and
      is the last in the list. */
  lemma AppendStarts(q: Queue, directory: nat, context: Context, events: seq<Event>)
    requires Orderly(q) && NeverLeaves(After(q, Append(directory, context)), events, |q.tasks|)
    ensures var r := AfterAll(q, [Append(directory, context)] + events);
      |q.tasks| < |r.tasks| && r.tasks[|q.tasks|] == TaskInfo(|q.tasks| + 1, directory, context)
  {
    ContextIsKept(After(q, Append(directory, context)), events, |q.tasks|);
    assert ([Append(directory, context)] + events)[1..] == events;
  }

  /** A switch changes no record but that of the task it leaves; an append changes no record, adds one,
      and neither moves on nor changes the directory in force. */
  lemma OthersUnchanged(q: Queue, e: Event, i: nat)
    requires Orderly(q) && i < |q.tasks|
    ensures |After(q, e).tasks| == |q.tasks| + if e.Append? then 1 else 0
    ensures e.Append? || i != q.current ==> After(q, e).tasks[i] == q.tasks[i]
    ensures e.Append? ==> After(q, e).current == q.current && After(q, e).directory == q.directory
  {
  }

  // ---- The list in memory ----

  class Task {
    const id: nat
    const directory: nat
    var eip: nat
    var esp: nat
    var ebp: nat
    var kernelStack: nat
    var next: Task?

    constructor (id: nat, directory: nat, eip: nat, kernelStack: nat)
      ensures this.id == id && this.directory == directory && this.kernelStack == kernelStack
      ensures this.eip == eip && esp == 0 && ebp == 0 && next == null
    {
      this.id, this.directory, this.eip, this.kernelStack := id, directory, eip, kernelStack;
      esp, ebp, next := 0, 0, null;
    }

    ghost function Info(): TaskInfo
      reads this
    {
      TaskInfo(id, directory, Context(eip, esp, ebp))
    }
  }

  class Scheduler {
    var currentTask: Task
    var readyQueue: Task
    var nextPid: nat
    var currentDirectory: nat
    ghost var tasks: seq<Task>
    ghost var current: nat

    /** The list of the tasks, from the head of the queue to its end. */
    ghost predicate Linked()
      reads this, tasks
    {
      && tasks != [] && readyQueue == tasks[0]
      && (forall i {:trigger tasks[i].next} :: 0 <= i < |tasks| ==>
            tasks[i].next == if i + 1 < |tasks| then tasks[i + 1] else null)
      && (forall i, j :: 0 <= i < j < |tasks| ==> tasks[i] != tasks[j])
    }

    ghost predicate Valid()
      reads this, tasks
    {
      && Linked()
      && current < |tasks| && currentTask == tasks[current]
      && nextPid == |tasks| + 1
      && Orderly(State())
    }

    ghost function State(): Queue
      reads this, tasks
    {
      Queue(seq(|tasks|, i requires 0 <= i < |tasks| reads this, tasks => tasks[i].Info()), current, currentDirectory)
    }

    /** initialise_tasking, after the stack has been moved. */
    constructor (directory: nat, kernelStack: nat)
      ensures Valid() && fresh(tasks) && currentTask.kernelStack == kernelStack
      ensures State() == Queue([TaskInfo(1, directory, Context(0, 0, 0))], 0, directory)
    {
      var task := new Task(1, directory, 0, kernelStack);
      currentTask, readyQueue := task, task;
      nextPid := 2;
      currentDirectory := directory;
      tasks, current := [task], 0;
    }

    /** switch_task, given what the registers hold and what read_eip answers. */
    method SwitchTask(eip: nat, esp: nat, ebp: nat) returns (outcome: Outcome)
      requires Valid()
      modifies this`currentTask, this`current, this`currentDirectory, tasks
      ensures Valid() && tasks == old(tasks)
      ensures State() == if eip == RESUMED then old(State()) else After(old(State()), Switch(Context(eip, esp, ebp)))
      ensures forall t :: t in tasks ==> t.kernelStack == old(t.kernelStack)
      ensures if eip == RESUMED then outcome == Return
              else
                && outcome.Jump? && outcome.context == State().tasks[current].context
                && outcome.directory == State().tasks[current].directory
                && outcome.stackTop == currentTask.kernelStack + KERNEL_STACK_SIZE
    {
      if eip == RESUMED {
        return Return;
      }
      hide Orderly;
      ghost var was := State();
      AfterIsOrderly(was, Switch(Context(eip, esp, ebp)));
      currentTask.eip := eip;
      currentTask.esp := esp;
      currentTask.ebp := ebp;
      if currentTask.next != null {
        currentTask := currentTask.next;
      } else {
        currentTask := readyQueue;
      }
      current := Successor(|tasks|, current);
      var context := Context(currentTask.eip, currentTask.esp, currentTask.ebp);
      currentDirectory := currentTask.directory;
      outcome := Jump(context, currentDirectory, currentTask.kernelStack + KERNEL_STACK_SIZE);
      assert State() == After(was, Switch(Context(eip, esp, ebp)));
    }

    /** The walk to the end of the list, and the link to the new task there. */
    method Link(newTask: Task)
      requires Linked() && newTask !in tasks && newTask.next == null
      modifies this`tasks, tasks
      ensures Linked() && tasks == old(tasks) + [newTask]
      ensures forall t :: t in old(tasks) ==> t.Info() == old(t.Info()) && t.kernelStack == old(t.kernelStack)
      ensures newTask.Info() == old(newTask.Info())
    {
      var last := readyQueue;
      ghost var i := 0;
      while last.next != null
        invariant i < |tasks| && last == tasks[i]
        decreases |tasks| - i
      {
        last := last.next;
        i := i + 1;
      }
      last.next := newTask;
      tasks := tasks + [newTask];
    }

    /** create_proc and fork: append a task that starts at eip with the stack of the caller.
        Both store the new kernel stack in the current task, and leave that of the new one as
        kmalloc found it. */
    method AppendTask(eip: nat, esp: nat, ebp: nat, directory: nat, kernelStack: nat, found: nat) returns (id: nat)
      requires Valid()
      modifies this`nextPid, this`tasks, tasks
      ensures Valid() && id == old(nextPid)
      ensures State() == After(old(State()), Append(directory, Context(eip, esp, ebp)))
      ensures currentTask.kernelStack == kernelStack
      ensures forall t :: t in old(tasks) && t != currentTask ==> t.kernelStack == old(t.kernelStack)
    {
      hide Orderly;
      ghost var was := State();
      AfterIsOrderly(was, Append(directory, Context(eip, esp, ebp)));
      var newTask := new Task(nextPid, directory, eip, found);
      nextPid := nextPid + 1;
      currentTask.kernelStack := kernelStack;
      Link(newTask);
      newTask.esp := esp;
      newTask.ebp := ebp;
      id := newTask.id;
      assert State() == After(was, Append(directory, Context(eip, esp, ebp)));
    }
  }
}
