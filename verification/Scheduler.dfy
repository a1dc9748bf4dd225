/** The round-robin scheduler: timer ticks, new tasks and exits, one step at a time and over
    whole runs. */
module Scheduler {
  import opened Bytes

  datatype TaskState = Ready | Running | Blocked | Dead

  datatype Task = Task(id: nat, kernelStackTop: nat, rsp: nat, cr3: nat, state: TaskState, isUser: bool)

  /** The scheduler with the registers it controls: the stack the processor switches to on
      entry from user mode, and the page-table root. */
  datatype State = State(queue: seq<Task>, current: Option<Task>, rsp0: nat, cr3: nat, nextId: nat)

  datatype Event =
    | Timer(rsp: nat) // a tick that interrupts the running code at `rsp`
    | Add(kernelStackTop: nat, rsp: nat, cr3: nat, isUser: bool)
    | Exit

  datatype Switch = Switch(rsp: nat, cr3: nat)

  // ---- steps ----

  /** The queue with the interrupted task put back, unless it is dead. */
  function Requeued(s: State, rsp: nat): seq<Task> {
    if s.current.Some? && !s.current.value.state.Dead? then s.queue + [s.current.value.(rsp := rsp, state := Ready)]
    else s.queue
  }

  function Step(s: State, e: Event): State {
    match e
    case Timer(rsp) =>
      var q := Requeued(s, rsp);
      if q == [] then s.(queue := [], current := None)
      else s.(queue := q[1..], current := Some(q[0].(state := Running)), cr3 := q[0].cr3,
              rsp0 := if q[0].isUser then q[0].kernelStackTop else s.rsp0)
    case Add(top, rsp, cr3, user) =>
      s.(queue := s.queue + [Task(s.nextId, top, rsp, cr3, Ready, user)], nextId := s.nextId + 1)
    case Exit =>
      if s.current.Some? then s.(current := Some(s.current.value.(state := Dead))) else s
  }

  /** Where execution goes on after a tick. */
  function Resumes(s: State, rsp: nat): Switch {
    var q := Requeued(s, rsp);
    if q == [] then Switch(rsp, s.cr3) else Switch(q[0].rsp, q[0].cr3)
  }

  function Run(s: State, es: seq<Event>): State {
    if es == [] then s else Step(Run(s, es[..|es| - 1]), es[|es| - 1])
  }

  function Ticks(es: seq<Event>): nat {
    if es == [] then 0 else Ticks(es[..|es| - 1]) + if es[|es| - 1].Timer? then 1 else 0
  }

  // ---- the scheduler object ----

  class RoundRobin {
    var tasks: seq<Task>
    var current: Option<Task>
    var rsp0: nat // of the task state segment
    var cr3: nat
    var nextId: nat

    ghost function View(): State
      reads this
    {
      State(tasks, current, rsp0, cr3, nextId)
    }

    /** The boot code becomes task 0. */
    constructor (kernelCr3: nat)
      ensures View() == Booted(kernelCr3)
    {
      tasks, rsp0, cr3, nextId := [], 0, kernelCr3, 1;
      current := Some(Task(0, 0, 0, kernelCr3, Running, false));
    }

    method NewTask(kernelStackTop: nat, rsp: nat, root: nat, isUser: bool) returns (t: Task)
      modifies this`nextId
      ensures nextId == old(nextId) + 1 && t == Task(old(nextId), kernelStackTop, rsp, root, Ready, isUser)
    {
      t := Task(nextId, kernelStackTop, rsp, root, Ready, isUser);
      nextId := nextId + 1;
    }

    method AddTask(t: Task)
      modifies this`tasks
      ensures tasks == old(tasks) + [t]
    {
      tasks := tasks + [t];
    }

    method Spawn(kernelStackTop: nat, rsp: nat, root: nat, isUser: bool)
      modifies this
      ensures View() == Step(old(View()), Add(kernelStackTop, rsp, root, isUser))
    {
      var t := NewTask(kernelStackTop, rsp, root, isUser);
      AddTask(t);
    }

    /** The timer interrupt: choose the next task and load its page tables. */
    method PickNext(currentRsp: nat) returns (r: Switch)
      modifies this
      ensures View() == Step(old(View()), Timer(currentRsp)) && r == Resumes(old(View()), currentRsp)
    {
      if current.Some? {
        var t := current.value;
        current := None;
        if !t.state.Dead? {
          t := t.(rsp := currentRsp, state := Ready);
          tasks := tasks + [t];
        }
      }
      if |tasks| > 0 {
        var next := tasks[0];
        tasks := tasks[1..];
        next := next.(state := Running);
        if next.isUser {
          rsp0 := next.kernelStackTop;
        }
        current := Some(next);
        r := Switch(next.rsp, next.cr3);
      } else {
        r := Switch(currentRsp, cr3);
      }
      cr3 := r.cr3;
    }

    method SysExit()
      modifies this`current
      ensures View() == Step(old(View()), Exit)
    {
      if current.Some? {
        current := Some(current.value.(state := Dead));
      }
    }

    /** Any sequence of events. */
    method Handle(es: seq<Event>)
      modifies this
      ensures View() == Run(old(View()), es)
    {
      for i := 0 to |es|
        invariant View() == Run(old(View()), es[..i])
      {
        assert es[..i + 1][..i] == es[..i];
        match es[i] {
          case Timer(rsp) =>
            var r := PickNext(rsp);
          case Add(top, rsp, root, user) => Spawn(top, rsp, root, user);
          case Exit => SysExit();
        }
      }
      assert es[..|es|] == es;
    }
  }

  // ---- what every step keeps ----

  function Booted(kernelCr3: nat): State {
    State([], Some(Task(0, 0, 0, kernelCr3, Running, false)), 0, kernelCr3, 1)
  }

  /** Waiting tasks are ready, the current one is running or dead; every task is there once;
      the processor's registers belong to the current task. */
  ghost predicate Sound(s: State) {
    && QueueOk(s.queue, s.nextId)
    && (s.current.Some? ==>
          && (s.current.value.state.Running? || s.current.value.state.Dead?)
          && s.current.value.id < s.nextId
          && Absent(s.queue, s.current.value.id)
          && s.cr3 == s.current.value.cr3
          && (s.current.value.isUser ==> s.rsp0 == s.current.value.kernelStackTop))
  }

  ghost predicate QueueOk(q: seq<Task>, nextId: nat) {
    && (forall i {:trigger q[i]} :: 0 <= i < |q| ==> q[i].state.Ready? && q[i].id < nextId)
    && (forall i, j {:trigger q[i], q[j]} :: 0 <= i < j < |q| ==> q[i].id != q[j].id)
  }

  ghost predicate Absent(q: seq<Task>, id: nat) {
    forall i {:trigger q[i]} :: 0 <= i < |q| ==> q[i].id != id
  }

  lemma PushedOk(q: seq<Task>, nextId: nat, t: Task)
    requires QueueOk(q, nextId) && Absent(q, t.id) && t.state.Ready? && t.id < nextId
    ensures QueueOk(q + [t], nextId)
  {
  }

  lemma PoppedOk(q: seq<Task>, nextId: nat)
    requires QueueOk(q, nextId) && q != []
    ensures QueueOk(q[1..], nextId) && Absent(q[1..], q[0].id)
  {
  }

  lemma BootSound(kernelCr3: nat)
    ensures Sound(Booted(kernelCr3))
  {
  }

  lemma StepSound(s: State, e: Event)
    requires Sound(s)
    ensures Sound(Step(s, e))
    ensures e.Timer? ==> QueueOk(Requeued(s, e.rsp), s.nextId)
  {
    match e
    case Timer(rsp) =>
      if s.current.Some? && !s.current.value.state.Dead? {
        PushedOk(s.queue, s.nextId, s.current.value.(rsp := rsp, state := Ready));
      }
      var q := Requeued(s, rsp);
      if q != [] {
        PoppedOk(q, s.nextId);
      }
    case Add(top, rsp, cr3, user) =>
      PushedOk(s.queue, s.nextId + 1, Task(s.nextId, top, rsp, cr3, Ready, user));
    case Exit =>
  }

  lemma {:induction false} RunSound(s: State, es: seq<Event>)
    requires Sound(s)
    ensures Sound(Run(s, es))
  {
    if es != [] {
      RunSound(s, es[..|es| - 1]);
      StepSound(Run(s, es[..|es| - 1]), es[|es| - 1]);
    }
  }

  /** Every run that starts at boot is sound throughout. */
  lemma BootRunSound(kernelCr3: nat, es: seq<Event>)
    ensures Sound(Run(Booted(kernelCr3), es))
  {
    BootSound(kernelCr3);
    RunSound(Booted(kernelCr3), es);
  }

  // ---- turns ----

  /** Until its turn, a waiting task moves up one place per tick, whatever else happens. */
  lemma {:induction false} MovesUp(s: State, es: seq<Event>, i: nat)
    requires i < |s.queue| && Ticks(es) <= i
    ensures |Run(s, es).queue| > i - Ticks(es) && Run(s, es).queue[i - Ticks(es)] == s.queue[i]
  {
    if es != [] {
      MovesUp(s, es[..|es| - 1], i);
    }
  }

  /** The task at position i becomes current at exactly the (i+1)-th tick. */
  lemma Turn(s: State, es: seq<Event>, i: nat)
    requires i < |s.queue| && es != [] && es[|es| - 1].Timer? && Ticks(es) == i + 1
    ensures Run(s, es).current == Some(s.queue[i].(state := Running))
    ensures Resumes(Run(s, es[..|es| - 1]), es[|es| - 1].rsp) == Switch(s.queue[i].rsp, s.queue[i].cr3)
  {
    MovesUp(s, es[..|es| - 1], i);
  }

  /** Not before: with unique ids, no earlier tick makes it current. */
  lemma NotBefore(s: State, es: seq<Event>, i: nat)
    requires Sound(s) && i < |s.queue| && Ticks(es) <= i
    ensures Run(s, es).current.Some? ==> Run(s, es).current.value.id != s.queue[i].id
  {
    MovesUp(s, es, i);
    RunSound(s, es);
  }

  /** A preempted task is back after as many further ticks as tasks were waiting, and goes
      on where it was interrupted. */
  lemma BackAgain(s: State, rsp: nat, es: seq<Event>)
    requires s.current.Some? && !s.current.value.state.Dead? && Ticks(es) == |s.queue|
    requires (es == [] || es[|es| - 1].Timer?)
    ensures Run(Step(s, Timer(rsp)), es).current == Some(s.current.value.(rsp := rsp, state := Running))
  {
    if es != [] {
      TicksOfNone(es);
      var s' := Step(s, Timer(rsp));
      Turn(s', es, |s.queue| - 1);
    }
  }

  lemma TicksOfNone(es: seq<Event>)
    requires es != [] && es[|es| - 1].Timer?
    ensures Ticks(es) >= 1
  {
  }

  // ---- nothing is lost or duplicated ----

  /** What never changes about a task. */
  function Identity(t: Task): Task { t.(rsp := 0, state := Ready) }

  function Queued(q: seq<Task>): multiset<Task> {
    if q == [] then multiset{} else Queued(q[..|q| - 1]) + multiset{Identity(q[|q| - 1])}
  }

  /** The live tasks. */
  function Live(s: State): multiset<Task> {
    Queued(s.queue) +
    if s.current.Some? && !s.current.value.state.Dead? then multiset{Identity(s.current.value)} else multiset{}
  }

  /** Tasks that were created during a run. */
  function Created(s: State, es: seq<Event>): multiset<Task> {
    if es == [] then multiset{}
    else
      var e, before := es[|es| - 1], Created(s, es[..|es| - 1]);
      if e.Add? then before + multiset{Task(Run(s, es[..|es| - 1]).nextId, e.kernelStackTop, 0, e.cr3, Ready, e.isUser)}
      else before
  }

  /** Tasks that exited during a run, each counted when it dies. */
  function Exited(s: State, es: seq<Event>): multiset<Task> {
    if es == [] then multiset{}
    else
      var c, before := Run(s, es[..|es| - 1]).current, Exited(s, es[..|es| - 1]);
      if es[|es| - 1].Exit? && c.Some? && !c.value.state.Dead? then before + multiset{Identity(c.value)} else before
  }

  lemma {:induction false} QueuedFront(q: seq<Task>)
    requires q != []
    ensures Queued(q) == multiset{Identity(q[0])} + Queued(q[1..])
  {
    if |q| > 1 {
      QueuedFront(q[..|q| - 1]);
      assert q[1..][..|q| - 2] == q[..|q| - 1][1..];
    } else {
      assert q == [q[0]] && q[..0] == [];
    }
  }

  lemma QueuedSnoc(q: seq<Task>, t: Task)
    ensures Queued(q + [t]) == Queued(q) + multiset{Identity(t)}
  {
    assert (q + [t])[..|q|] == q;
  }

  lemma LiveRequeued(s: State, rsp: nat)
    ensures Queued(Requeued(s, rsp)) == Live(s)
  {
    if s.current.Some? && !s.current.value.state.Dead? {
      QueuedSnoc(s.queue, s.current.value.(rsp := rsp, state := Ready));
    }
  }

  /** A tick keeps the live tasks, and drops a dead one. */
  lemma TickKeepsLive(s: State, rsp: nat)
    ensures Live(Step(s, Timer(rsp))) == Live(s)
    ensures Step(s, Timer(rsp)).current.Some? ==> !Step(s, Timer(rsp)).current.value.state.Dead?
  {
    hide Queued, Requeued;
    LiveRequeued(s, rsp);
    var q := Requeued(s, rsp);
    if q != [] {
      QueuedFront(q);
      assert Identity(q[0].(state := Running)) == Identity(q[0]);
    } else {
      assert q == [];
    }
  }

  lemma AddLive(s: State, e: Event)
    requires e.Add?
    ensures Live(Step(s, e)) == Live(s) + multiset{Task(s.nextId, e.kernelStackTop, 0, e.cr3, Ready, e.isUser)}
  {
    QueuedSnoc(s.queue, Task(s.nextId, e.kernelStackTop, e.rsp, e.cr3, Ready, e.isUser));
  }

  lemma ExitLive(s: State)
    ensures Live(s) == Live(Step(s, Exit)) +
      if s.current.Some? && !s.current.value.state.Dead? then multiset{Identity(s.current.value)} else multiset{}
  {
  }

  lemma BothGain(a: multiset<Task>, b: multiset<Task>, c: multiset<Task>, d: multiset<Task>, x: multiset<Task>)
    requires a + b == c + d
    ensures (a + x) + b == c + (d + x)
  {
    assert (a + x) + b == (a + b) + x;
    assert c + (d + x) == (c + d) + x;
  }

  lemma {:induction false} Conserved(s: State, es: seq<Event>)
    ensures Live(Run(s, es)) + Exited(s, es) == Live(s) + Created(s, es)
  {
    hide Live, Step, Identity;
    if es != [] {
      var n := |es| - 1;
      Conserved(s, es[..n]);
      var t := Run(s, es[..n]);
      match es[n] {
        case Timer(rsp) => TickKeepsLive(t, rsp);
        case Add(top, _, cr3, user) =>
          AddLive(t, es[n]);
          BothGain(Live(t), Exited(s, es[..n]), Live(s), Created(s, es[..n]), multiset{Task(t.nextId, top, 0, cr3,
                   Ready, user)});
        case Exit => ExitLive(t);
      }
    }
  }

  // ---- resuming ----

  /** For each task the stack pointer it was last interrupted at, or was created with. */
  ghost function Saved(s: State, es: seq<Event>): map<nat, nat>
    requires Sound(s)
  {
    if es == [] then map i | 0 <= i < |s.queue| :: s.queue[i].id := s.queue[i].rsp
    else Noted(Run(s, es[..|es| - 1]), Saved(s, es[..|es| - 1]), es[|es| - 1])
  }

  /** The record with event e noted: a tick interrupts the current task, a new task starts
      where it is told to. */
  function Noted(s: State, saved: map<nat, nat>, e: Event): map<nat, nat> {
    match e
    case Timer(rsp) => if s.current.Some? then saved[s.current.value.id := rsp] else saved
    case Add(_, rsp, _, _) => saved[s.nextId := rsp]
    case Exit => saved
  }

  ghost predicate WaitAt(q: seq<Task>, saved: map<nat, nat>) {
    forall i {:trigger q[i]} :: 0 <= i < |q| ==> q[i].id in saved && q[i].rsp == saved[q[i].id]
  }

  lemma NotedStep(s: State, saved: map<nat, nat>, e: Event)
    requires Sound(s) && WaitAt(s.queue, saved)
    ensures WaitAt(Step(s, e).queue, Noted(s, saved, e))
    ensures e.Timer? ==> WaitAt(Requeued(s, e.rsp), Noted(s, saved, e))
  {
  }

  lemma {:induction false} WaitingSaved(s: State, es: seq<Event>)
    requires Sound(s)
    ensures WaitAt(Run(s, es).queue, Saved(s, es))
  {
    if es != [] {
      var n := |es| - 1;
      WaitingSaved(s, es[..n]);
      RunSound(s, es[..n]);
      NotedStep(Run(s, es[..n]), Saved(s, es[..n]), es[n]);
    }
  }

  /** Every tick resumes the chosen task at the very stack pointer it was last interrupted
      at (or created with), under its own page tables. */
  lemma ResumedExactly(s: State, es: seq<Event>, rsp: nat)
    requires Sound(s)
    ensures var t := Run(s, es + [Timer(rsp)]);
      var sw := Resumes(Run(s, es), rsp);
      if t.current.Some? then
        && t.current.value.id in Saved(s, es + [Timer(rsp)])
        && sw == Switch(Saved(s, es + [Timer(rsp)])[t.current.value.id], t.current.value.cr3)
        && t.current.value.rsp == sw.rsp && t.cr3 == sw.cr3
      else sw == Switch(rsp, t.cr3) && t.queue == [] && t.cr3 == Run(s, es).cr3
  {
    var all := es + [Timer(rsp)];
    assert all[..|all| - 1] == es;
    var u := Run(s, es);
    RunSound(s, es);
    WaitingSaved(s, es);
    NotedStep(u, Saved(s, es), Timer(rsp));
  }

  // ---- what a task keeps ----

  /** For each task what it was given when it was created: page tables, kernel stack, mode. */
  ghost function Given(s: State, es: seq<Event>): map<nat, Task>
    requires Sound(s)
  {
    if es == [] then Known(s)
    else
      var id, before, e := Run(s, es[..|es| - 1]).nextId, Given(s, es[..|es| - 1]), es[|es| - 1];
      if e.Add? then before[id := Task(id, e.kernelStackTop, 0, e.cr3, Ready, e.isUser)] else before
  }

  /** The tasks there are. */
  ghost function Known(s: State): (r: map<nat, Task>)
    requires Sound(s)
  {
    var waiting := map i | 0 <= i < |s.queue| :: s.queue[i].id := Identity(s.queue[i]);
    if s.current.Some? then waiting[s.current.value.id := Identity(s.current.value)] else waiting
  }

  ghost predicate AsGiven(s: State, given: map<nat, Task>) {
    && (forall i {:trigger s.queue[i]} :: 0 <= i < |s.queue| ==>
          s.queue[i].id in given && given[s.queue[i].id] == Identity(s.queue[i]))
    && (s.current.Some? ==>
          s.current.value.id in given && given[s.current.value.id] == Identity(s.current.value))
  }

  lemma GivenStep(s: State, given: map<nat, Task>, e: Event)
    requires Sound(s) && AsGiven(s, given)
    ensures AsGiven(Step(s, e), if !e.Add? then given else
                      given[s.nextId := Task(s.nextId, e.kernelStackTop, 0, e.cr3, Ready, e.isUser)])
  {
  }

  lemma {:induction false} KeepsGiven(s: State, es: seq<Event>)
    requires Sound(s)
    ensures AsGiven(Run(s, es), Given(s, es))
  {
    if es != [] {
      var n := |es| - 1;
      KeepsGiven(s, es[..n]);
      RunSound(s, es[..n]);
      GivenStep(Run(s, es[..n]), Given(s, es[..n]), es[n]);
    }
  }

  /** Every tick resumes the chosen task under the page tables it was created with, and a
      user task with its own kernel stack for the next interrupt. */
  lemma ResumedAsCreated(s: State, es: seq<Event>, rsp: nat)
    requires Sound(s)
    ensures var t := Run(s, es + [Timer(rsp)]);
      t.current.Some? ==>
        var id := t.current.value.id;
        && id in Given(s, es)
        && Resumes(Run(s, es), rsp).cr3 == Given(s, es)[id].cr3
        && (Given(s, es)[id].isUser ==> t.rsp0 == Given(s, es)[id].kernelStackTop)
  {
    var all := es + [Timer(rsp)];
    assert all[..|all| - 1] == es;
    KeepsGiven(s, all);
    RunSound(s, all);
    ResumedExactly(s, es, rsp);
  }

  /** From boot on, the boot task is always resumed under the kernel's page tables. */
  lemma BootTaskTables(kernelCr3: nat, es: seq<Event>, rsp: nat)
    ensures var t := Run(Booted(kernelCr3), es + [Timer(rsp)]);
      t.current.Some? && t.current.value.id == 0 ==> Resumes(Run(Booted(kernelCr3), es), rsp).cr3 == kernelCr3
  {
    BootSound(kernelCr3);
    ResumedAsCreated(Booted(kernelCr3), es, rsp);
    FirstGiven(kernelCr3, es);
  }

  lemma {:induction false} FirstGiven(kernelCr3: nat, es: seq<Event>)
    requires Sound(Booted(kernelCr3))
    ensures 0 in Given(Booted(kernelCr3), es) && Given(Booted(kernelCr3), es)[0].cr3 == kernelCr3
    ensures Run(Booted(kernelCr3), es).nextId >= 1
  {
    if es != [] {
      FirstGiven(kernelCr3, es[..|es| - 1]);
    }
  }
}
