/** The runtime reference model: tasks, the resources they hold, and the final drain. */
module TaskMachine {

  datatype Status = New | Running | Waiting | Cancelled | Completed | Panicked

  predicate Terminal(s: Status) {
    s in {Cancelled, Completed, Panicked}
  }

  datatype Machine = Machine(tasks: map<nat, Status>, resources: map<nat, nat>)

  const EMPTY := Machine(map[], map[])

  datatype Step =
    | Spawn(id: nat)
    | Start(id: nat)
    | Wait(id: nat, held: nat)
    | Panic(id: nat)
    | Cancel(id: nat)
    | Complete(id: nat)

  predicate Is(m: Machine, id: nat, statuses: set<Status>) {
    id in m.tasks && m.tasks[id] in statuses
  }

  /** A step that is not possible fails and changes nothing. */
  predicate Possible(m: Machine, step: Step) {
    match step
    case Spawn(id) => id !in m.tasks
    case Start(id) => Is(m, id, {New, Cancelled})
    case Wait(id, _) => Is(m, id, {Running})
    case Panic(id) => Is(m, id, {Running})
    case Cancel(id) => id in m.tasks
    case Complete(id) => Is(m, id, {Running, Waiting})
  }

  function Put(m: Machine, id: nat, status: Status, held: nat): Machine {
    Machine(m.tasks[id := status], m.resources[id := held])
  }

  function Next(m: Machine, step: Step): Machine {
    if !Possible(m, step) then m
    else match step
      case Spawn(id) => Put(m, id, New, 0)
      case Start(id) => if m.tasks[id] == Cancelled then m else m.(tasks := m.tasks[id := Running])
      case Wait(id, held) => Put(m, id, Waiting, held)
      case Panic(id) => m.(tasks := m.tasks[id := Panicked])
      case Cancel(id) => if Terminal(m.tasks[id]) then m else Put(m, id, Cancelled, 0)
      case Complete(id) => Put(m, id, Completed, 0)
  }

  function Run(m: Machine, steps: seq<Step>): Machine
    decreases steps
  {
    if steps == [] then m else Run(Next(m, steps[0]), steps[1..])
  }

  /** Every task has a resource count, and only waiting tasks hold anything. */
  ghost predicate Inv(m: Machine) {
    && m.resources.Keys == m.tasks.Keys
    && forall id | id in m.resources && m.resources[id] != 0 :: m.tasks[id] == Waiting
  }

  /** Over every run, resources are only held by waiting tasks. */
  lemma {:induction false} RunKeepsInv(m: Machine, steps: seq<Step>)
    requires Inv(m)
    ensures Inv(Run(m, steps))
    decreases steps
  {
    if steps != [] {
      StepKeepsInv(m, steps[0]);
      RunKeepsInv(Next(m, steps[0]), steps[1..]);
    }
  }

  lemma StepKeepsInv(m: Machine, step: Step)
    requires Inv(m)
    ensures Inv(Next(m, step))
  {
  }

  // ----- the life of a task

  /** The diagram: with which step a task moves from one status to which other. */
  predicate Edge(s: Status, step: Step, t: Status) {
    match step
    case Spawn(_) => false
    case Start(_) => s == New && t == Running
    case Wait(_, _) => s == Running && t == Waiting
    case Panic(_) => s == Running && t == Panicked
    case Complete(_) => s in {Running, Waiting} && t == Completed
    case Cancel(_) => s in {New, Running, Waiting} && t == Cancelled
  }

  /** A step moves its own task along the diagram, or nothing where the diagram has no edge; a task that
      has moved holds what it waits with and nothing else. */
  lemma StepFollowsDiagram(m: Machine, step: Step)
    requires Inv(m) && step.id in m.tasks
    ensures var n := Next(m, step);
            && n.tasks.Keys == m.tasks.Keys == n.resources.Keys
            && (n == m || Edge(m.tasks[step.id], step, n.tasks[step.id]))
            && (forall t | Edge(m.tasks[step.id], step, t) :: n.tasks[step.id] == t)
            && (n != m ==> n.resources[step.id] == if step.Wait? then step.held else 0)
            && forall id | id in m.tasks && id != step.id ::
                 n.tasks[id] == m.tasks[id] && n.resources[id] == m.resources[id]
  {
    var s := m.tasks[step.id];
    assert s.New? || s.Running? || s.Waiting? || Terminal(s);
  }

  /** A step on a task that does not exist does nothing, except to bring it to life. */
  lemma SpawnFollowsDiagram(m: Machine, step: Step)
    requires Inv(m) && step.id !in m.tasks
    ensures Next(m, step) == if step.Spawn? then Machine(m.tasks[step.id := New], m.resources[step.id := 0]) else m
  {
  }

  /** How far a task has come. */
  function Progress(s: Status): nat {
    match s
    case New => 0
    case Running => 1
    case Waiting => 2
    case _ => 3
  }

  /** Over every run a task never disappears and never goes back. */
  lemma {:induction false} RunGoesForward(m: Machine, steps: seq<Step>, id: nat)
    requires Inv(m) && id in m.tasks
    ensures id in Run(m, steps).tasks && Progress(m.tasks[id]) <= Progress(Run(m, steps).tasks[id])
    ensures Progress(m.tasks[id]) == Progress(Run(m, steps).tasks[id]) ==> m.tasks[id] == Run(m, steps).tasks[id]
    decreases steps
  {
    if steps != [] {
      StepKeepsInv(m, steps[0]);
      RunGoesForward(Next(m, steps[0]), steps[1..], id);
    }
  }

  /** A finished task stays as it is, whatever happens next, and holds nothing. */
  lemma {:induction false} TerminalIsAbsorbing(m: Machine, steps: seq<Step>, id: nat)
    requires Inv(m) && id in m.tasks && Terminal(m.tasks[id])
    ensures id in Run(m, steps).tasks && Run(m, steps).tasks[id] == m.tasks[id]
    ensures id in Run(m, steps).resources && Run(m, steps).resources[id] == 0
    decreases steps
  {
    if steps != [] {
      StepKeepsInv(m, steps[0]);
      TerminalIsAbsorbing(Next(m, steps[0]), steps[1..], id);
    }
  }

  // ----- resources are conserved

  ghost function Total(resources: map<nat, nat>): nat {
    if resources.Keys == {} then 0
    else
      var id :| id in resources.Keys;
      resources[id] + Total(resources - {id})
  }

  lemma {:induction false} TotalWithout(resources: map<nat, nat>, id: nat)
    requires id in resources
    ensures Total(resources) == resources[id] + Total(resources - {id})
    decreases |resources|
  {
    var first :| first in resources.Keys && Total(resources) == resources[first] + Total(resources - {first});
    if first != id {
      TotalWithout(resources - {first}, id);
      TotalWithout(resources - {id}, first);
      assert (resources - {first}) - {id} == (resources - {id}) - {first};
    }
  }

  lemma TotalUpdate(resources: map<nat, nat>, id: nat, held: nat)
    ensures Total(resources[id := held])
              == Total(resources) + held - (if id in resources then resources[id] else 0)
  {
    var updated := resources[id := held];
    TotalWithout(updated, id);
    assert updated - {id} == resources - {id};
    if id in resources {
      TotalWithout(resources, id);
    } else {
      assert resources - {id} == resources;
    }
  }

  lemma {:induction false} TotalZero(resources: map<nat, nat>)
    ensures Total(resources) == 0 <==> forall id | id in resources :: resources[id] == 0
    decreases |resources|
  {
    if resources.Keys != {} {
      var id :| id in resources.Keys;
      TotalWithout(resources, id);
      TotalZero(resources - {id});
    }
  }

  /** What a step takes: only a wait acquires. */
  function Acquired(m: Machine, step: Step): nat {
    if step.Wait? && Possible(m, step) then step.held else 0
  }

  /** What a step gives back: a cancelled or completed task releases all it holds. */
  function Released(m: Machine, step: Step): nat {
    if Possible(m, step) && (step.Complete? || (step.Cancel? && !Terminal(m.tasks[step.id]))) && step.id in m.resources
    then m.resources[step.id] else 0
  }

  function AllAcquired(m: Machine, steps: seq<Step>): nat
    decreases steps
  {
    if steps == [] then 0 else Acquired(m, steps[0]) + AllAcquired(Next(m, steps[0]), steps[1..])
  }

  function AllReleased(m: Machine, steps: seq<Step>): nat
    decreases steps
  {
    if steps == [] then 0 else Released(m, steps[0]) + AllReleased(Next(m, steps[0]), steps[1..])
  }

  lemma StepConserves(m: Machine, step: Step)
    requires Inv(m)
    ensures Total(m.resources) + Acquired(m, step) == Total(Next(m, step).resources) + Released(m, step)
  {
    match step
    case Spawn(id) => TotalUpdate(m.resources, id, 0);
    case Wait(id, held) => TotalUpdate(m.resources, id, held);
    case Cancel(id) => TotalUpdate(m.resources, id, 0);
    case Complete(id) => TotalUpdate(m.resources, id, 0);
    case _ =>
  }

  /** Over every run, what was held plus what was acquired is what is held plus what was released. */
  lemma {:induction false} RunConserves(m: Machine, steps: seq<Step>)
    requires Inv(m)
    ensures Total(m.resources) + AllAcquired(m, steps) == Total(Run(m, steps).resources) + AllReleased(m, steps)
    decreases steps
  {
    if steps != [] {
      StepConserves(m, steps[0]);
      StepKeepsInv(m, steps[0]);
      RunConserves(Next(m, steps[0]), steps[1..]);
    }
  }

  // ----- the model as the object it is

  class Model {
    var tasks: map<nat, Status>
    var resources: map<nat, nat>

    constructor ()
      ensures State() == EMPTY
    {
      tasks, resources := map[], map[];
    }

    function State(): Machine
      reads this
    {
      Machine(tasks, resources)
    }

    /** Each operation reports whether it was possible; Start also reports whether the task runs. */
    method Spawn(id: nat) returns (ok: bool)
      modifies this
      ensures State() == Next(old(State()), Step.Spawn(id)) && (ok <==> Possible(old(State()), Step.Spawn(id)))
    {
      if id in tasks {
        return false;
      }
      tasks, resources := tasks[id := New], resources[id := 0];
      return true;
    }

    method Start(id: nat) returns (ok: bool, running: bool)
      modifies this
      ensures State() == Next(old(State()), Step.Start(id)) && (ok <==> Possible(old(State()), Step.Start(id)))
      ensures running <==> ok && old(State()).tasks[id] == New
    {
      if id in tasks && tasks[id] == Cancelled {
        return true, false;
      }
      if id !in tasks || tasks[id] != New {
        return false, false;
      }
      tasks := tasks[id := Running];
      return true, true;
    }

    method Cancel(id: nat) returns (ok: bool)
      modifies this
      ensures State() == Next(old(State()), Step.Cancel(id)) && (ok <==> Possible(old(State()), Step.Cancel(id)))
    {
      if id !in tasks {
        return false;
      }
      if tasks[id] !in {Cancelled, Completed, Panicked} {
        resources := resources[id := 0];
        tasks := tasks[id := Cancelled];
      }
      return true;
    }

    method Complete(id: nat) returns (ok: bool)
      modifies this
      ensures State() == Next(old(State()), Step.Complete(id)) && (ok <==> Possible(old(State()), Step.Complete(id)))
    {
      if id !in tasks || tasks[id] !in {Running, Waiting} {
        return false;
      }
      tasks, resources := tasks[id := Completed], resources[id := 0];
      return true;
    }

    /** A running task blocks, holding resources. */
    method Wait(id: nat, held: nat)
      requires id in tasks && tasks[id] == Running
      modifies this
      ensures State() == Next(old(State()), Step.Wait(id, held))
    {
      tasks, resources := tasks[id := Waiting], resources[id := held];
    }

    method Panic(id: nat)
      requires id in tasks && tasks[id] == Running
      modifies this
      ensures State() == Next(old(State()), Step.Panic(id))
    {
      tasks := tasks[id := Panicked];
    }

    /** Cancels every task that has not finished. Nothing is held afterwards, every task is
        finished, and the tasks that had already finished are as they were. */
    method Drain()
      requires Inv(State())
      modifies this
      ensures Inv(State()) && tasks.Keys == old(tasks.Keys)
      ensures forall id | id in tasks :: Terminal(tasks[id])
      ensures forall id | id in tasks ::
                tasks[id] == if Terminal(old(tasks)[id]) then old(tasks)[id] else Cancelled
      ensures Total(resources) == 0
    {
      var pending := tasks.Keys;
      while pending != {}
        invariant pending <= tasks.Keys == old(tasks.Keys) && Inv(State())
        invariant forall id | id in pending :: tasks[id] == old(tasks)[id]
        invariant forall id | id in tasks && id !in pending ::
                    tasks[id] == if Terminal(old(tasks)[id]) then old(tasks)[id] else Cancelled
      {
        var id :| id in pending;
        if tasks[id] !in {Cancelled, Completed, Panicked} {
          var _ := Cancel(id);
        }
        pending := pending - {id};
      }
      TotalZero(resources);
    }
  }
}
