/**
 * The goal scheduler of oagi_goals.py: id allocation, attribute updates,
 * dependency-gated selection by priority, and the progress/status machine.
 * Persistence and console output are left out; the wall-clock timestamp is
 * a parameter `now`. Python floats are modelled as reals.
 */
module Goals {
  import opened Wrappers

  /** The `GoalPriority` enum; only its member names reach a goal. */
  datatype GoalPriority = Critical | High | Medium | Low

  function PriorityName(p: GoalPriority): string
  {
    match p
    case Critical => "CRITICAL"
    case High => "HIGH"
    case Medium => "MEDIUM"
    case Low => "LOW"
  }

  /** The `priority` argument of `add_goal`: an enum member or a plain value. */
  datatype PriorityArg = Member(p: GoalPriority) | Plain(name: string)

  const Planned := "planned"
  const InProgress := "in_progress"
  const Completed := "completed"

  datatype Goal = Goal(
    id: int,
    title: string,
    description: string,
    priority: string,
    status: string,
    created: string,
    updated: string,
    parentGoalId: Option<int>,
    dependencies: seq<int>,
    progress: real,
    steps: seq<string>,
    reasoning: string)

  /** `Goal.__post_init__`: missing dependencies and steps become empty lists. */
  function NewGoal(id: int, title: string, description: string, priority: string, status: string,
                   created: string, updated: string, parentGoalId: Option<int>,
                   dependencies: Option<seq<int>>, progress: real, steps: Option<seq<string>>,
                   reasoning: string): (g: Goal)
    ensures dependencies.None? ==> g.dependencies == []
    ensures dependencies.Some? ==> g.dependencies == dependencies.value
    ensures steps.None? ==> g.steps == []
    ensures steps.Some? ==> g.steps == steps.value
    ensures g.id == id && g.priority == priority && g.status == status && g.progress == progress
  {
    Goal(id, title, description, priority, status, created, updated, parentGoalId,
         dependencies.GetOr([]), progress, steps.GetOr([]), reasoning)
  }

  datatype GoalSystem = GoalSystem(goals: seq<Goal>, nextId: int)

  /** Every goal id lies below the next id to be allocated, and no two goals share an id. */
  predicate WellNumbered(sys: GoalSystem)
  {
    (forall k :: 0 <= k < |sys.goals| ==> sys.goals[k].id < sys.nextId) &&
    (forall p, q :: 0 <= p < q < |sys.goals| ==> sys.goals[p].id != sys.goals[q].id)
  }

  /** `add_goal`: a planned goal with id `next_id`, appended; `next_id` moves on by one. */
  function AddGoal(sys: GoalSystem, title: string, description: string, priority: PriorityArg,
                   steps: Option<seq<string>>, dependencies: Option<seq<int>>, reasoning: string,
                   parentGoalId: Option<int>, now: string): (r: (GoalSystem, Goal))
    ensures r.0.goals == sys.goals + [r.1]
    ensures r.0.nextId == sys.nextId + 1
    ensures r.1.id == sys.nextId && r.1.status == Planned && r.1.progress == 0.0
    ensures priority.Member? ==> r.1.priority == PriorityName(priority.p)
    ensures priority.Plain? ==> r.1.priority == priority.name
    ensures r.1.dependencies == dependencies.GetOr([]) && r.1.steps == steps.GetOr([])
  {
    var name := match priority
      case Member(p) => PriorityName(p)
      case Plain(s) => s;
    var g := NewGoal(sys.nextId, title, description, name, Planned, now, now, parentGoalId,
                     Some(dependencies.GetOr([])), 0.0, Some(steps.GetOr([])), reasoning);
    (GoalSystem(sys.goals + [g], sys.nextId + 1), g)
  }

  /** Adding a goal keeps the ids unique and below `next_id`. */
  lemma AddGoalKeepsNumbering(sys: GoalSystem, title: string, description: string, priority: PriorityArg,
                              steps: Option<seq<string>>, dependencies: Option<seq<int>>, reasoning: string,
                              parentGoalId: Option<int>, now: string)
    requires WellNumbered(sys)
    ensures WellNumbered(AddGoal(sys, title, description, priority, steps, dependencies, reasoning, parentGoalId, now).0)
  {
  }

  /** Adding goals one after another hands out consecutive, strictly increasing ids. */
  lemma AddTwiceIncreasing(sys: GoalSystem, t1: string, t2: string, d: string, p: PriorityArg, now: string)
    ensures var (s1, g1) := AddGoal(sys, t1, d, p, None, None, "", None, now);
      var (s2, g2) := AddGoal(s1, t2, d, p, None, None, "", None, now);
      g1.id < g2.id && g2.id == g1.id + 1 && s2.goals == sys.goals + [g1, g2]
  {
  }

  /** The index of the first goal with this id. */
  function FindGoal(goals: seq<Goal>, id: int): (r: Option<nat>)
    ensures r.None? <==> forall k :: 0 <= k < |goals| ==> goals[k].id != id
    ensures r.Some? ==> r.value < |goals| && goals[r.value].id == id
    ensures r.Some? ==> forall k :: 0 <= k < r.value ==> goals[k].id != id
  {
    if |goals| == 0 then None
    else if goals[0].id == id then Some(0)
    else
      match FindGoal(goals[1..], id)
      case None => None
      case Some(k) => Some(k + 1)
  }

  /** goals[k] is the first goal carrying this id. */
  predicate FirstWithId(goals: seq<Goal>, k: nat, id: int)
    requires k < |goals|
  {
    goals[k].id == id && forall j :: 0 <= j < k ==> goals[j].id != id
  }

  /** One keyword argument of `update_goal`; `Unknown` names an attribute a goal lacks. */
  datatype Field =
    | SetId(id: int)
    | SetTitle(title: string)
    | SetDescription(description: string)
    | SetPriority(priority: string)
    | SetStatus(status: string)
    | SetCreated(created: string)
    | SetUpdated(updated: string)
    | SetParent(parentGoalId: Option<int>)
    | SetDependencies(dependencies: seq<int>)
    | SetProgress(progress: real)
    | SetSteps(steps: seq<string>)
    | SetReasoning(reasoning: string)
    | Unknown(name: string)

  function ApplyField(g: Goal, f: Field): (r: Goal)
    ensures f.Unknown? ==> r == g
    ensures !f.SetStatus? ==> r.status == g.status
    ensures !f.SetId? ==> r.id == g.id
  {
    match f
    case SetId(v) => g.(id := v)
    case SetTitle(v) => g.(title := v)
    case SetDescription(v) => g.(description := v)
    case SetPriority(v) => g.(priority := v)
    case SetStatus(v) => g.(status := v)
    case SetCreated(v) => g.(created := v)
    case SetUpdated(v) => g.(updated := v)
    case SetParent(v) => g.(parentGoalId := v)
    case SetDependencies(v) => g.(dependencies := v)
    case SetProgress(v) => g.(progress := v)
    case SetSteps(v) => g.(steps := v)
    case SetReasoning(v) => g.(reasoning := v)
    case Unknown(_) => g
  }

  /** Apply the keyword arguments in order, then stamp the update time. */
  function ApplyFields(g: Goal, fs: seq<Field>, now: string): (r: Goal)
    ensures r.updated == now
    ensures (forall k :: 0 <= k < |fs| ==> !fs[k].SetId?) ==> r.id == g.id
    ensures (forall k :: 0 <= k < |fs| ==> fs[k].Unknown?) ==> r == g.(updated := now)
    decreases |fs|
  {
    if |fs| == 0 then g.(updated := now)
    else ApplyFields(ApplyField(g, fs[0]), fs[1..], now)
  }

  /** `update_goal`: None and no change for an unknown id; otherwise only the first match changes. */
  function UpdateGoal(sys: GoalSystem, id: int, fs: seq<Field>, now: string): (r: (GoalSystem, Option<Goal>))
    ensures r.1.None? <==> forall k :: 0 <= k < |sys.goals| ==> sys.goals[k].id != id
    ensures r.1.None? ==> r.0 == sys
    ensures r.0.nextId == sys.nextId && |r.0.goals| == |sys.goals|
    ensures r.1.Some? ==>
      (exists k :: 0 <= k < |sys.goals| && FirstWithId(sys.goals, k, id) && r.0.goals == sys.goals[k := r.1.value])
  {
    match FindGoal(sys.goals, id)
    case None => (sys, None)
    case Some(k) =>
      assert FirstWithId(sys.goals, k, id);
      var g := ApplyFields(sys.goals[k], fs, now);
      (sys.(goals := sys.goals[k := g]), Some(g))
  }

  /** An update that does not touch ids keeps the numbering invariant. */
  lemma UpdateKeepsNumbering(sys: GoalSystem, id: int, fs: seq<Field>, now: string)
    requires WellNumbered(sys)
    requires forall k :: 0 <= k < |fs| ==> !fs[k].SetId?
    ensures WellNumbered(UpdateGoal(sys, id, fs, now).0)
  {
    match FindGoal(sys.goals, id)
    case None =>
    case Some(k) =>
      var g := ApplyFields(sys.goals[k], fs, now);
      assert g.id == sys.goals[k].id;
  }

  /** Some goal carries this id and is completed. */
  predicate CompletedId(goals: seq<Goal>, id: int)
  {
    exists k :: 0 <= k < |goals| && goals[k].id == id && goals[k].status == Completed
  }

  /** Planned or in progress, with every dependency naming a completed goal. */
  predicate Ready(goals: seq<Goal>, g: Goal)
  {
    (g.status == Planned || g.status == InProgress) &&
    forall d :: d in g.dependencies ==> CompletedId(goals, d)
  }

  /** The sort key: CRITICAL 0, HIGH 1, MEDIUM 2, LOW 3, anything else 99. */
  function Rank(priority: string): nat
  {
    if priority == "CRITICAL" then 0
    else if priority == "HIGH" then 1
    else if priority == "MEDIUM" then 2
    else if priority == "LOW" then 3
    else 99
  }

  /** The best ready goal seen so far among goals[..i]: lowest rank, earliest on ties. */
  predicate BestSoFar(goals: seq<Goal>, i: nat, best: Option<nat>)
    requires i <= |goals|
  {
    (best.None? ==> forall k :: 0 <= k < i ==> !Ready(goals, goals[k])) &&
    (best.Some? ==> best.value < i && Ready(goals, goals[best.value])) &&
    (best.Some? ==> forall k :: 0 <= k < i && Ready(goals, goals[k]) ==>
      Rank(goals[best.value].priority) <= Rank(goals[k].priority)) &&
    (best.Some? ==> forall k :: 0 <= k < best.value && best.value < i && Ready(goals, goals[k]) ==>
      Rank(goals[best.value].priority) < Rank(goals[k].priority))
  }

  function Pick(goals: seq<Goal>, i: nat, best: Option<nat>): (r: Option<nat>)
    requires i <= |goals|
    requires BestSoFar(goals, i, best)
    ensures BestSoFar(goals, |goals|, r)
    decreases |goals| - i
  {
    if i == |goals| then best
    else
      var take := Ready(goals, goals[i]) &&
        (best.None? || Rank(goals[i].priority) < Rank(goals[best.value].priority));
      Pick(goals, i + 1, if take then Some(i) else best)
  }

  /**
   * `get_next_actionable_goal`, as an index: the first ready goal of minimal
   * rank, which is what a stable sort by rank puts first.
   */
  function NextActionable(goals: seq<Goal>): (r: Option<nat>)
    ensures r.None? <==> forall k :: 0 <= k < |goals| ==> !Ready(goals, goals[k])
    ensures r.Some? ==> r.value < |goals| && Ready(goals, goals[r.value])
    ensures r.Some? ==> forall k :: 0 <= k < |goals| && Ready(goals, goals[k]) ==>
      Rank(goals[r.value].priority) <= Rank(goals[k].priority)
    ensures r.Some? ==> forall k :: 0 <= k < r.value && Ready(goals, goals[k]) ==>
      Rank(goals[r.value].priority) < Rank(goals[k].priority)
  {
    Pick(goals, 0, None)
  }

  /** A goal depending on an id that no goal carries is never selected. */
  lemma MissingDependencyBlocks(goals: seq<Goal>, k: nat, d: int)
    requires k < |goals|
    requires d in goals[k].dependencies
    requires forall j :: 0 <= j < |goals| ==> goals[j].id != d
    ensures NextActionable(goals) != Some(k)
  {
    assert !CompletedId(goals, d);
  }

  /** One step of `work_on_goal` on a single goal. */
  function Work(g: Goal, now: string): (r: Goal)
    ensures r.progress <= 1.0
    ensures g.progress <= 1.0 ==> g.progress <= r.progress
    ensures r.progress == 1.0 <==> g.progress + 0.1 >= 1.0
    ensures r.progress >= 1.0 ==> r.status == Completed
    ensures r.progress < 1.0 && g.status == Planned ==> r.status == InProgress
    ensures r.progress < 1.0 && g.status != Planned ==> r.status == g.status
    ensures r.id == g.id && r.dependencies == g.dependencies && r.priority == g.priority
  {
    var g1 := if g.status == Planned then g.(status := InProgress, updated := now) else g;
    var p := if 1.0 < g.progress + 0.1 then 1.0 else g.progress + 0.1;
    var g2 := g1.(progress := p);
    if p >= 1.0 then g2.(status := Completed) else g2
  }

  /** `work_on_goal`: false and no change for an unknown id; otherwise the first match advances. */
  function WorkOnGoal(sys: GoalSystem, id: int, now: string): (r: (GoalSystem, bool))
    ensures !r.1 <==> forall k :: 0 <= k < |sys.goals| ==> sys.goals[k].id != id
    ensures !r.1 ==> r.0 == sys
    ensures r.0.nextId == sys.nextId && |r.0.goals| == |sys.goals|
    ensures r.1 ==>
      (exists k :: 0 <= k < |sys.goals| && FirstWithId(sys.goals, k, id) && r.0.goals == sys.goals[k := Work(sys.goals[k], now)])
  {
    match FindGoal(sys.goals, id)
    case None => (sys, false)
    case Some(k) => (sys.(goals := sys.goals[k := Work(sys.goals[k], now)]), true)
  }

  /** Working on goals keeps the numbering invariant. */
  lemma WorkKeepsNumbering(sys: GoalSystem, id: int, now: string)
    requires WellNumbered(sys)
    ensures WellNumbered(WorkOnGoal(sys, id, now).0)
  {
  }

  /**
   * Repeated work never lowers progress from within [0, 1] and never leaves
   * it; once the steps exceed what is missing by a whole step, progress is
   * 1.0 and the goal completed. The spare step covers the rounding of the
   * float sum, which after ten steps from 0.0 is still below 1.0.
   */
  lemma {:induction false} WorkRepeated(g: Goal, n: nat, now: string)
    requires 0.0 <= g.progress <= 1.0
    ensures 0.0 <= WorkN(g, n, now).progress <= 1.0
    ensures g.progress <= WorkN(g, n, now).progress
    ensures n > 0 && WorkN(g, n, now).progress >= 1.0 ==> WorkN(g, n, now).status == Completed
    ensures n > 0 && g.progress + 0.1 * (n as real) >= 1.1 ==>
      WorkN(g, n, now).progress == 1.0 && WorkN(g, n, now).status == Completed
    decreases n
  {
    if n > 0 {
      WorkRepeated(Work(g, now), n - 1, now);
      if n - 1 > 0 {
        assert Work(g, now).progress + 0.1 * ((n - 1) as real) >= g.progress + 0.1 * (n as real)
          || Work(g, now).progress == 1.0;
      }
    }
  }

  /** n calls of `work_on_goal` on one goal. */
  function WorkN(g: Goal, n: nat, now: string): Goal
    decreases n
  {
    if n == 0 then g else WorkN(Work(g, now), n - 1, now)
  }
}
