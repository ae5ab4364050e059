/**
 * The three task effects with the stream plumbing removed: each is a plain
 * function from an incoming action and the snapshot it is combined with to
 * the list of actions it emits.
 */
module TaskInternalEffects {
  import opened Wrappers
  import opened TaskTree
  import opened NextTask

  /** The changed fields an `UpdateTask` carries; a field left out is `None`. */
  datatype TaskChanges = TaskChanges(isDone: Option<bool>, timeSpentOnDay: Option<map<string, int>>)

  /**
   * The task actions the effects listen to or emit. `OtherAction` stands for
   * every action type none of them listens to.
   */
  datatype Action =
    | ToggleStart
    | UpdateTask(taskId: Id, changes: TaskChanges)
    | DeleteTask(taskId: Id)
    | MoveToBacklog(taskId: Id)
    | MoveToArchive(taskIds: seq<Id>)
    | MoveToOtherProject(taskId: Id, targetProjectId: string)
    | Move(taskId: Id, targetModelId: string)
    | RoundTimeSpentForDay(day: string, roundTo: int, isRoundUp: bool)
    | SetCurrentTask(nextId: Option<Id>)
    | OtherAction(actionType: string)

  /** The one setting of the misc configuration these effects read. */
  datatype MiscConfig = MiscConfig(isAutMarkParentAsDone: bool)

  /** The list id a `Move` names when its target is the backlog. */
  const BacklogModelId := "BACKLOG"

  /** The string `autoSetNextTask$` stores in `nextId` to mean "emit nothing". */
  const NoUpdateSentinel: Id := "NO_UPDATE"

  /** An optional boolean field is truthy. */
  predicate IsTrue(b: Option<bool>) {
    b == Some(true)
  }

  // ---------------------------------------------------------------------
  // autoSetNextTask$
  // ---------------------------------------------------------------------

  /** What the `switch` of `autoSetNextTask$` decides: emit nothing, or set this task (or none) as current. */
  datatype Decision = NoUpdate | SetNext(next: Option<Id>)

  /**
   * The `switch` of `autoSetNextTask$`. `MoveToArchive` and
   * `MoveToOtherProject` pass the stream filter but have no `case`, so
   * `nextId` keeps its initial `undefined`, and `SetCurrentTask(undefined)`
   * is emitted.
   */
  function Decide(a: Action, s: TaskState): (d: Decision)
    requires Valid(s)
    ensures a.ToggleStart? ==> d.SetNext?
    ensures a.ToggleStart? && s.currentTaskId.Some? ==> d.next.None?
    ensures a.ToggleStart? && s.currentTaskId.None? ==> d.next == FindNextTask(s, None)
    ensures a.UpdateTask? ==> (d.SetNext? <==> IsTrue(a.changes.isDone) && s.currentTaskId == Some(a.taskId))
    ensures a.UpdateTask? && d.SetNext? ==> d.next == FindNextTask(s, Some(a.taskId))
    ensures a.MoveToBacklog? ==> (d.SetNext? <==> s.currentTaskId == Some(a.taskId))
    ensures a.Move? ==> (d.SetNext? <==> s.currentTaskId == Some(a.taskId) && a.targetModelId == BacklogModelId)
    ensures (a.MoveToBacklog? || a.Move?) && d.SetNext? ==> d.next.None?
    ensures a.DeleteTask? ==> d == SetNext(s.currentTaskId)
    ensures a.MoveToArchive? || a.MoveToOtherProject? ==> d == SetNext(None)
    ensures a.RoundTimeSpentForDay? || a.SetCurrentTask? || a.OtherAction? ==> d == NoUpdate
  {
    match a
    case ToggleStart =>
      SetNext(if s.currentTaskId.Some? then None else FindNextTask(s, None))
    case UpdateTask(id, changes) =>
      if IsTrue(changes.isDone) && s.currentTaskId == Some(id)
      then SetNext(FindNextTask(s, Some(id)))
      else NoUpdate
    case MoveToBacklog(id) =>
      if s.currentTaskId == Some(id) then SetNext(None) else NoUpdate
    case Move(id, target) =>
      if s.currentTaskId == Some(id) && target == BacklogModelId then SetNext(None) else NoUpdate
    case DeleteTask(_) =>
      SetNext(s.currentTaskId)
    case MoveToArchive(_) =>
      SetNext(None)
    case MoveToOtherProject(_, _) =>
      SetNext(None)
    case _ =>
      NoUpdate
  }

  /** `id` may be the active task: none, or an existing undone leaf. */
  predicate ActiveSelectable(s: TaskState, id: Option<Id>) {
    id.None? || (IsLeaf(s, id.value) && !s.entities[id.value].isDone)
  }

  /**
   * The switch never proposes a done task or a task with subtasks as the
   * active one, and never re-proposes the task just completed. Deletion
   * re-emits the current id unchanged, so there the guarantee is only as
   * good as the snapshot's.
   */
  lemma DecisionKeepsActiveSelectable(a: Action, s: TaskState)
    requires Valid(s) && TwoLevel(s)
    ensures !a.DeleteTask? && Decide(a, s).SetNext? ==> ActiveSelectable(s, Decide(a, s).next)
    ensures a.DeleteTask? && ActiveSelectable(s, s.currentTaskId) ==> ActiveSelectable(s, Decide(a, s).next)
    ensures a.UpdateTask? && Decide(a, s).SetNext? ==> Decide(a, s).next != Some(a.taskId)
  {
  }

  /**
   * `autoSetNextTask$` as written: `NO_UPDATE` is encoded as a string in
   * the same variable as the next id, and compared by value, so a chosen
   * task whose id is that string is silently dropped.
   */
  function AutoSetNextTask(a: Action, s: TaskState): (out: seq<Action>)
    requires Valid(s)
    ensures |out| <= 1
    ensures out == [] <==> Decide(a, s).NoUpdate? || Decide(a, s).next == Some(NoUpdateSentinel)
    ensures out != [] ==> out == [SetCurrentTask(Decide(a, s).next)]
  {
    match Decide(a, s)
    case NoUpdate => []
    case SetNext(next) => if next == Some(NoUpdateSentinel) then [] else [SetCurrentTask(next)]
  }

  /** `autoSetNextTask$` with "emit nothing" kept apart from every id. */
  function AutoSetNextTaskTagged(a: Action, s: TaskState): (out: seq<Action>)
    requires Valid(s)
    ensures out == [] <==> Decide(a, s).NoUpdate?
    ensures out != [] ==> out == [SetCurrentTask(Decide(a, s).next)]
  {
    match Decide(a, s)
    case NoUpdate => []
    case SetNext(next) => [SetCurrentTask(next)]
  }

  /** The two agree unless the chosen id is the sentinel string. */
  lemma TaggedAgreesOffSentinel(a: Action, s: TaskState)
    requires Valid(s)
    requires Decide(a, s).SetNext? ==> Decide(a, s).next != Some(NoUpdateSentinel)
    ensures AutoSetNextTask(a, s) == AutoSetNextTaskTagged(a, s)
  {
  }

  /**
   * A task whose id is `"NO_UPDATE"` is current and gets deleted: the switch
   * re-emits it, but the effect as written emits nothing.
   */
  lemma SentinelIdIsDropped()
    ensures var t := Task(NoUpdateSentinel, None, [], false, map[]);
      var s := TaskState(map[NoUpdateSentinel := t], [NoUpdateSentinel], Some(NoUpdateSentinel), None);
      && Valid(s)
      && Decide(DeleteTask(NoUpdateSentinel), s) == SetNext(Some(NoUpdateSentinel))
      && AutoSetNextTask(DeleteTask(NoUpdateSentinel), s) == []
      && AutoSetNextTaskTagged(DeleteTask(NoUpdateSentinel), s) == [SetCurrentTask(Some(NoUpdateSentinel))]
  {
  }

  // ---------------------------------------------------------------------
  // onAllSubTasksDone$
  // ---------------------------------------------------------------------

  /** The configuration is present and asks for parents to be marked done. */
  predicate AutoMarkParentEnabled(cfg: Option<MiscConfig>) {
    cfg.Some? && cfg.value.isAutMarkParentAsDone
  }

  /** `ids.filter(id => !entities[id].isDone)`. */
  function UndoneIds(s: TaskState, ids: seq<Id>): (r: seq<Id>)
    requires AllKnown(s, ids)
    ensures forall x :: x in r ==> x in ids && !s.entities[x].isDone
    ensures forall x :: x in ids && !s.entities[x].isDone ==> x in r
    ensures |r| == 0 <==> forall x :: x in ids ==> s.entities[x].isDone
  {
    if |ids| == 0 then []
    else (if s.entities[ids[0]].isDone then [] else [ids[0]]) + UndoneIds(s, ids[1..])
  }

  /**
   * `onAllSubTasksDone$`: an update marking a subtask done, with the setting
   * on, marks the parent done once every subtask of the parent is done. The
   * updated task is looked up only once the setting and the done flag have
   * passed, so only then must it exist.
   */
  function OnAllSubTasksDone(a: Action, cfg: Option<MiscConfig>, s: TaskState): (out: seq<Action>)
    requires Valid(s)
    requires a.UpdateTask? && AutoMarkParentEnabled(cfg) && IsTrue(a.changes.isDone) ==> a.taskId in s.entities
    ensures |out| <= 1
    ensures out != [] <==>
      && a.UpdateTask? && AutoMarkParentEnabled(cfg) && IsTrue(a.changes.isDone)
      && s.entities[a.taskId].parentId.Some?
      && forall c :: c in s.entities[s.entities[a.taskId].parentId.value].subTaskIds ==> s.entities[c].isDone
    ensures out != [] ==>
      out == [UpdateTask(s.entities[a.taskId].parentId.value, TaskChanges(Some(true), None))]
  {
    match a
    case UpdateTask(id, changes) =>
      if AutoMarkParentEnabled(cfg) && IsTrue(changes.isDone) && s.entities[id].parentId.Some? then
        var parentId := s.entities[id].parentId.value;
        if |UndoneIds(s, s.entities[parentId].subTaskIds)| == 0
        then [UpdateTask(parentId, TaskChanges(Some(true), None))]
        else []
      else []
    case _ => []
  }

  // ---------------------------------------------------------------------
  // roundTimesSpentForDay$
  // ---------------------------------------------------------------------

  /** `timeSpentOnDay[day]` is truthy: recorded and non-zero. */
  predicate HasTimeOn(t: Task, day: string) {
    day in t.timeSpentOnDay && t.timeSpentOnDay[day] != 0
  }

  /** A task the batch rounds: no subtasks and time recorded on `day`. */
  predicate IsRoundable(t: Task, day: string) {
    |t.subTaskIds| == 0 && HasTimeOn(t, day)
  }

  /**
   * `u` is the update that rounds task `t` on `day`: it targets `t`, changes
   * only the day map, writes the rounded value under `day` and keeps every
   * other day as it was.
   */
  predicate RoundsDay(u: Action, t: Task, day: string, roundTo: int, isRoundUp: bool, round: (int, int, bool) -> int)
    requires day in t.timeSpentOnDay
  {
    && u.UpdateTask? && u.taskId == t.id
    && u.changes.isDone.None? && u.changes.timeSpentOnDay.Some?
    && var m := u.changes.timeSpentOnDay.value;
      && m.Keys == t.timeSpentOnDay.Keys
      && m[day] == round(t.timeSpentOnDay[day], roundTo, isRoundUp)
      && forall d :: d in t.timeSpentOnDay && d != day ==> m[d] == t.timeSpentOnDay[d]
  }

  /** The update for one roundable task: `{...timeSpentOnDay, [day]: rounded}`. */
  function RoundTask(t: Task, day: string, roundTo: int, isRoundUp: bool, round: (int, int, bool) -> int): (u: Action)
    requires day in t.timeSpentOnDay
    ensures RoundsDay(u, t, day, roundTo, isRoundUp, round)
  {
    var rounded := round(t.timeSpentOnDay[day], roundTo, isRoundUp);
    UpdateTask(t.id, TaskChanges(None, Some(t.timeSpentOnDay[day := rounded])))
  }

  /** The `filter(...).map(...)` of the batch over the worked-on tasks, in their order. */
  function RoundedUpdates(tasks: seq<Task>, day: string, roundTo: int, isRoundUp: bool, round: (int, int, bool) -> int): (out: seq<Action>)
    ensures |out| <= |tasks|
  {
    if |tasks| == 0 then []
    else
      var rest := RoundedUpdates(tasks[1..], day, roundTo, isRoundUp, round);
      if IsRoundable(tasks[0], day)
      then [RoundTask(tasks[0], day, roundTo, isRoundUp, round)] + rest
      else rest
  }

  /**
   * One update per roundable task and no other: every emitted update rounds
   * some roundable task of the list, and every roundable task is rounded by
   * some emitted update.
   */
  lemma {:induction false} RoundedUpdatesContents(tasks: seq<Task>, day: string, roundTo: int, isRoundUp: bool, round: (int, int, bool) -> int)
    ensures forall u :: u in RoundedUpdates(tasks, day, roundTo, isRoundUp, round) ==>
      exists t :: t in tasks && IsRoundable(t, day) && RoundsDay(u, t, day, roundTo, isRoundUp, round)
    ensures forall t :: t in tasks && IsRoundable(t, day) ==>
      exists u :: u in RoundedUpdates(tasks, day, roundTo, isRoundUp, round) && RoundsDay(u, t, day, roundTo, isRoundUp, round)
  {
    if |tasks| > 0 {
      RoundedUpdatesContents(tasks[1..], day, roundTo, isRoundUp, round);
      assert forall t :: t in tasks <==> t == tasks[0] || t in tasks[1..];
      var out := RoundedUpdates(tasks, day, roundTo, isRoundUp, round);
      var rest := RoundedUpdates(tasks[1..], day, roundTo, isRoundUp, round);
      if IsRoundable(tasks[0], day) {
        var u := RoundTask(tasks[0], day, roundTo, isRoundUp, round);
        assert out == [u] + rest && u in out;
      }
    }
  }

  /** The batch keeps the order of the tasks: it distributes over concatenation. */
  lemma {:induction false} RoundedUpdatesAppend(a: seq<Task>, b: seq<Task>, day: string, roundTo: int, isRoundUp: bool, round: (int, int, bool) -> int)
    ensures RoundedUpdates(a + b, day, roundTo, isRoundUp, round) ==
      RoundedUpdates(a, day, roundTo, isRoundUp, round) + RoundedUpdates(b, day, roundTo, isRoundUp, round)
    decreases |a|
  {
    if |a| > 0 {
      assert (a + b)[0] == a[0];
      assert (a + b)[1..] == a[1..] + b;
      RoundedUpdatesAppend(a[1..], b, day, roundTo, isRoundUp, round);
    } else {
      assert a + b == b;
    }
  }

  /**
   * A task that owns subtasks is never rounded, even with time on `day`,
   * provided no other task in the list shares its id.
   */
  lemma ParentsNeverRounded(tasks: seq<Task>, p: Task, day: string, roundTo: int, isRoundUp: bool, round: (int, int, bool) -> int)
    requires p in tasks && |p.subTaskIds| > 0
    requires forall t :: t in tasks && t.id == p.id ==> t == p
    ensures forall u :: u in RoundedUpdates(tasks, day, roundTo, isRoundUp, round) ==> u.UpdateTask? && u.taskId != p.id
  {
    RoundedUpdatesContents(tasks, day, roundTo, isRoundUp, round);
  }

  /**
   * `roundTimesSpentForDay$`: a `RoundTimeSpentForDay` with a truthy day and
   * a truthy unit rounds every eligible task of the worked-on list; anything
   * else emits nothing. `round` is the rounding utility, which is not part
   * of this model.
   */
  function RoundTimesSpentForDay(a: Action, tasks: seq<Task>, round: (int, int, bool) -> int): (out: seq<Action>)
    ensures !(a.RoundTimeSpentForDay? && a.day != "" && a.roundTo != 0) ==> out == []
    ensures a.RoundTimeSpentForDay? && a.day != "" && a.roundTo != 0 ==>
      out == RoundedUpdates(tasks, a.day, a.roundTo, a.isRoundUp, round)
  {
    match a
    case RoundTimeSpentForDay(day, roundTo, isRoundUp) =>
      if day != "" && roundTo != 0 then RoundedUpdates(tasks, day, roundTo, isRoundUp, round) else []
    case _ => []
  }
}
