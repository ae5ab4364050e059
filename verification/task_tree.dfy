/**
 * The task-state snapshot the task effects read, and the read-only queries
 * over it: a flat arena of tasks keyed by id, with parent/child links held
 * as ids.
 */
module TaskTree {
  import opened Wrappers

  /** Task ids are generated, non-empty strings, so every id is truthy. */
  type Id = s: string | |s| > 0 witness "t"

  datatype Task = Task(
    id: Id,
    parentId: Option<Id>,
    subTaskIds: seq<Id>,
    isDone: bool,
    timeSpentOnDay: map<string, int>)

  datatype TaskState = TaskState(
    entities: map<Id, Task>,
    todaysTaskIds: seq<Id>,
    currentTaskId: Option<Id>,
    lastCurrentTaskId: Option<Id>)

  /** Every id of `ids` names a task of the snapshot. */
  predicate AllKnown(s: TaskState, ids: seq<Id>) {
    forall id :: id in ids ==> id in s.entities
  }

  /**
   * Referential integrity the store maintains: today's ids, subtask ids and
   * parent ids all name existing tasks. The effects look these up without a
   * guard, so a dangling id would make them throw.
   */
  predicate Valid(s: TaskState) {
    && AllKnown(s, s.todaysTaskIds)
    && (forall id {:trigger s.entities[id]} :: id in s.entities ==> AllKnown(s, s.entities[id].subTaskIds))
    && (forall id {:trigger s.entities[id]} :: id in s.entities && s.entities[id].parentId.Some? ==>
          s.entities[id].parentId.value in s.entities)
  }

  /** An existing task without subtasks: the only kind that may be active. */
  predicate IsLeaf(s: TaskState, id: Id) {
    id in s.entities && |s.entities[id].subTaskIds| == 0
  }

  /** Tree depth at most two: a subtask never owns subtasks of its own. */
  predicate TwoLevel(s: TaskState) {
    forall p, c :: p in s.entities && c in s.entities[p].subTaskIds ==> IsLeaf(s, c)
  }

  /** What one entry of a task list contributes to the selectable sequence. */
  function Expand(s: TaskState, id: Id): (r: seq<Id>)
    requires Valid(s) && id in s.entities
    ensures AllKnown(s, r)
    ensures |r| > 0
  {
    var subs := s.entities[id].subTaskIds;
    if |subs| > 0 then subs else [id]
  }

  /**
   * `flattenToSelectable`: a left fold over `ids` that appends, for each id,
   * its subtask ids when it has any and the id itself otherwise.
   */
  function FlattenToSelectable(s: TaskState, ids: seq<Id>): (r: seq<Id>)
    requires Valid(s) && AllKnown(s, ids)
    ensures AllKnown(s, r)
    ensures |r| >= |ids|
    decreases |ids|
  {
    if |ids| == 0 then []
    else
      var init := ids[..|ids| - 1];
      assert forall p :: p in init ==> p in ids;
      FlattenToSelectable(s, init) + Expand(s, ids[|ids| - 1])
  }

  /**
   * What flattening keeps: every leaf of `ids` and every subtask of an entry
   * of `ids`, and nothing else; in a two-level tree, only leaves.
   */
  lemma {:induction false} FlattenContents(s: TaskState, ids: seq<Id>)
    requires Valid(s) && AllKnown(s, ids)
    ensures forall x :: x in FlattenToSelectable(s, ids) ==>
      (x in ids && IsLeaf(s, x)) || exists p :: p in ids && x in s.entities[p].subTaskIds
    ensures forall p :: p in ids && IsLeaf(s, p) ==> p in FlattenToSelectable(s, ids)
    ensures forall p, c :: p in ids && c in s.entities[p].subTaskIds ==> c in FlattenToSelectable(s, ids)
    ensures TwoLevel(s) ==> forall x :: x in FlattenToSelectable(s, ids) ==> IsLeaf(s, x)
    decreases |ids|
  {
    if |ids| > 0 {
      var init, last := ids[..|ids| - 1], ids[|ids| - 1];
      assert forall p :: p in ids <==> p in init || p == last;
      FlattenContents(s, init);
    }
  }

  /** Flattening distributes over concatenation, so it keeps the order of `ids`. */
  lemma {:induction false} FlattenAppend(s: TaskState, a: seq<Id>, b: seq<Id>)
    requires Valid(s) && AllKnown(s, a) && AllKnown(s, b)
    ensures FlattenToSelectable(s, a + b) == FlattenToSelectable(s, a) + FlattenToSelectable(s, b)
    decreases |b|
  {
    if |b| == 0 {
      assert a + b == a;
    } else {
      var b' := b[..|b| - 1];
      assert (a + b)[..|a + b| - 1] == a + b';
      assert (a + b)[|a + b| - 1] == b[|b| - 1];
      FlattenAppend(s, a, b');
    }
  }

  /** A one-entry list flattens to that entry's block. */
  lemma FlattenSingle(s: TaskState, id: Id)
    requires Valid(s) && id in s.entities
    ensures FlattenToSelectable(s, [id]) == Expand(s, id)
  {
    assert [id][..0] == [];
  }

  /** Entry `i` of `ids` occupies one contiguous block of the flattened list. */
  lemma FlattenAround(s: TaskState, ids: seq<Id>, i: nat)
    requires Valid(s) && AllKnown(s, ids) && i < |ids|
    ensures FlattenToSelectable(s, ids) ==
      FlattenToSelectable(s, ids[..i]) + Expand(s, ids[i]) + FlattenToSelectable(s, ids[i + 1..])
  {
    var before, at, after := ids[..i], [ids[i]], ids[i + 1..];
    SplitAround(ids, i);
    FlattenAppend(s, before + at, after);
    FlattenAppend(s, before, at);
    FlattenSingle(s, ids[i]);
  }

  /** A sequence is its prefix before `i`, its entry `i` and its suffix after `i`. */
  lemma SplitAround<T>(xs: seq<T>, i: nat)
    requires i < |xs|
    ensures xs == xs[..i] + [xs[i]] + xs[i + 1..]
  {
  }

  /** `filterUndoneNotCurrent`: not done, and not the task being left. */
  predicate IsCandidate(s: TaskState, leaving: Option<Id>, id: Id)
    requires id in s.entities
    ensures leaving.None? ==> (IsCandidate(s, leaving, id) <==> !s.entities[id].isDone)
    ensures leaving.Some? ==>
      (IsCandidate(s, leaving, id) <==> id != leaving.value && s.entities[id].isDone == false)
  {
    !s.entities[id].isDone && leaving != Some(id)
  }

  /** `Array.prototype.find` with `filterUndoneNotCurrent`: the first candidate of `xs`. */
  function FindCandidate(s: TaskState, leaving: Option<Id>, xs: seq<Id>): (r: Option<Id>)
    requires AllKnown(s, xs)
    ensures r.Some? ==> r.value in xs && IsCandidate(s, leaving, r.value)
    ensures r.None? <==> forall x :: x in xs ==> !IsCandidate(s, leaving, x)
    ensures forall k ::
      (0 <= k < |xs| && IsCandidate(s, leaving, xs[k]) &&
       forall j :: 0 <= j < k ==> !IsCandidate(s, leaving, xs[j]))
      ==> r == Some(xs[k])
  {
    if |xs| == 0 then None
    else if IsCandidate(s, leaving, xs[0]) then Some(xs[0])
    else
      var r := FindCandidate(s, leaving, xs[1..]);
      assert forall k :: 1 <= k < |xs| ==> xs[1..][k - 1] == xs[k];
      r
  }
}
