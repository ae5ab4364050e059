/**
 * `findNextTask`: which task becomes active after `leaving` stops being
 * active, or, without `leaving`, which task a cold start activates.
 */
module NextTask {
  import opened Wrappers
  import opened JsArray
  import opened TaskTree

  /** The subtask list of the parent of `leaving`, when `leaving` is a known subtask. */
  function Siblings(s: TaskState, leaving: Id): (r: seq<Id>)
    requires Valid(s)
    ensures AllKnown(s, r)
  {
    if leaving in s.entities && s.entities[leaving].parentId.Some?
    then s.entities[s.entities[leaving].parentId.value].subTaskIds
    else []
  }

  /** The sibling-first tier: the first other undone subtask of the same parent. */
  function SiblingCandidate(s: TaskState, leaving: Id): (r: Option<Id>)
    requires Valid(s)
    ensures r.Some? ==> leaving in s.entities && s.entities[leaving].parentId.Some?
    ensures r.Some? ==> r.value in Siblings(s, leaving) && r.value != leaving && !s.entities[r.value].isDone
    ensures r.None? <==> forall c :: c in Siblings(s, leaving) ==> c == leaving || s.entities[c].isDone
  {
    if leaving in s.entities && s.entities[leaving].parentId.Some?
    then FindCandidate(s, Some(leaving), Siblings(s, leaving))
    else None
  }

  /**
   * `isLastSelectable`: a remembered id that names an existing task which
   * is not done and has no subtasks.
   */
  predicate LastSelectable(s: TaskState)
    ensures LastSelectable(s) <==>
      && s.lastCurrentTaskId.Some?
      && s.lastCurrentTaskId.value in s.entities
      && !s.entities[s.lastCurrentTaskId.value].isDone
      && |s.entities[s.lastCurrentTaskId.value].subTaskIds| == 0
  {
    && s.lastCurrentTaskId.Some?
    && IsLeaf(s, s.lastCurrentTaskId.value)
    && !s.entities[s.lastCurrentTaskId.value].isDone
  }

  /** The selectable sequence of the whole of today's list. */
  function Selectable(s: TaskState): (r: seq<Id>)
    requires Valid(s)
    ensures AllKnown(s, r)
  {
    FlattenToSelectable(s, s.todaysTaskIds)
  }

  /**
   * `selectableAfter.find(filter) || selectableBefore.reverse().find(filter)`:
   * the first candidate after, else the last candidate before.
   */
  function ScanAfterThenBefore(s: TaskState, leaving: Option<Id>, selectableBefore: seq<Id>, selectableAfter: seq<Id>): (r: Option<Id>)
    requires AllKnown(s, selectableBefore) && AllKnown(s, selectableAfter)
    ensures r.Some? ==> (r.value in selectableAfter || r.value in selectableBefore) && IsCandidate(s, leaving, r.value)
  {
    var forward := FindCandidate(s, leaving, selectableAfter);
    if forward.Some? then forward
    else
      ReverseSameElements(selectableBefore);
      FindCandidate(s, leaving, Reverse(selectableBefore))
  }

  /**
   * The linear-scan tier: today's list is cut at `indexOf(leaving)` with
   * `slice`, both parts are flattened, and the part after is searched
   * before the part before.
   */
  function FallbackCandidate(s: TaskState, leaving: Id): (r: Option<Id>)
    requires Valid(s)
    ensures r.Some? ==> r.value in s.entities && IsCandidate(s, Some(leaving), r.value)
    ensures r.Some? && TwoLevel(s) ==> IsLeaf(s, r.value)
  {
    var oldIndex := IndexOf(s.todaysTaskIds, leaving);
    var before := Slice(s.todaysTaskIds, 0, oldIndex);
    var after := SliceFrom(s.todaysTaskIds, oldIndex + 1);
    FlattenContents(s, before);
    FlattenContents(s, after);
    ScanAfterThenBefore(s, Some(leaving), FlattenToSelectable(s, before), FlattenToSelectable(s, after))
  }

  /**
   * `findNextTask(state, leaving)`. With a task being left: a sibling first,
   * then the linear scan of today's list. Without one: the remembered task
   * if still selectable, else the first undone entry of the flattened list.
   * The source's `Array.isArray` guard never fires on string ids and is the
   * identity here.
   */
  function FindNextTask(s: TaskState, leaving: Option<Id>): (r: Option<Id>)
    requires Valid(s)
    ensures r.Some? ==> r.value in s.entities && !s.entities[r.value].isDone
    ensures r.Some? && leaving.Some? ==> r.value != leaving.value
    ensures r.Some? && TwoLevel(s) ==> IsLeaf(s, r.value)
  {
    if leaving.Some? then
      var sibling := SiblingCandidate(s, leaving.value);
      if sibling.Some? then sibling else FallbackCandidate(s, leaving.value)
    else if LastSelectable(s) then s.lastCurrentTaskId
    else
      FlattenContents(s, s.todaysTaskIds);
      FindCandidate(s, None, Selectable(s))
  }

  /**
   * Sibling priority: when the task being left is a subtask and sibling `k`
   * is the first other undone subtask of its parent, sibling `k` is chosen,
   * never a later sibling or anything outside the parent.
   */
  lemma SiblingFirst(s: TaskState, leaving: Id, k: nat)
    requires Valid(s)
    requires k < |Siblings(s, leaving)|
    requires Siblings(s, leaving)[k] != leaving && !s.entities[Siblings(s, leaving)[k]].isDone
    requires forall j :: 0 <= j < k ==>
      Siblings(s, leaving)[j] == leaving || s.entities[Siblings(s, leaving)[j]].isDone
    ensures FindNextTask(s, Some(leaving)) == Some(Siblings(s, leaving)[k])
  {
  }

  /** Searching a reversed list finds the last candidate of the original list. */
  lemma FindReversedIsLast(s: TaskState, leaving: Option<Id>, xs: seq<Id>, k: nat)
    requires AllKnown(s, xs)
    requires k < |xs| && IsCandidate(s, leaving, xs[k])
    requires forall j :: k < j < |xs| ==> !IsCandidate(s, leaving, xs[j])
    ensures AllKnown(s, Reverse(xs))
    ensures FindCandidate(s, leaving, Reverse(xs)) == Some(xs[k])
  {
    ReverseSameElements(xs);
    var r := Reverse(xs);
    var m := |xs| - 1 - k;
    assert r[m] == xs[k];
    forall j | 0 <= j < m
      ensures !IsCandidate(s, leaving, r[j])
    {
      assert r[j] == xs[|xs| - 1 - j];
    }
  }

  /** Start of the block that today's entry `i` occupies in `Selectable(s)`. */
  function BlockStart(s: TaskState, i: nat): nat
    requires Valid(s) && i < |s.todaysTaskIds|
  {
    |FlattenToSelectable(s, s.todaysTaskIds[..i])|
  }

  /** End (exclusive) of the block that today's entry `i` occupies in `Selectable(s)`. */
  function BlockEnd(s: TaskState, i: nat): nat
    requires Valid(s) && i < |s.todaysTaskIds|
  {
    BlockStart(s, i) + |Expand(s, s.todaysTaskIds[i])|
  }

  /**
   * With the task being left first found at index `i` of today's list, the
   * two slices it is split into flatten to the parts of `Selectable(s)` on
   * either side of the block entry `i` occupies.
   */
  lemma FallbackSplit(s: TaskState, leaving: Id, i: nat)
    requires Valid(s)
    requires i < |s.todaysTaskIds| && s.todaysTaskIds[i] == leaving && leaving !in s.todaysTaskIds[..i]
    ensures IndexOf(s.todaysTaskIds, leaving) == i
    ensures BlockEnd(s, i) <= |Selectable(s)|
    ensures FlattenToSelectable(s, Slice(s.todaysTaskIds, 0, i)) == Selectable(s)[..BlockStart(s, i)]
    ensures FlattenToSelectable(s, SliceFrom(s.todaysTaskIds, i + 1)) == Selectable(s)[BlockEnd(s, i)..]
  {
    var t := s.todaysTaskIds;
    IndexOfFirst(t, leaving, i);
    SplitAtIndexOf(t, leaving);
    FlattenAround(s, t, i);
    ConcatParts(FlattenToSelectable(s, t[..i]), Expand(s, t[i]), FlattenToSelectable(s, t[i + 1..]));
  }

  /** The outer parts of a three-way concatenation are recovered by slicing. */
  lemma ConcatParts<T>(a: seq<T>, b: seq<T>, c: seq<T>)
    ensures (a + b + c)[..|a|] == a
    ensures (a + b + c)[|a| + |b|..] == c
  {
  }

  /** With no sibling to take, the choice is the scan around the block of the task being left. */
  lemma FallbackAround(s: TaskState, leaving: Id, i: nat)
    requires Valid(s) && SiblingCandidate(s, leaving).None?
    requires i < |s.todaysTaskIds| && s.todaysTaskIds[i] == leaving && leaving !in s.todaysTaskIds[..i]
    ensures BlockEnd(s, i) <= |Selectable(s)|
    ensures FindNextTask(s, Some(leaving)) ==
      ScanAfterThenBefore(s, Some(leaving), Selectable(s)[..BlockStart(s, i)], Selectable(s)[BlockEnd(s, i)..])
  {
    FallbackSplit(s, leaving, i);
  }

  /**
   * Forward progress: when no sibling qualifies and `k` is the first
   * candidate after the block of the task being left, `k` is chosen.
   */
  lemma FallbackForward(s: TaskState, leaving: Id, i: nat, k: nat)
    requires Valid(s) && SiblingCandidate(s, leaving).None?
    requires i < |s.todaysTaskIds| && s.todaysTaskIds[i] == leaving && leaving !in s.todaysTaskIds[..i]
    requires BlockEnd(s, i) <= k < |Selectable(s)|
    requires IsCandidate(s, Some(leaving), Selectable(s)[k])
    requires forall j :: BlockEnd(s, i) <= j < k ==> !IsCandidate(s, Some(leaving), Selectable(s)[j])
    ensures FindNextTask(s, Some(leaving)) == Some(Selectable(s)[k])
  {
    FallbackAround(s, leaving, i);
    ScanForward(s, Some(leaving), Selectable(s), BlockStart(s, i), BlockEnd(s, i), k);
  }

  /**
   * Backward wrap: when no sibling qualifies and nothing after the block of
   * the task being left is a candidate, the last candidate before the block
   * is chosen.
   */
  lemma FallbackBackward(s: TaskState, leaving: Id, i: nat, k: nat)
    requires Valid(s) && SiblingCandidate(s, leaving).None?
    requires i < |s.todaysTaskIds| && s.todaysTaskIds[i] == leaving && leaving !in s.todaysTaskIds[..i]
    requires BlockEnd(s, i) <= |Selectable(s)|
    requires forall j :: BlockEnd(s, i) <= j < |Selectable(s)| ==> !IsCandidate(s, Some(leaving), Selectable(s)[j])
    requires k < BlockStart(s, i) && IsCandidate(s, Some(leaving), Selectable(s)[k])
    requires forall j :: k < j < BlockStart(s, i) ==> !IsCandidate(s, Some(leaving), Selectable(s)[j])
    ensures FindNextTask(s, Some(leaving)) == Some(Selectable(s)[k])
  {
    FallbackAround(s, leaving, i);
    ScanBackward(s, Some(leaving), Selectable(s), BlockStart(s, i), BlockEnd(s, i), k);
  }

  /**
   * No candidate: when no sibling qualifies, the result is none exactly when
   * no entry of `Selectable(s)` outside the block of the task being left is
   * a candidate.
   */
  lemma FallbackNone(s: TaskState, leaving: Id, i: nat)
    requires Valid(s) && SiblingCandidate(s, leaving).None?
    requires i < |s.todaysTaskIds| && s.todaysTaskIds[i] == leaving && leaving !in s.todaysTaskIds[..i]
    ensures BlockEnd(s, i) <= |Selectable(s)|
    ensures FindNextTask(s, Some(leaving)).None? <==>
      forall j :: 0 <= j < |Selectable(s)| && !(BlockStart(s, i) <= j < BlockEnd(s, i)) ==>
        !IsCandidate(s, Some(leaving), Selectable(s)[j])
  {
    FallbackAround(s, leaving, i);
    ScanNone(s, Some(leaving), Selectable(s), BlockStart(s, i), BlockEnd(s, i));
  }

  /** The scan picks the first candidate after position `hi` of `f`. */
  lemma ScanForward(s: TaskState, leaving: Option<Id>, f: seq<Id>, lo: nat, hi: nat, k: nat)
    requires AllKnown(s, f) && lo <= hi <= k < |f|
    requires IsCandidate(s, leaving, f[k])
    requires forall j :: hi <= j < k ==> !IsCandidate(s, leaving, f[j])
    ensures ScanAfterThenBefore(s, leaving, f[..lo], f[hi..]) == Some(f[k])
  {
    var after := f[hi..];
    assert after[k - hi] == f[k];
    forall j | 0 <= j < k - hi
      ensures !IsCandidate(s, leaving, after[j])
    {
      assert after[j] == f[hi + j];
    }
    assert FindCandidate(s, leaving, after) == Some(f[k]);
  }

  /** With no candidate from `hi` on, the scan picks the last candidate before `lo`. */
  lemma ScanBackward(s: TaskState, leaving: Option<Id>, f: seq<Id>, lo: nat, hi: nat, k: nat)
    requires AllKnown(s, f) && k < lo <= hi <= |f|
    requires forall j :: hi <= j < |f| ==> !IsCandidate(s, leaving, f[j])
    requires IsCandidate(s, leaving, f[k])
    requires forall j :: k < j < lo ==> !IsCandidate(s, leaving, f[j])
    ensures ScanAfterThenBefore(s, leaving, f[..lo], f[hi..]) == Some(f[k])
  {
    var after, before := f[hi..], f[..lo];
    forall x | x in after
      ensures !IsCandidate(s, leaving, x)
    {
      var j :| 0 <= j < |after| && after[j] == x;
      assert f[hi + j] == x;
    }
    assert before[k] == f[k];
    FindReversedIsLast(s, leaving, before, k);
  }

  /** The scan finds nothing exactly when no entry of `f` outside `lo..hi` is a candidate. */
  lemma ScanNone(s: TaskState, leaving: Option<Id>, f: seq<Id>, lo: nat, hi: nat)
    requires AllKnown(s, f) && lo <= hi <= |f|
    ensures ScanAfterThenBefore(s, leaving, f[..lo], f[hi..]).None? <==>
      forall j :: 0 <= j < |f| && !(lo <= j < hi) ==> !IsCandidate(s, leaving, f[j])
  {
    var after, before := f[hi..], f[..lo];
    ReverseSameElements(before);
    var r := ScanAfterThenBefore(s, leaving, before, after);
    if r.None? {
      forall j | 0 <= j < |f| && !(lo <= j < hi)
        ensures !IsCandidate(s, leaving, f[j])
      {
        if j < lo {
          assert before[j] == f[j];
        } else {
          assert after[j - hi] == f[j];
        }
      }
    } else if r.value in after {
      var j :| 0 <= j < |after| && after[j] == r.value;
      assert f[hi + j] == r.value;
    } else {
      var j :| 0 <= j < |before| && before[j] == r.value;
      assert f[j] == r.value;
    }
  }

  /**
   * The task being left is not in today's list (a subtask, say), so its
   * index is -1: the forward search covers the whole flattened list, and the
   * backward search of `slice(0, -1)` never contributes anything.
   */
  lemma FallbackWhenNotToday(s: TaskState, leaving: Id)
    requires Valid(s) && SiblingCandidate(s, leaving).None?
    requires leaving !in s.todaysTaskIds
    ensures FindNextTask(s, Some(leaving)) == FindCandidate(s, Some(leaving), Selectable(s))
  {
    var t, f := s.todaysTaskIds, Selectable(s);
    SplitAtIndexOf(t, leaving);
    var before := FlattenToSelectable(s, Slice(t, 0, -1));
    assert SliceFrom(t, 0) == t;
    assert FallbackCandidate(s, leaving) == ScanAfterThenBefore(s, Some(leaving), before, f);
    if FindCandidate(s, Some(leaving), f).None? {
      if |t| > 0 {
        FlattenAround(s, t, |t| - 1);
        assert t[|t|..] == [];
        assert forall x :: x in before ==> x in f;
      }
      ReverseSameElements(before);
      assert FindCandidate(s, Some(leaving), Reverse(before)).None?;
    }
  }

  /**
   * Cold start: the remembered task when it is still an undone leaf;
   * otherwise the first undone entry of the flattened list, or none when
   * every entry is done.
   */
  lemma ColdStart(s: TaskState)
    requires Valid(s)
    ensures LastSelectable(s) ==> FindNextTask(s, None) == s.lastCurrentTaskId
    ensures !LastSelectable(s) ==>
      (FindNextTask(s, None).None? <==> forall x :: x in Selectable(s) ==> s.entities[x].isDone)
    ensures !LastSelectable(s) ==> forall k ::
      (0 <= k < |Selectable(s)| && !s.entities[Selectable(s)[k]].isDone &&
       forall j :: 0 <= j < k ==> s.entities[Selectable(s)[j]].isDone)
      ==> FindNextTask(s, None) == Some(Selectable(s)[k])
  {
  }
}
