/**
 * Properties of the task-list operations that relate several calls or
 * single out the selectors the command line actually produces.
 */
module TodoProperties {
  import opened Wrappers
  import opened Seqs
  import Decimal
  import opened TodoStore

  // ------------------------------------------------------ selector basics

  /** Selecting by the rendering of `x` picks exactly the tasks whose id is `x`. */
  lemma IdSelectsExactly(t: Task, x: int)
    ensures IdMatches(t, Some(Decimal.IntToString(x))) <==> t.id == x
  {
    Decimal.RenderingInjective(t.id, x);
  }

  /** A missing id argument never matches, whatever the task. */
  lemma MissingIdNeverMatches(t: Task)
    ensures !IdMatches(t, None)
  {
  }

  /**
   * The index test hits position `i` exactly when `k` is a listed position
   * whose record is equal to the one at `i` and occurs there for the first time.
   */
  lemma IndexMatchesIff(tasks: seq<Task>, i: nat, k: int)
    requires i < |tasks|
    ensures IndexMatches(tasks, tasks[i], Some(k)) <==>
      k != 0 && 1 <= k <= |tasks| && tasks[i] == tasks[k - 1] && FirstIndexOf(tasks, tasks[k - 1]) == k - 1
  {
  }

  /** In a list without duplicate records, the position in `tasks.index` is the list position. */
  lemma FirstIndexOfDistinct(tasks: seq<Task>, i: nat)
    requires Distinct(tasks)
    requires i < |tasks|
    ensures FirstIndexOf(tasks, tasks[i]) == i
  {
  }

  /** An id-less selector hits only through the index test. */
  lemma HitWithoutId(tasks: seq<Task>, t: Task, index: Option<int>)
    ensures Hit(tasks, t, Selector(None, index)) <==> IndexMatches(tasks, t, index)
  {
  }

  /** Neither an id nor a usable index: nothing is ever selected. */
  lemma InertSelector(tasks: seq<Task>, sel: Selector, nowText: string)
    requires sel.id.None? && !IndexGiven(sel.index)
    ensures Done(tasks, sel, nowText) == NotFound(tasks)
    ensures Remove(tasks, sel) == RemoveOutcome(tasks, false)
  {
  }

  // --------------------------------------------------------------- done

  /** Done selects the first hitting position, whichever position that is. */
  lemma DoneAtFirstHit(tasks: seq<Task>, sel: Selector, nowText: string, p: nat)
    requires p < |tasks| && Hit(tasks, tasks[p], sel)
    requires forall j :: 0 <= j < p ==> !Hit(tasks, tasks[j], sel)
    ensures Done(tasks, sel, nowText) == Marked(tasks[p := Complete(tasks[p], nowText)], p)
  {
  }

  /** On a list without duplicate records, `done --index k` marks the k-th listed task. */
  lemma DoneListedPosition(tasks: seq<Task>, k: int, nowText: string)
    requires Distinct(tasks)
    requires 1 <= k <= |tasks|
    ensures Done(tasks, Selector(None, Some(k)), nowText) == Marked(tasks[k - 1 := Complete(tasks[k - 1], nowText)], k - 1)
  {
  }

  /**
   * Selecting by id alone is stable under `done`: a second `done` with the
   * same id picks the same task again (and re-stamps it).
   */
  lemma DoneByIdAgain(tasks: seq<Task>, id: string, first: string, second: string)
    requires exists j :: 0 <= j < |tasks| && IdMatches(tasks[j], Some(id))
    ensures Done(tasks, Selector(Some(id), None), first).Marked?
    ensures Done(Done(tasks, Selector(Some(id), None), first).tasks, Selector(Some(id), None), second).Marked?
    ensures Done(Done(tasks, Selector(Some(id), None), first).tasks, Selector(Some(id), None), second).position
         == Done(tasks, Selector(Some(id), None), first).position
  {
  }

  // ------------------------------------------------------------- remove

  /** Exactly one position hits: `remove` deletes that position and reports it. */
  lemma RemoveOnlyPosition(tasks: seq<Task>, sel: Selector, p: nat)
    requires p < |tasks|
    requires forall i :: 0 <= i < |tasks| ==> (Hit(tasks, tasks[i], sel) <==> i == p)
    ensures Remove(tasks, sel) == RemoveOutcome(tasks[..p] + tasks[p + 1..], true)
  {
    DropOnlyPosition(tasks, Misses(tasks, sel), p);
  }

  /** On a list without duplicate records, `remove --index k` deletes the k-th listed task only. */
  lemma RemoveListedPosition(tasks: seq<Task>, k: int)
    requires Distinct(tasks)
    requires 1 <= k <= |tasks|
    ensures Remove(tasks, Selector(None, Some(k))) == RemoveOutcome(tasks[..k - 1] + tasks[k..], true)
  {
    var sel := Selector(None, Some(k));
    forall j | 0 <= j < |tasks|
      ensures Hit(tasks, tasks[j], sel) <==> j == k - 1
    {
      HitWithoutId(tasks, tasks[j], Some(k));
      FirstIndexOfDistinct(tasks, j);
    }
    RemoveOnlyPosition(tasks, sel, k - 1);
  }

  /** The tasks whose id is not `x`, in order: the reference for removal by id. */
  function WithoutId(tasks: seq<Task>, x: int): (r: seq<Task>)
    ensures forall i :: 0 <= i < |r| ==> r[i].id != x
  {
    if |tasks| == 0 then []
    else if tasks[0].id == x then WithoutId(tasks[1..], x)
    else [tasks[0]] + WithoutId(tasks[1..], x)
  }

  /** `remove <id>` deletes every task carrying that id, not just one of them. */
  lemma {:induction false} RemoveByIdDropsAllWithId(tasks: seq<Task>, x: int)
    ensures Remove(tasks, Selector(Some(Decimal.IntToString(x)), None)).tasks == WithoutId(tasks, x)
  {
    FilterById(tasks, tasks, x);
  }

  lemma {:induction false} FilterById(orig: seq<Task>, s: seq<Task>, x: int)
    ensures Filter(s, Misses(orig, Selector(Some(Decimal.IntToString(x)), None))) == WithoutId(s, x)
  {
    if |s| > 0 {
      IdSelectsExactly(s[0], x);
      FilterById(orig, s[1..], x);
    }
  }

  /** With ids unique, `remove <id>` of an existing id shortens the list by exactly one. */
  lemma RemoveUniqueId(tasks: seq<Task>, p: nat)
    requires p < |tasks|
    requires forall i :: 0 <= i < |tasks| && tasks[i].id == tasks[p].id ==> i == p
    ensures Remove(tasks, Selector(Some(Decimal.IntToString(tasks[p].id)), None)) == RemoveOutcome(tasks[..p] + tasks[p + 1..], true)
  {
    var sel := Selector(Some(Decimal.IntToString(tasks[p].id)), None);
    forall i | 0 <= i < |tasks|
      ensures Hit(tasks, tasks[i], sel) <==> i == p
    {
      IdSelectsExactly(tasks[i], tasks[p].id);
    }
    RemoveOnlyPosition(tasks, sel, p);
  }

  // ------------------------------------------------------- add, then ...

  /** The index test on the list after `add`: earlier records keep their positions below the new one. */
  lemma AddedTaskIsLastListed(tasks: seq<Task>, title: string, now: int, nowText: string)
    requires Task(now, title, nowText, false, None) !in tasks
    ensures forall i :: 0 <= i < |tasks| + 1 ==>
      (Hit(Add(tasks, title, now, nowText), Add(tasks, title, now, nowText)[i], Selector(None, Some(|tasks| + 1))) <==> i == |tasks|)
  {
  }

  /** Removing the last listed position right after `add` restores the list, when the new record is not a duplicate. */
  lemma AddThenRemoveLast(tasks: seq<Task>, title: string, now: int, nowText: string)
    requires Task(now, title, nowText, false, None) !in tasks
    ensures Remove(Add(tasks, title, now, nowText), Selector(None, Some(|tasks| + 1))) == RemoveOutcome(tasks, true)
  {
    var added := Add(tasks, title, now, nowText);
    AddedTaskIsLastListed(tasks, title, now, nowText);
    RemoveOnlyPosition(added, Selector(None, Some(|tasks| + 1)), |tasks|);
    assert added[..|tasks|] == tasks;
  }

  /** Removing by the new id right after `add` restores the list, when no earlier task has that id. */
  lemma AddThenRemoveById(tasks: seq<Task>, title: string, now: int, nowText: string)
    requires forall i :: 0 <= i < |tasks| ==> tasks[i].id != now
    ensures Remove(Add(tasks, title, now, nowText), Selector(Some(Decimal.IntToString(now)), None)) == RemoveOutcome(tasks, true)
  {
    var added := Add(tasks, title, now, nowText);
    RemoveUniqueId(added, |tasks|);
    assert added[..|tasks|] == tasks;
  }

  /** Marking the last listed position right after `add` completes the new task and nothing else. */
  lemma AddThenDoneLast(tasks: seq<Task>, title: string, now: int, nowText: string, doneText: string)
    requires Task(now, title, nowText, false, None) !in tasks
    ensures Done(Add(tasks, title, now, nowText), Selector(None, Some(|tasks| + 1)), doneText)
         == Marked(tasks + [Task(now, title, nowText, true, Some(doneText))], |tasks|)
  {
  }

  // -------------------------------------------------------------- list

  /** The number printed by `todo list` in front of a task selects that task, when there are no duplicate records. */
  lemma ListedNumberSelects(tasks: seq<Task>, i: nat, nowText: string)
    requires Distinct(tasks)
    requires i < |tasks|
    ensures Done(tasks, Selector(None, Some(Listing(tasks)[i].position)), nowText).position == i
    ensures Remove(tasks, Selector(None, Some(Listing(tasks)[i].position))).tasks == tasks[..i] + tasks[i + 1..]
  {
    DoneListedPosition(tasks, i + 1, nowText);
    RemoveListedPosition(tasks, i + 1);
  }
}
