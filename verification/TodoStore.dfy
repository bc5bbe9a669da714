/**
 * The task list of the `todo` subcommands. The persisted document
 * `{ "tasks": [...] }` is modelled as the in-memory sequence it holds; every
 * operation returns the sequence that the program writes back. The wall clock
 * is a parameter: `now` is `int(time.time())` and `nowText` is `now_str()`.
 */
module TodoStore {
  import opened Wrappers
  import opened Seqs
  import Decimal

  /**
   * One task record. `createdAt` and `completedAt` are the JSON keys
   * `created_at` and `completed_at`; `completedAt` is None while the key is absent.
   */
  datatype Task = Task(id: int, title: string, createdAt: string, done: bool, completedAt: Option<string>)

  /**
   * The arguments that pick tasks for `done` and `remove`: the optional
   * positional id (a string) and the optional `--index` (an int).
   */
  datatype Selector = Selector(id: Option<string>, index: Option<int>)

  /** What `str(args.id)` yields: a missing id prints as "None". */
  function SelectorText(id: Option<string>): string {
    match id
    case None => "None"
    case Some(s) => s
  }

  /** `str(t['id']) == str(args.id)`. */
  predicate IdMatches(t: Task, id: Option<string>) {
    Decimal.IntToString(t.id) == SelectorText(id)
  }

  /** `args.index` is truthy: present and non-zero. */
  predicate IndexGiven(index: Option<int>) {
    index.Some? && index.value != 0
  }

  /** `args.index and tasks.index(t)+1 == args.index`. */
  predicate IndexMatches(tasks: seq<Task>, t: Task, index: Option<int>) {
    IndexGiven(index) && t in tasks && FirstIndexOf(tasks, t) + 1 == index.value
  }

  /** The selection test shared by `done` and `remove`, for a task `t` of `tasks`. */
  predicate Hit(tasks: seq<Task>, t: Task, sel: Selector) {
    IdMatches(t, sel.id) || IndexMatches(tasks, t, sel.index)
  }

  /** No two positions hold equal records. */
  predicate Distinct(tasks: seq<Task>) {
    forall i, j :: 0 <= i < j < |tasks| ==> tasks[i] != tasks[j]
  }

  // ---------------------------------------------------------------- add

  /** `todo add`: append a fresh pending task whose id is the current second. */
  function Add(tasks: seq<Task>, title: string, now: int, nowText: string): (r: seq<Task>)
    ensures |r| == |tasks| + 1
    ensures forall i :: 0 <= i < |tasks| ==> r[i] == tasks[i]
    ensures r[|tasks|].id == now && r[|tasks|].title == title && r[|tasks|].createdAt == nowText
    ensures !r[|tasks|].done && r[|tasks|].completedAt.None?
  {
    tasks + [Task(now, title, nowText, false, None)]
  }

  // --------------------------------------------------------------- list

  /** One printed line of `todo list`: the 1-based position and the task it shows. */
  datatype ListEntry = ListEntry(position: nat, done: bool, title: string, id: int)

  /** `todo list`: the tasks in stored order, numbered from 1. */
  function Listing(tasks: seq<Task>): (r: seq<ListEntry>)
    ensures |r| == |tasks|
    ensures forall i :: 0 <= i < |r| ==>
      r[i].position == i + 1 && r[i].title == tasks[i].title && r[i].id == tasks[i].id && r[i].done == tasks[i].done
  {
    seq(|tasks|, i requires 0 <= i < |tasks| => ListEntry(i + 1, tasks[i].done, tasks[i].title, tasks[i].id))
  }

  // --------------------------------------------------------------- done

  /** The outcome of `todo done`; in both cases `tasks` is written back. */
  datatype DoneOutcome = Marked(tasks: seq<Task>, position: nat) | NotFound(tasks: seq<Task>)

  /** The record after `t['done'] = True; t['completed_at'] = now_str()`. */
  function Complete(t: Task, nowText: string): (r: Task)
    ensures r.done && r.completedAt == Some(nowText)
    ensures r.id == t.id && r.title == t.title && r.createdAt == t.createdAt
  {
    t.(done := true, completedAt := Some(nowText))
  }

  /** The loop of `todo done` from position `from`: the first position that hits, if any. */
  function FirstHitFrom(tasks: seq<Task>, sel: Selector, from: nat): (r: Option<nat>)
    requires from <= |tasks|
    ensures r.Some? ==> from <= r.value < |tasks| && Hit(tasks, tasks[r.value], sel)
    ensures r.Some? ==> forall j :: from <= j < r.value ==> !Hit(tasks, tasks[j], sel)
    ensures r.None? ==> forall j :: from <= j < |tasks| ==> !Hit(tasks, tasks[j], sel)
  {
    HitsAtIff(tasks, sel);
    FirstPosition(|tasks|, HitsAt(tasks, sel), from)
  }

  /** The selection test as a test on positions of `tasks`. */
  function HitsAt(tasks: seq<Task>, sel: Selector): int -> bool {
    i => 0 <= i < |tasks| && Hit(tasks, tasks[i], sel)
  }

  lemma HitsAtIff(tasks: seq<Task>, sel: Selector)
    ensures forall j :: 0 <= j < |tasks| ==> (HitsAt(tasks, sel)(j) <==> Hit(tasks, tasks[j], sel))
  {
  }

  /**
   * `todo done`: mark the first task that hits, and only that one; every
   * other record, the length and the order stay as they were.
   */
  function Done(tasks: seq<Task>, sel: Selector, nowText: string): (r: DoneOutcome)
    ensures |r.tasks| == |tasks|
    ensures r.NotFound? <==> forall j :: 0 <= j < |tasks| ==> !Hit(tasks, tasks[j], sel)
    ensures r.NotFound? ==> r.tasks == tasks
    ensures r.Marked? ==> r.position < |tasks| && Hit(tasks, tasks[r.position], sel)
    ensures r.Marked? ==> forall j :: 0 <= j < r.position ==> !Hit(tasks, tasks[j], sel)
    ensures r.Marked? ==> r.tasks[r.position] == Complete(tasks[r.position], nowText)
    ensures r.Marked? ==> forall j :: 0 <= j < |tasks| && j != r.position ==> r.tasks[j] == tasks[j]
  {
    match FirstHitFrom(tasks, sel, 0)
    case None => NotFound(tasks)
    case Some(k) => Marked(tasks[k := Complete(tasks[k], nowText)], k)
  }

  // ------------------------------------------------------------- remove

  /** The condition of the comprehension in `todo remove`, tested against the original list. */
  function Misses(tasks: seq<Task>, sel: Selector): Task -> bool {
    t => !Hit(tasks, t, sel)
  }

  /** The outcome of `todo remove`: the list written back, and whether "Task removed." is printed. */
  datatype RemoveOutcome = RemoveOutcome(tasks: seq<Task>, removed: bool)

  /**
   * `todo remove`: drop every task that hits, keep every other one in order,
   * and report a removal exactly when something hit.
   */
  function Remove(tasks: seq<Task>, sel: Selector): (r: RemoveOutcome)
    ensures IsSubsequence(r.tasks, tasks)
    ensures forall i :: 0 <= i < |r.tasks| ==> r.tasks[i] in tasks && !Hit(tasks, r.tasks[i], sel)
    ensures forall i :: 0 <= i < |tasks| ==> (tasks[i] in r.tasks <==> !Hit(tasks, tasks[i], sel))
    ensures r.removed <==> exists i :: 0 <= i < |tasks| && Hit(tasks, tasks[i], sel)
    ensures !r.removed ==> r.tasks == tasks
    ensures |r.tasks| == Count(tasks, Misses(tasks, sel))
  {
    var kept := Filter(tasks, Misses(tasks, sel));
    FilterIsSubsequence(tasks, Misses(tasks, sel));
    FilterLength(tasks, Misses(tasks, sel));
    FilterKept(tasks, Misses(tasks, sel));
    FilterCount(tasks, Misses(tasks, sel));
    assert forall x :: x in kept <==> x in tasks && !Hit(tasks, x, sel) by {
      forall x {
        FilterMembers(tasks, Misses(tasks, sel), x);
      }
    }
    RemoveOutcome(kept, |kept| < |tasks|)
  }
}
