/**
 * Selection by the number `todo list` prints (its `enumerate` position)
 * instead of by `tasks.index(t)+1`. The two agree on lists without duplicate
 * records; when two records are equal, only this reading lets `--index`
 * reach the later one.
 */
module ListedSelection {
  import opened Wrappers
  import opened Seqs
  import opened TodoStore
  import TodoProperties

  /** The selection test with the index compared to the listed position `i + 1`. */
  predicate ListedHit(tasks: seq<Task>, i: nat, sel: Selector)
    requires i < |tasks|
  {
    IdMatches(tasks[i], sel.id) || (IndexGiven(sel.index) && i + 1 == sel.index.value)
  }

  /** The loop of `todo done` with listed positions, from position `from`. */
  function FirstListedHitFrom(tasks: seq<Task>, sel: Selector, from: nat): (r: Option<nat>)
    requires from <= |tasks|
    ensures r.Some? ==> from <= r.value < |tasks| && ListedHit(tasks, r.value, sel)
    ensures r.Some? ==> forall j :: from <= j < r.value ==> !ListedHit(tasks, j, sel)
    ensures r.None? ==> forall j :: from <= j < |tasks| ==> !ListedHit(tasks, j, sel)
  {
    ListedHitsAtIff(tasks, sel);
    FirstPosition(|tasks|, ListedHitsAt(tasks, sel), from)
  }

  /** `ListedHit` as a test on positions of `tasks`. */
  function ListedHitsAt(tasks: seq<Task>, sel: Selector): int -> bool {
    i => 0 <= i < |tasks| && ListedHit(tasks, i, sel)
  }

  lemma ListedHitsAtIff(tasks: seq<Task>, sel: Selector)
    ensures forall j :: 0 <= j < |tasks| ==> (ListedHitsAt(tasks, sel)(j) <==> ListedHit(tasks, j, sel))
  {
  }

  /** `todo done` with listed positions: mark the first position that hits. */
  function DoneListed(tasks: seq<Task>, sel: Selector, nowText: string): (r: DoneOutcome)
    ensures |r.tasks| == |tasks|
    ensures r.NotFound? <==> forall j :: 0 <= j < |tasks| ==> !ListedHit(tasks, j, sel)
    ensures r.NotFound? ==> r.tasks == tasks
    ensures r.Marked? ==> r.position < |tasks| && ListedHit(tasks, r.position, sel)
    ensures r.Marked? ==> forall j :: 0 <= j < r.position ==> !ListedHit(tasks, j, sel)
    ensures r.Marked? ==> r.tasks[r.position] == Complete(tasks[r.position], nowText)
    ensures r.Marked? ==> forall j :: 0 <= j < |tasks| && j != r.position ==> r.tasks[j] == tasks[j]
  {
    match FirstListedHitFrom(tasks, sel, 0)
    case None => NotFound(tasks)
    case Some(k) => Marked(tasks[k := Complete(tasks[k], nowText)], k)
  }

  /** The comprehension condition, on listed positions. */
  function MissesAt(tasks: seq<Task>, sel: Selector): int -> bool {
    i => !(0 <= i < |tasks| && ListedHit(tasks, i, sel))
  }

  /**
   * `todo remove` with listed positions: drop every position that hits, keep
   * the others in order, and report a removal exactly when a position hit.
   */
  function RemoveListed(tasks: seq<Task>, sel: Selector): (r: RemoveOutcome)
    ensures IsSubsequence(r.tasks, tasks)
    ensures forall k :: 0 <= k < |r.tasks| ==>
      exists j :: 0 <= j < |tasks| && !ListedHit(tasks, j, sel) && r.tasks[k] == tasks[j]
    ensures |r.tasks| == CountPositions(MissesAt(tasks, sel), 0, |tasks|)
    ensures r.removed <==> exists i :: 0 <= i < |tasks| && ListedHit(tasks, i, sel)
    ensures !r.removed ==> r.tasks == tasks
    ensures forall i :: 0 <= i < |tasks| && !ListedHit(tasks, i, sel) ==>
      CountPositions(MissesAt(tasks, sel), 0, i) < |r.tasks| && r.tasks[CountPositions(MissesAt(tasks, sel), 0, i)] == tasks[i]
  {
    var kept := FilterPositions(tasks, MissesAt(tasks, sel), 0);
    KeptFacts(tasks, sel, kept);
    RemoveOutcome(kept, |kept| < |tasks|)
  }

  /** The facts about the positional filter that `RemoveListed` promises, stated on its result `kept`. */
  lemma KeptFacts(tasks: seq<Task>, sel: Selector, kept: seq<Task>)
    requires kept == FilterPositions(tasks, MissesAt(tasks, sel), 0)
    ensures IsSubsequence(kept, tasks)
    ensures forall k :: 0 <= k < |kept| ==> exists j :: 0 <= j < |tasks| && !ListedHit(tasks, j, sel) && kept[k] == tasks[j]
    ensures |kept| == CountPositions(MissesAt(tasks, sel), 0, |tasks|)
    ensures |kept| < |tasks| <==> exists i :: 0 <= i < |tasks| && ListedHit(tasks, i, sel)
    ensures |kept| == |tasks| ==> kept == tasks
    ensures forall i :: 0 <= i < |tasks| && !ListedHit(tasks, i, sel) ==>
      CountPositions(MissesAt(tasks, sel), 0, i) < |kept| && kept[CountPositions(MissesAt(tasks, sel), 0, i)] == tasks[i]
  {
    assert tasks[0..] == tasks;
    FilterPositionsIsSubsequence(tasks, MissesAt(tasks, sel), 0);
    FilterPositionsWhole(tasks, MissesAt(tasks, sel), 0);
    KeptFewerIff(tasks, sel);
    KeptPositionsMiss(tasks, sel, kept);
    KeptAtRank(tasks, sel, kept);
  }

  /** The positional filter of `RemoveListed` drops some position exactly when some position hits. */
  lemma KeptFewerIff(tasks: seq<Task>, sel: Selector)
    ensures |FilterPositions(tasks, MissesAt(tasks, sel), 0)| < |tasks| <==> exists i :: 0 <= i < |tasks| && ListedHit(tasks, i, sel)
    ensures |FilterPositions(tasks, MissesAt(tasks, sel), 0)| == CountPositions(MissesAt(tasks, sel), 0, |tasks|)
  {
    var keepAt := MissesAt(tasks, sel);
    FilterPositionsCount(tasks, keepAt, 0);
    CountPositionsShort(keepAt, 0, |tasks|);
    if exists i :: 0 <= i < |tasks| && !keepAt(i) {
      var i :| 0 <= i < |tasks| && !keepAt(i);
      assert ListedHit(tasks, i, sel);
    }
    if exists i :: 0 <= i < |tasks| && ListedHit(tasks, i, sel) {
      var i :| 0 <= i < |tasks| && ListedHit(tasks, i, sel);
      assert !keepAt(i);
    }
  }

  /** Every position that does not hit reappears in `RemoveListed`, at the number of such positions before it. */
  lemma KeptAtRank(tasks: seq<Task>, sel: Selector, kept: seq<Task>)
    requires kept == FilterPositions(tasks, MissesAt(tasks, sel), 0)
    ensures forall i :: 0 <= i < |tasks| && !ListedHit(tasks, i, sel) ==>
      CountPositions(MissesAt(tasks, sel), 0, i) < |kept| && kept[CountPositions(MissesAt(tasks, sel), 0, i)] == tasks[i]
  {
    forall i | 0 <= i < |tasks| && !ListedHit(tasks, i, sel)
      ensures CountPositions(MissesAt(tasks, sel), 0, i) < |kept| && kept[CountPositions(MissesAt(tasks, sel), 0, i)] == tasks[i]
    {
      assert MissesAt(tasks, sel)(i);
      FilterPositionsRank(tasks, MissesAt(tasks, sel), 0, i);
    }
  }

  /** Every record `RemoveListed` keeps sits at a position that does not hit. */
  lemma KeptPositionsMiss(tasks: seq<Task>, sel: Selector, kept: seq<Task>)
    requires kept == FilterPositions(tasks, MissesAt(tasks, sel), 0)
    ensures forall k :: 0 <= k < |kept| ==> exists j :: 0 <= j < |tasks| && !ListedHit(tasks, j, sel) && kept[k] == tasks[j]
  {
    forall k | 0 <= k < |kept|
      ensures exists j :: 0 <= j < |tasks| && !ListedHit(tasks, j, sel) && kept[k] == tasks[j]
    {
      var j := FilterPositionsSource(tasks, MissesAt(tasks, sel), 0, k);
      assert !ListedHit(tasks, j, sel);
    }
  }

  /** Whatever the records, `done --index k` marks the k-th listed task. */
  lemma DoneListedSelectsListedTask(tasks: seq<Task>, k: int, nowText: string)
    requires 1 <= k <= |tasks|
    ensures DoneListed(tasks, Selector(None, Some(k)), nowText) == Marked(tasks[k - 1 := Complete(tasks[k - 1], nowText)], k - 1)
  {
    var sel := Selector(None, Some(k));
    forall j | 0 <= j < |tasks|
      ensures ListedHit(tasks, j, sel) <==> j == k - 1
    {
      TodoProperties.MissingIdNeverMatches(tasks[j]);
    }
    assert ListedHit(tasks, k - 1, sel);
    var r := DoneListed(tasks, sel, nowText);
    assert r.Marked?;
    assert r.position == k - 1;
  }

  /** Whatever the records, `remove --index k` deletes the k-th listed task and nothing else. */
  lemma RemoveListedDropsListedTask(tasks: seq<Task>, k: int)
    requires 1 <= k <= |tasks|
    ensures RemoveListed(tasks, Selector(None, Some(k))) == RemoveOutcome(tasks[..k - 1] + tasks[k..], true)
  {
    var sel := Selector(None, Some(k));
    forall j | 0 <= j < |tasks|
      ensures ListedHit(tasks, j, sel) <==> j == k - 1
    {
      TodoProperties.MissingIdNeverMatches(tasks[j]);
    }
    FilterPositionsDropOnly(tasks, MissesAt(tasks, sel), 0, k - 1);
    assert tasks[0..k - 1] == tasks[..k - 1];
  }

  /** Without duplicate records the two readings of the index are the same test. */
  lemma HitAgreesOnDistinct(tasks: seq<Task>, i: nat, sel: Selector)
    requires Distinct(tasks)
    requires i < |tasks|
    ensures Hit(tasks, tasks[i], sel) <==> ListedHit(tasks, i, sel)
  {
  }

  /** Without duplicate records, the program's `done` and `remove` behave exactly as the listed-position versions. */
  lemma AgreeOnDistinct(tasks: seq<Task>, sel: Selector, nowText: string)
    requires Distinct(tasks)
    ensures Done(tasks, sel, nowText) == DoneListed(tasks, sel, nowText)
    ensures Remove(tasks, sel) == RemoveListed(tasks, sel)
  {
    forall i | 0 <= i < |tasks|
      ensures Hit(tasks, tasks[i], sel) <==> ListedHit(tasks, i, sel)
    {
      HitAgreesOnDistinct(tasks, i, sel);
    }
    var a, b := Done(tasks, sel, nowText), DoneListed(tasks, sel, nowText);
    if a.Marked? {
      assert b.Marked? && b.position == a.position;
    }
    FilterPositionsByValue(tasks, MissesAt(tasks, sel), Misses(tasks, sel), 0);
    assert tasks[0..] == tasks;
  }

  /**
   * Two `todo add` calls in the same second with the same title store two
   * equal records. As written, `--index 2` then finds nothing for `done` or
   * `remove`, and `remove --index 1` deletes both; the listed-position
   * reading selects the second record and deletes one record.
   */
  lemma SameSecondDuplicate(title: string, now: int, nowText: string, doneText: string)
    ensures var tasks := Add(Add([], title, now, nowText), title, now, nowText);
      && Done(tasks, Selector(None, Some(2)), doneText) == NotFound(tasks)
      && Remove(tasks, Selector(None, Some(2))) == RemoveOutcome(tasks, false)
      && Remove(tasks, Selector(None, Some(1))) == RemoveOutcome([], true)
      && DoneListed(tasks, Selector(None, Some(2)), doneText).Marked?
      && DoneListed(tasks, Selector(None, Some(2)), doneText).position == 1
      && RemoveListed(tasks, Selector(None, Some(2))).tasks == [tasks[0]]
      && RemoveListed(tasks, Selector(None, Some(1))).tasks == [tasks[1]]
  {
    var t := Task(now, title, nowText, false, None);
    var tasks := Add(Add([], title, now, nowText), title, now, nowText);
    assert tasks == [t, t];
    TodoProperties.MissingIdNeverMatches(t);
    assert FirstIndexOf(tasks, t) == 0;
    assert !Hit(tasks, tasks[0], Selector(None, Some(2)));
    assert !Hit(tasks, tasks[1], Selector(None, Some(2)));
    assert Hit(tasks, tasks[0], Selector(None, Some(1)));
    assert Filter(tasks, Misses(tasks, Selector(None, Some(2)))) == tasks by {
      FilterKeepsAll(tasks, Misses(tasks, Selector(None, Some(2))));
    }
    assert Filter(tasks, Misses(tasks, Selector(None, Some(1)))) == [] by {
      FilterCons(t, [t], Misses(tasks, Selector(None, Some(1))));
      FilterCons(t, [], Misses(tasks, Selector(None, Some(1))));
      assert tasks == [t] + [t];
      assert [t] == [t] + [];
    }
    DoneListedSelectsListedTask(tasks, 2, doneText);
    RemoveListedDropsListedTask(tasks, 2);
    RemoveListedDropsListedTask(tasks, 1);
  }
}
