/**
 * The order of phases and notifications of `focus start`. Printing, the
 * notifier and the countdown's sleeping are left out; each phase start is an
 * event carrying its countdown length in seconds. A countdown of a negative
 * length never returns, so a run that reaches one is stuck there.
 */
module Focus {
  import opened Seqs

  datatype Event =
    | WorkStarts(cycle: int, seconds: int)    // "Cycle i/n: Work for ..." and countdown(work)
    | WorkNotice(cycle: int)                  // notify("Work session i/n complete. ...")
    | BreakStarts(cycle: int, seconds: int)   // "Break for ..." and countdown(brk)
    | BreakNotice(cycle: int)                 // notify("Break i/n over. ...")
    | AllDone                                 // "All cycles complete. ..."
    | AllDoneNotice                           // notify("All focus cycles complete. ...")

  /** The events emitted, and whether the run got past every countdown. */
  datatype Run = Run(events: seq<Event>, finished: bool)

  predicate IsWork(e: Event) { e.WorkStarts? }
  predicate IsBreak(e: Event) { e.BreakStarts? }
  predicate IsNotice(e: Event) { e.WorkNotice? || e.BreakNotice? || e.AllDoneNotice? }

  function Then(prefix: seq<Event>, r: Run): Run {
    Run(prefix + r.events, r.finished)
  }

  /** Cycles `cycle..cycles` with countdown lengths `work` and `brk` in seconds. */
  function Rounds(cycle: int, cycles: int, work: int, brk: int): Run
    decreases if cycle <= cycles then cycles - cycle + 1 else 0
  {
    if cycle > cycles then Run([], true)
    else if work < 0 then Run([WorkStarts(cycle, work)], false)
    else if cycle < cycles then
      if brk < 0 then Run([WorkStarts(cycle, work), WorkNotice(cycle), BreakStarts(cycle, brk)], false)
      else Then([WorkStarts(cycle, work), WorkNotice(cycle), BreakStarts(cycle, brk), BreakNotice(cycle)],
                Rounds(cycle + 1, cycles, work, brk))
    else Then([WorkStarts(cycle, work), WorkNotice(cycle)], Rounds(cycle + 1, cycles, work, brk))
  }

  /** `focus start --work workMinutes --break breakMinutes --cycles cycles`. */
  function Schedule(workMinutes: int, breakMinutes: int, cycles: int): (r: Run)
    ensures r.finished ==> |r.events| >= 2 && r.events[|r.events| - 2] == AllDone && r.events[|r.events| - 1] == AllDoneNotice
    ensures !r.finished ==> AllDoneNotice !in r.events
  {
    var rounds := Rounds(1, cycles, workMinutes * 60, breakMinutes * 60);
    RoundsNeverComplete(1, cycles, workMinutes * 60, breakMinutes * 60);
    if rounds.finished then Then(rounds.events, Run([AllDone, AllDoneNotice], true)) else rounds
  }

  // ------------------------------------------------------------- lemmas

  lemma {:induction false} RoundsNeverComplete(cycle: int, cycles: int, work: int, brk: int)
    ensures AllDone !in Rounds(cycle, cycles, work, brk).events
    ensures AllDoneNotice !in Rounds(cycle, cycles, work, brk).events
    decreases if cycle <= cycles then cycles - cycle + 1 else 0
  {
    if cycle <= cycles && work >= 0 && (cycle == cycles || brk >= 0) {
      RoundsNeverComplete(cycle + 1, cycles, work, brk);
    }
  }

  /** The rounds get past every countdown exactly when every countdown they run is non-negative. */
  lemma {:induction false} RoundsFinishIff(cycle: int, cycles: int, work: int, brk: int)
    ensures Rounds(cycle, cycles, work, brk).finished <==> cycle > cycles || (work >= 0 && (cycle == cycles || brk >= 0))
    decreases if cycle <= cycles then cycles - cycle + 1 else 0
  {
    if cycle <= cycles && work >= 0 && (cycle == cycles || brk >= 0) {
      RoundsFinishIff(cycle + 1, cycles, work, brk);
    }
  }

  /** The schedule completes unless some countdown it reaches has a negative length. */
  lemma ScheduleFinishesIff(workMinutes: int, breakMinutes: int, cycles: int)
    ensures Schedule(workMinutes, breakMinutes, cycles).finished <==>
      cycles <= 0 || (workMinutes >= 0 && (cycles == 1 || breakMinutes >= 0))
  {
    RoundsFinishIff(1, cycles, workMinutes * 60, breakMinutes * 60);
  }

  /** With no cycles only the completion message and its notice are emitted. */
  lemma NoCycles(workMinutes: int, breakMinutes: int, cycles: int)
    requires cycles <= 0
    ensures Schedule(workMinutes, breakMinutes, cycles) == Run([AllDone, AllDoneNotice], true)
  {
  }

  /**
   * Cycles `cycle..cycles` when every countdown that runs is non-negative (the
   * break length is never counted down in the last cycle): four events
   * per cycle, two for the last, laid out as work, notice, break, notice.
   */
  lemma {:induction false} RoundsLayout(cycle: int, cycles: int, work: int, brk: int)
    requires 1 <= cycle <= cycles && work >= 0 && (cycle == cycles || brk >= 0)
    ensures Rounds(cycle, cycles, work, brk).finished
    ensures |Rounds(cycle, cycles, work, brk).events| == 4 * (cycles - cycle) + 2
    ensures forall i :: cycle <= i <= cycles ==>
      Rounds(cycle, cycles, work, brk).events[4 * (i - cycle)] == WorkStarts(i, work) &&
      Rounds(cycle, cycles, work, brk).events[4 * (i - cycle) + 1] == WorkNotice(i)
    ensures forall i :: cycle <= i < cycles ==>
      Rounds(cycle, cycles, work, brk).events[4 * (i - cycle) + 2] == BreakStarts(i, brk) &&
      Rounds(cycle, cycles, work, brk).events[4 * (i - cycle) + 3] == BreakNotice(i)
    decreases cycles - cycle
  {
    var r := Rounds(cycle, cycles, work, brk);
    if cycle < cycles {
      RoundsLayout(cycle + 1, cycles, work, brk);
      var head := [WorkStarts(cycle, work), WorkNotice(cycle), BreakStarts(cycle, brk), BreakNotice(cycle)];
      var rest := Rounds(cycle + 1, cycles, work, brk).events;
      assert r.events == head + rest;
      forall i | cycle < i <= cycles
        ensures r.events[4 * (i - cycle)] == WorkStarts(i, work)
        ensures r.events[4 * (i - cycle) + 1] == WorkNotice(i)
      {
        assert 4 * (i - cycle) == 4 + 4 * (i - (cycle + 1));
      }
      forall i | cycle < i < cycles
        ensures r.events[4 * (i - cycle) + 2] == BreakStarts(i, brk)
        ensures r.events[4 * (i - cycle) + 3] == BreakNotice(i)
      {
        assert 4 * (i - cycle) == 4 + 4 * (i - (cycle + 1));
      }
    }
  }

  /**
   * A completed schedule of `cycles >= 1` cycles: `4 * cycles` events, cycle i
   * starting at position `4 * (i - 1)` with its work phase and notice, a break
   * and its notice after every cycle but the last, then the completion
   * message and notice.
   */
  lemma ScheduleLayout(workMinutes: int, breakMinutes: int, cycles: int)
    requires cycles >= 1 && workMinutes >= 0 && (cycles == 1 || breakMinutes >= 0)
    ensures Schedule(workMinutes, breakMinutes, cycles).finished
    ensures |Schedule(workMinutes, breakMinutes, cycles).events| == 4 * cycles
    ensures forall i :: 1 <= i <= cycles ==>
      Schedule(workMinutes, breakMinutes, cycles).events[4 * (i - 1)] == WorkStarts(i, workMinutes * 60) &&
      Schedule(workMinutes, breakMinutes, cycles).events[4 * (i - 1) + 1] == WorkNotice(i)
    ensures forall i :: 1 <= i < cycles ==>
      Schedule(workMinutes, breakMinutes, cycles).events[4 * (i - 1) + 2] == BreakStarts(i, breakMinutes * 60) &&
      Schedule(workMinutes, breakMinutes, cycles).events[4 * (i - 1) + 3] == BreakNotice(i)
    ensures Schedule(workMinutes, breakMinutes, cycles).events[4 * cycles - 2] == AllDone
  {
    RoundsLayout(1, cycles, workMinutes * 60, breakMinutes * 60);
  }

  lemma RoundHeadCounts(cycle: int, cycles: int, work: int, brk: int)
    ensures Count([WorkStarts(cycle, work), WorkNotice(cycle)], IsWork) == 1
    ensures Count([WorkStarts(cycle, work), WorkNotice(cycle)], IsBreak) == 0
    ensures Count([WorkStarts(cycle, work), WorkNotice(cycle)], IsNotice) == 1
    ensures Count([WorkStarts(cycle, work), WorkNotice(cycle), BreakStarts(cycle, brk), BreakNotice(cycle)], IsWork) == 1
    ensures Count([WorkStarts(cycle, work), WorkNotice(cycle), BreakStarts(cycle, brk), BreakNotice(cycle)], IsBreak) == 1
    ensures Count([WorkStarts(cycle, work), WorkNotice(cycle), BreakStarts(cycle, brk), BreakNotice(cycle)], IsNotice) == 2
  {
    var w := [WorkStarts(cycle, work), WorkNotice(cycle)];
    var b := [BreakStarts(cycle, brk), BreakNotice(cycle)];
    assert w[1..] == [WorkNotice(cycle)] && b[1..] == [BreakNotice(cycle)];
    assert [WorkNotice(cycle)][1..] == [] && [BreakNotice(cycle)][1..] == [];
    assert w + b == [WorkStarts(cycle, work), WorkNotice(cycle), BreakStarts(cycle, brk), BreakNotice(cycle)];
    CountAppend(w, b, IsWork);
    CountAppend(w, b, IsBreak);
    CountAppend(w, b, IsNotice);
  }

  /** Per-cycle counts over the rounds: one work phase each, a break after all but the last, two notices each but the last. */
  lemma {:induction false} RoundsCounts(cycle: int, cycles: int, work: int, brk: int)
    requires 1 <= cycle <= cycles && work >= 0 && (cycle == cycles || brk >= 0)
    ensures Count(Rounds(cycle, cycles, work, brk).events, IsWork) == cycles - cycle + 1
    ensures Count(Rounds(cycle, cycles, work, brk).events, IsBreak) == cycles - cycle
    ensures Count(Rounds(cycle, cycles, work, brk).events, IsNotice) == 2 * (cycles - cycle) + 1
    decreases cycles - cycle
  {
    var head := if cycle < cycles
      then [WorkStarts(cycle, work), WorkNotice(cycle), BreakStarts(cycle, brk), BreakNotice(cycle)]
      else [WorkStarts(cycle, work), WorkNotice(cycle)];
    var rest := Rounds(cycle + 1, cycles, work, brk).events;
    assert Rounds(cycle, cycles, work, brk).events == head + rest;
    CountAppend(head, rest, IsWork);
    CountAppend(head, rest, IsBreak);
    CountAppend(head, rest, IsNotice);
    RoundHeadCounts(cycle, cycles, work, brk);
    if cycle < cycles {
      RoundsCounts(cycle + 1, cycles, work, brk);
    } else {
      assert rest == [];
    }
  }

  /**
   * A completed schedule of `cycles >= 1` cycles has `cycles` work phases,
   * `cycles - 1` breaks and `2 * cycles` notifications, and no break follows the last cycle.
   */
  lemma ScheduleCounts(workMinutes: int, breakMinutes: int, cycles: int)
    requires cycles >= 1 && workMinutes >= 0 && (cycles == 1 || breakMinutes >= 0)
    ensures Count(Schedule(workMinutes, breakMinutes, cycles).events, IsWork) == cycles
    ensures Count(Schedule(workMinutes, breakMinutes, cycles).events, IsBreak) == cycles - 1
    ensures Count(Schedule(workMinutes, breakMinutes, cycles).events, IsNotice) == 2 * cycles
  {
    var rounds := Rounds(1, cycles, workMinutes * 60, breakMinutes * 60);
    RoundsLayout(1, cycles, workMinutes * 60, breakMinutes * 60);
    RoundsCounts(1, cycles, workMinutes * 60, breakMinutes * 60);
    var tail := [AllDone, AllDoneNotice];
    CountAppend(rounds.events, tail, IsWork);
    CountAppend(rounds.events, tail, IsBreak);
    CountAppend(rounds.events, tail, IsNotice);
  }

  /** Whatever the durations, every break belongs to a cycle before the last: no break follows the last work phase. */
  lemma {:induction false} BreaksBeforeLastCycle(cycle: int, cycles: int, work: int, brk: int)
    ensures forall k :: 0 <= k < |Rounds(cycle, cycles, work, brk).events| && Rounds(cycle, cycles, work, brk).events[k].BreakStarts? ==>
      cycle <= Rounds(cycle, cycles, work, brk).events[k].cycle < cycles
    decreases if cycle <= cycles then cycles - cycle + 1 else 0
  {
    if cycle <= cycles && work >= 0 && (cycle == cycles || brk >= 0) {
      BreaksBeforeLastCycle(cycle + 1, cycles, work, brk);
      var head := if cycle < cycles
        then [WorkStarts(cycle, work), WorkNotice(cycle), BreakStarts(cycle, brk), BreakNotice(cycle)]
        else [WorkStarts(cycle, work), WorkNotice(cycle)];
      var rest := Rounds(cycle + 1, cycles, work, brk).events;
      assert Rounds(cycle, cycles, work, brk).events == head + rest;
    }
  }

  /** The schedule's breaks all come from cycles `1..cycles-1`. */
  lemma ScheduleBreaks(workMinutes: int, breakMinutes: int, cycles: int)
    ensures forall e :: e in Schedule(workMinutes, breakMinutes, cycles).events && e.BreakStarts? ==> 1 <= e.cycle < cycles
  {
    var rounds := Rounds(1, cycles, workMinutes * 60, breakMinutes * 60);
    BreaksBeforeLastCycle(1, cycles, workMinutes * 60, breakMinutes * 60);
    var events := Schedule(workMinutes, breakMinutes, cycles).events;
    forall e | e in events && e.BreakStarts?
      ensures 1 <= e.cycle < cycles
    {
      var k :| 0 <= k < |events| && events[k] == e;
      if rounds.finished {
        assert events == rounds.events + [AllDone, AllDoneNotice];
        assert k < |rounds.events|;
        assert rounds.events[k] == e;
      }
    }
  }
}
