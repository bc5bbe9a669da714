/**
 * The `countdown` loop: while the number of seconds is non-zero it shows
 * `divmod(seconds, 60)` as minutes and seconds, then counts down by one.
 * The one-second sleep is left out; each iteration yields the shown value.
 */
module Countdown {
  import opened Wrappers

  /** A displayed `mm:ss` value. */
  datatype Clock = Clock(minutes: int, seconds: int)

  /** Python's `divmod(n, 60)`, which floors; Dafny's `/` and `%` agree with it for a positive divisor. */
  function DivMod60(n: int): (c: Clock)
    ensures c.minutes * 60 + c.seconds == n
    ensures 0 <= c.seconds < 60
  {
    Clock(n / 60, n % 60)
  }

  /**
   * The shown values of a run given at most `fuel` iterations: None when the
   * loop has not reached zero by then.
   */
  function Ticks(seconds: int, fuel: nat): (r: Option<seq<Clock>>)
    ensures r.Some? ==> |r.value| <= fuel
    ensures r.Some? ==> seconds >= 0 && |r.value| == seconds
    ensures r.Some? ==> forall k :: 0 <= k < |r.value| ==> r.value[k] == DivMod60(seconds - k)
    decreases fuel
  {
    if seconds == 0 then Some([])
    else if fuel == 0 then None
    else
      match Ticks(seconds - 1, fuel - 1)
      case None => None
      case Some(rest) => Some([DivMod60(seconds)] + rest)
  }

  /** A negative start never reaches zero: no number of iterations suffices. */
  lemma {:induction false} NegativeNeverFinishes(seconds: int, fuel: nat)
    requires seconds < 0
    ensures Ticks(seconds, fuel) == None
    decreases fuel
  {
    if fuel > 0 {
      NegativeNeverFinishes(seconds - 1, fuel - 1);
    }
  }

  /**
   * A non-negative start finishes after exactly `seconds` iterations, and
   * the k-th shown value is `seconds - k` split into minutes and seconds.
   */
  lemma {:induction false} NonNegativeFinishes(seconds: int)
    requires seconds >= 0
    ensures Ticks(seconds, seconds).Some?
    ensures |Ticks(seconds, seconds).value| == seconds
    ensures forall k :: 0 <= k < seconds ==> Ticks(seconds, seconds).value[k] == DivMod60(seconds - k)
    ensures seconds > 0 ==> Ticks(seconds, seconds - 1) == None
    decreases seconds
  {
    if seconds > 0 {
      NonNegativeFinishes(seconds - 1);
      var rest := Ticks(seconds - 1, seconds - 1).value;
      assert Ticks(seconds, seconds).value == [DivMod60(seconds)] + rest;
    }
  }

  /** The loop itself: the values shown, and the counter it leaves behind (then shown as `00:00`). */
  method Run(seconds: int) returns (shown: seq<Clock>, left: int)
    requires seconds >= 0
    ensures left == 0
    ensures |shown| == seconds
    ensures forall k :: 0 <= k < |shown| ==> shown[k].minutes * 60 + shown[k].seconds == seconds - k
    ensures forall k :: 0 <= k < |shown| ==> 0 <= shown[k].seconds < 60
    ensures Ticks(seconds, seconds) == Some(shown)
  {
    shown := [];
    left := seconds;
    while left != 0
      invariant 0 <= left <= seconds
      invariant |shown| == seconds - left
      invariant forall k :: 0 <= k < |shown| ==> shown[k] == DivMod60(seconds - k)
      decreases left
    {
      shown := shown + [DivMod60(left)];
      left := left - 1;
    }
    NonNegativeFinishes(seconds);
    assert Ticks(seconds, seconds).value == shown;
  }
}
