/** Sequence helpers shared by the task-list model: list search and order-preserving filtering. */
module Seqs {
  import opened Wrappers

  /** A left-to-right scan of the positions `from..n`: the first one satisfying `p`, if any. */
  function FirstPosition(n: nat, p: int -> bool, from: nat): (r: Option<nat>)
    requires from <= n
    ensures r.Some? ==> from <= r.value < n && p(r.value)
    ensures r.Some? ==> forall j :: from <= j < r.value ==> !p(j)
    ensures r.None? ==> forall j :: from <= j < n ==> !p(j)
    decreases n - from
  {
    if from == n then None
    else if p(from) then Some(from)
    else FirstPosition(n, p, from + 1)
  }

  /** Python's `s.index(x)`: the first position holding a value equal to `x`. */
  function FirstIndexOf<T(==)>(s: seq<T>, x: T): (r: nat)
    requires x in s
    ensures r < |s| && s[r] == x
    ensures forall j :: 0 <= j < r ==> s[j] != x
  {
    if s[0] == x then 0 else 1 + FirstIndexOf(s[1..], x)
  }

  /** `a` can be obtained from `b` by deleting elements, keeping the order of the rest. */
  predicate IsSubsequence<T(==)>(a: seq<T>, b: seq<T>)
    decreases |b|
  {
    if |a| == 0 then true
    else if |b| == 0 then false
    else (a[0] == b[0] && IsSubsequence(a[1..], b[1..])) || IsSubsequence(a, b[1..])
  }

  /** The comprehension `[x for x in s if keep(x)]`. */
  function Filter<T>(s: seq<T>, keep: T -> bool): (r: seq<T>)
    ensures |r| <= |s|
  {
    if |s| == 0 then []
    else if keep(s[0]) then [s[0]] + Filter(s[1..], keep)
    else Filter(s[1..], keep)
  }

  /** The filter shortens its input exactly when some element is dropped; otherwise it returns the input. */
  lemma {:induction false} FilterLength<T>(s: seq<T>, keep: T -> bool)
    ensures |Filter(s, keep)| < |s| <==> exists i :: 0 <= i < |s| && !keep(s[i])
    ensures |Filter(s, keep)| == |s| ==> Filter(s, keep) == s
  {
    if |s| > 0 {
      FilterLength(s[1..], keep);
      assert forall i :: 1 <= i < |s| ==> s[i] == s[1..][i - 1];
    }
  }

  /** Everything the filter returns is kept. */
  lemma {:induction false} FilterKept<T>(s: seq<T>, keep: T -> bool)
    ensures forall i :: 0 <= i < |Filter(s, keep)| ==> keep(Filter(s, keep)[i])
  {
    if |s| > 0 {
      FilterKept(s[1..], keep);
    }
  }

  /** What the filter keeps is, in order, a part of its input. */
  lemma {:induction false} FilterIsSubsequence<T>(s: seq<T>, keep: T -> bool)
    ensures IsSubsequence(Filter(s, keep), s)
  {
    if |s| > 0 {
      FilterIsSubsequence(s[1..], keep);
      var rest := Filter(s[1..], keep);
      if keep(s[0]) {
        assert ([s[0]] + rest)[1..] == rest;
      } else {
        SubsequenceOfTail(rest, s);
      }
    }
  }

  lemma SubsequenceOfTail<T>(a: seq<T>, b: seq<T>)
    requires |b| > 0 && IsSubsequence(a, b[1..])
    ensures IsSubsequence(a, b)
  {
  }

  /** A value survives the filter exactly when it occurs in the input and is kept. */
  lemma {:induction false} FilterMembers<T>(s: seq<T>, keep: T -> bool, x: T)
    ensures x in Filter(s, keep) <==> x in s && keep(x)
  {
    if |s| > 0 {
      FilterMembers(s[1..], keep, x);
      assert x in s <==> x == s[0] || x in s[1..];
    }
  }

  /** One step of the filter. */
  lemma FilterCons<T>(x: T, s: seq<T>, keep: T -> bool)
    ensures Filter([x] + s, keep) == if keep(x) then [x] + Filter(s, keep) else Filter(s, keep)
  {
    assert ([x] + s)[0] == x && ([x] + s)[1..] == s;
  }

  /** The filter distributes over concatenation. */
  lemma {:induction false} FilterAppend<T>(a: seq<T>, b: seq<T>, keep: T -> bool)
    ensures Filter(a + b, keep) == Filter(a, keep) + Filter(b, keep)
  {
    if |a| == 0 {
      assert a + b == b;
    } else {
      var x, rest := a[0], a[1..];
      assert a == [x] + rest;
      assert a + b == [x] + (rest + b);
      FilterAppend(rest, b, keep);
      FilterCons(x, rest + b, keep);
      FilterCons(x, rest, keep);
      if keep(x) {
        var kr, kb := Filter(rest, keep), Filter(b, keep);
        assert [x] + (kr + kb) == ([x] + kr) + kb;
      }
    }
  }

  /** A filter that keeps every element returns its input. */
  lemma FilterKeepsAll<T>(s: seq<T>, keep: T -> bool)
    requires forall i :: 0 <= i < |s| ==> keep(s[i])
    ensures Filter(s, keep) == s
  {
  }

  /** When exactly position `p` is dropped, the filter deletes that position. */
  lemma {:induction false} DropOnlyPosition<T>(s: seq<T>, keep: T -> bool, p: nat)
    requires p < |s|
    requires forall i :: 0 <= i < |s| ==> (keep(s[i]) <==> i != p)
    ensures Filter(s, keep) == s[..p] + s[p + 1..]
  {
    var tail := s[1..];
    if p == 0 {
      assert forall i :: 0 <= i < |tail| ==> tail[i] == s[i + 1];
      FilterKeepsAll(tail, keep);
    } else {
      assert forall i :: 0 <= i < |tail| ==> tail[i] == s[i + 1];
      DropOnlyPosition(tail, keep, p - 1);
      assert s[..p] == [s[0]] + tail[..p - 1];
      assert s[p + 1..] == tail[p..];
    }
  }

  /** The elements at positions `from..` whose position is kept, in order. */
  function FilterPositions<T>(s: seq<T>, keepAt: int -> bool, from: nat): (r: seq<T>)
    requires from <= |s|
    ensures |r| <= |s| - from
    decreases |s| - from
  {
    if from == |s| then []
    else if keepAt(from) then [s[from]] + FilterPositions(s, keepAt, from + 1)
    else FilterPositions(s, keepAt, from + 1)
  }

  /** Keeping every position from `from` on returns the suffix. */
  lemma {:induction false} FilterPositionsKeepsAll<T>(s: seq<T>, keepAt: int -> bool, from: nat)
    requires from <= |s|
    requires forall i :: from <= i < |s| ==> keepAt(i)
    ensures FilterPositions(s, keepAt, from) == s[from..]
    decreases |s| - from
  {
    if from < |s| {
      FilterPositionsKeepsAll(s, keepAt, from + 1);
      assert s[from..] == [s[from]] + s[from + 1..];
    }
  }

  /** When exactly position `p` is dropped, the positional filter deletes that position. */
  lemma {:induction false} FilterPositionsDropOnly<T>(s: seq<T>, keepAt: int -> bool, from: nat, p: nat)
    requires from <= p < |s|
    requires forall i :: from <= i < |s| ==> (keepAt(i) <==> i != p)
    ensures FilterPositions(s, keepAt, from) == s[from..p] + s[p + 1..]
    decreases |s| - from
  {
    if from == p {
      FilterPositionsKeepsAll(s, keepAt, p + 1);
      assert s[p..p] + s[p + 1..] == s[p + 1..];
    } else {
      FilterPositionsDropOnly(s, keepAt, from + 1, p);
      var mid, after := s[from + 1..p], s[p + 1..];
      assert s[from..p] == [s[from]] + mid;
      assert [s[from]] + (mid + after) == ([s[from]] + mid) + after;
    }
  }

  /** How many positions in `lo..hi` satisfy `keepAt`. */
  function CountPositions(keepAt: int -> bool, lo: int, hi: int): (r: nat)
    requires lo <= hi
    ensures r <= hi - lo
    decreases hi - lo
  {
    if lo == hi then 0 else (if keepAt(lo) then 1 else 0) + CountPositions(keepAt, lo + 1, hi)
  }

  /** Fewer positions are counted than the range holds exactly when one of them fails. */
  lemma {:induction false} CountPositionsShort(keepAt: int -> bool, lo: int, hi: int)
    requires lo <= hi
    ensures CountPositions(keepAt, lo, hi) < hi - lo <==> (exists i :: lo <= i < hi && !keepAt(i))
    decreases hi - lo
  {
    if lo < hi {
      CountPositionsShort(keepAt, lo + 1, hi);
    }
  }

  /** The positional filter keeps exactly as many elements as there are kept positions. */
  lemma {:induction false} FilterPositionsCount<T>(s: seq<T>, keepAt: int -> bool, from: nat)
    requires from <= |s|
    ensures |FilterPositions(s, keepAt, from)| == CountPositions(keepAt, from, |s|)
    decreases |s| - from
  {
    if from < |s| {
      FilterPositionsCount(s, keepAt, from + 1);
    }
  }

  /** A positional filter that loses nothing returns the suffix it scans. */
  lemma FilterPositionsWhole<T>(s: seq<T>, keepAt: int -> bool, from: nat)
    requires from <= |s|
    ensures |FilterPositions(s, keepAt, from)| == |s| - from ==> FilterPositions(s, keepAt, from) == s[from..]
  {
    if |FilterPositions(s, keepAt, from)| == |s| - from {
      FilterPositionsCount(s, keepAt, from);
      CountPositionsShort(keepAt, from, |s|);
      FilterPositionsKeepsAll(s, keepAt, from);
    }
  }

  /** A kept position `i` lands in the result at its rank: the number of kept positions before it. */
  lemma {:induction false} FilterPositionsRank<T>(s: seq<T>, keepAt: int -> bool, from: nat, i: nat)
    requires from <= i < |s| && keepAt(i)
    ensures CountPositions(keepAt, from, i) < |FilterPositions(s, keepAt, from)|
    ensures FilterPositions(s, keepAt, from)[CountPositions(keepAt, from, i)] == s[i]
    decreases |s| - from
  {
    if from < i {
      FilterPositionsRank(s, keepAt, from + 1, i);
    }
  }

  /** What the positional filter keeps is, in order, a part of the suffix it scans. */
  lemma {:induction false} FilterPositionsIsSubsequence<T>(s: seq<T>, keepAt: int -> bool, from: nat)
    requires from <= |s|
    ensures IsSubsequence(FilterPositions(s, keepAt, from), s[from..])
    decreases |s| - from
  {
    if from < |s| {
      FilterPositionsIsSubsequence(s, keepAt, from + 1);
      var rest := FilterPositions(s, keepAt, from + 1);
      assert s[from..][1..] == s[from + 1..];
      if keepAt(from) {
        assert ([s[from]] + rest)[1..] == rest;
      } else {
        SubsequenceOfTail(rest, s[from..]);
      }
    }
  }

  /** The `k`-th element the positional filter returns sits at a kept position `j` of the input. */
  lemma {:induction false} FilterPositionsSource<T>(s: seq<T>, keepAt: int -> bool, from: nat, k: nat) returns (j: nat)
    requires from <= |s| && k < |FilterPositions(s, keepAt, from)|
    ensures from <= j < |s| && keepAt(j) && FilterPositions(s, keepAt, from)[k] == s[j]
    decreases |s| - from
  {
    var rest := FilterPositions(s, keepAt, from + 1);
    if keepAt(from) && k == 0 {
      j := from;
    } else if keepAt(from) {
      j := FilterPositionsSource(s, keepAt, from + 1, k - 1);
    } else {
      j := FilterPositionsSource(s, keepAt, from + 1, k);
    }
  }

  /** A positional test that only looks at the element is the value filter. */
  lemma {:induction false} FilterPositionsByValue<T>(s: seq<T>, keepAt: int -> bool, keep: T -> bool, from: nat)
    requires from <= |s|
    requires forall i :: from <= i < |s| ==> (keepAt(i) <==> keep(s[i]))
    ensures FilterPositions(s, keepAt, from) == Filter(s[from..], keep)
    decreases |s| - from
  {
    if from < |s| {
      FilterPositionsByValue(s, keepAt, keep, from + 1);
      assert s[from..] == [s[from]] + s[from + 1..];
      FilterCons(s[from], s[from + 1..], keep);
    }
  }

  /** How many elements of `s` satisfy `p`. */
  function Count<T>(s: seq<T>, p: T -> bool): (r: nat)
    ensures r <= |s|
  {
    if |s| == 0 then 0 else (if p(s[0]) then 1 else 0) + Count(s[1..], p)
  }

  /** The filter keeps exactly as many elements as satisfy its condition. */
  lemma {:induction false} FilterCount<T>(s: seq<T>, keep: T -> bool)
    ensures |Filter(s, keep)| == Count(s, keep)
  {
    if |s| > 0 {
      FilterCount(s[1..], keep);
    }
  }

  /** Counting distributes over concatenation. */
  lemma {:induction false} CountAppend<T>(a: seq<T>, b: seq<T>, p: T -> bool)
    ensures Count(a + b, p) == Count(a, p) + Count(b, p)
  {
    if |a| == 0 {
      assert a + b == b;
    } else {
      assert (a + b)[0] == a[0] && (a + b)[1..] == a[1..] + b;
      CountAppend(a[1..], b, p);
    }
  }
}
