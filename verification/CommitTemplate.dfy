/**
 * The commit message of `gitwrap commit`: with a non-empty `--template`, the
 * template with every `{msg}` replaced by the message (Python's `str.replace`,
 * left to right, non-overlapping); otherwise the message itself.
 */
module CommitTemplate {
  import opened Wrappers

  /** The placeholder the template uses for the message. */
  const Placeholder: string := "{msg}"

  /** `pat` occurs somewhere in `s`. */
  predicate Occurs(s: string, pat: string)
    requires |pat| > 0
    decreases |s|
  {
    |s| >= |pat| && (s[..|pat|] == pat || Occurs(s[1..], pat))
  }

  /** The first character of `pat` appears nowhere else in it, so no two occurrences can overlap. */
  predicate UniqueHead(pat: string) {
    |pat| > 0 && forall k :: 0 < k < |pat| ==> pat[k] != pat[0]
  }

  /** `s.replace(pat, rep)`: scan left to right, replacing each occurrence and resuming after it. */
  function ReplaceAll(s: string, pat: string, rep: string): (r: string)
    requires |pat| > 0
    ensures !Occurs(s, pat) ==> r == s
    decreases |s|
  {
    if |s| < |pat| then s
    else if s[..|pat|] == pat then rep + ReplaceAll(s[|pat|..], pat, rep)
    else [s[0]] + ReplaceAll(s[1..], pat, rep)
  }

  /** The pieces of `parts` with `sep` between consecutive ones. */
  function Join(parts: seq<string>, sep: string): string
    requires |parts| > 0
  {
    if |parts| == 1 then parts[0] else parts[0] + sep + Join(parts[1..], sep)
  }

  /** Add a character at the front of the first piece. */
  function PrependToFirst(c: char, parts: seq<string>): (r: seq<string>)
    requires |parts| > 0
    ensures |r| == |parts|
  {
    [[c] + parts[0]] + parts[1..]
  }

  /** The text between the occurrences of `pat` in `s`, found by the same left-to-right scan. */
  function Split(s: string, pat: string): (r: seq<string>)
    requires |pat| > 0
    ensures |r| > 0
    decreases |s|
  {
    if |s| < |pat| then [s]
    else if s[..|pat|] == pat then [""] + Split(s[|pat|..], pat)
    else PrependToFirst(s[0], Split(s[1..], pat))
  }

  /** The message `git commit -m` receives. */
  function CommitMessage(template: Option<string>, message: string): (r: string)
    ensures template == None || template == Some("") ==> r == message
    ensures template.Some? && template.value != "" && !Occurs(template.value, Placeholder) ==> r == template.value
  {
    match template
    case Some(t) => if t != "" then ReplaceAll(t, Placeholder, message) else message
    case None => message
  }

  // ------------------------------------------------------------- lemmas

  lemma PlaceholderHasUniqueHead()
    ensures UniqueHead(Placeholder)
  {
  }

  lemma JoinPrependToFirst(c: char, parts: seq<string>, sep: string)
    requires |parts| > 0
    ensures Join(PrependToFirst(c, parts), sep) == [c] + Join(parts, sep)
  {
  }

  /** Joining a piece in front of further pieces puts one separator between them. */
  lemma JoinCons(x: string, parts: seq<string>, sep: string)
    requires |parts| > 0
    ensures Join([x] + parts, sep) == x + sep + Join(parts, sep)
  {
    assert ([x] + parts)[1..] == parts;
  }

  /** An occurrence at the front closes an empty first piece. */
  lemma SplitAtOccurrence(s: string, pat: string)
    requires |pat| > 0 && |s| >= |pat| && s[..|pat|] == pat
    ensures Split(s, pat) == [""] + Split(s[|pat|..], pat)
  {
  }

  /** Without an occurrence at the front, the first character joins the first piece. */
  lemma SplitElsewhere(s: string, pat: string)
    requires |pat| > 0 && |s| >= |pat| && s[..|pat|] != pat
    ensures Split(s, pat) == PrependToFirst(s[0], Split(s[1..], pat))
  {
  }

  /** Splitting at the occurrences and joining with the placeholder gives the text back. */
  lemma {:induction false} JoinSplit(s: string, pat: string)
    requires |pat| > 0
    ensures Join(Split(s, pat), pat) == s
    decreases |s|
  {
    if |s| < |pat| {
    } else if s[..|pat|] == pat {
      var rest := s[|pat|..];
      SplitAtOccurrence(s, pat);
      JoinSplit(rest, pat);
      JoinCons("", Split(rest, pat), pat);
      assert s == pat + rest;
    } else {
      var rest := s[1..];
      SplitElsewhere(s, pat);
      JoinSplit(rest, pat);
      JoinPrependToFirst(s[0], Split(rest, pat), pat);
      assert s == [s[0]] + rest;
    }
  }

  /** A text shorter than the pattern never contains it. */
  lemma ShortHasNoOccurrence(s: string, pat: string)
    requires |pat| > 0 && |s| < |pat|
    ensures !Occurs(s, pat)
  {
  }

  /** None of the pieces `Split` returns contains the pattern. */
  lemma {:induction false} SplitPiecesFree(s: string, pat: string)
    requires |pat| > 0
    ensures forall i :: 0 <= i < |Split(s, pat)| ==> !Occurs(Split(s, pat)[i], pat)
    decreases |s|
  {
    if |s| < |pat| {
      ShortHasNoOccurrence(s, pat);
    } else if s[..|pat|] == pat {
      SplitPiecesFree(s[|pat|..], pat);
      var rest := Split(s[|pat|..], pat);
      assert forall i :: 1 <= i < |[""] + rest| ==> ([""] + rest)[i] == rest[i - 1];
      ShortHasNoOccurrence("", pat);
    } else {
      var rest := Split(s[1..], pat);
      SplitPiecesFree(s[1..], pat);
      JoinSplit(s[1..], pat);
      var head := [s[0]] + rest[0];
      assert head[1..] == rest[0];
      if |head| >= |pat| {
        FirstPieceIsPrefix(s[1..], pat);
        assert head[..|pat|] == s[..|pat|];
      }
      var r := PrependToFirst(s[0], rest);
      assert forall i :: 1 <= i < |r| ==> r[i] == rest[i];
    }
  }

  /** The first piece of a split is a prefix of the text. */
  lemma FirstPieceIsPrefix(s: string, pat: string)
    requires |pat| > 0
    ensures |Split(s, pat)[0]| <= |s| && Split(s, pat)[0] == s[..|Split(s, pat)[0]|]
  {
  }

  /** An occurrence starting inside `a` cannot reach into `b`: b's head would sit inside it. */
  lemma NoOccurrenceAcrossHead(a: string, b: string, pat: string)
    requires UniqueHead(pat)
    requires 0 < |a| < |pat| && |b| > 0 && b[0] == pat[0] && |a + b| >= |pat|
    ensures (a + b)[..|pat|] != pat
  {
    var w := (a + b)[..|pat|];
    assert w[|a|] == b[0];
    assert w[|a|] != pat[|a|];
  }

  /** Where no occurrence starts, the scan copies one character and moves on. */
  lemma ReplaceStep(s: string, pat: string, rep: string)
    requires |pat| > 0 && |s| >= |pat| && s[..|pat|] != pat
    ensures ReplaceAll(s, pat, rep) == [s[0]] + ReplaceAll(s[1..], pat, rep)
  {
  }

  /**
   * With a pattern whose head is unique, replacing in `a + b` is replacing in
   * `a` and in `b` when `b` is empty or starts an occurrence's head.
   */
  lemma {:induction false} ReplaceAppend(a: string, b: string, pat: string, rep: string)
    requires UniqueHead(pat)
    requires |b| == 0 || b[0] == pat[0]
    ensures ReplaceAll(a + b, pat, rep) == ReplaceAll(a, pat, rep) + ReplaceAll(b, pat, rep)
    decreases |a|
  {
    var n := |pat|;
    var ab := a + b;
    if |a| == 0 {
      assert ab == b;
    } else if |ab| < n {
    } else if ab[..n] == pat {
      if |a| < n {
        NoOccurrenceAcrossHead(a, b, pat);
      }
      assert |a| >= n;
      assert a[..n] == pat;
      assert ab[n..] == a[n..] + b;
      ReplaceAppend(a[n..], b, pat, rep);
    } else {
      var tail := a[1..];
      assert ab[0] == a[0] && ab[1..] == tail + b;
      ReplaceAppend(tail, b, pat, rep);
      var rt, rb := ReplaceAll(tail, pat, rep), ReplaceAll(b, pat, rep);
      ReplaceStep(ab, pat, rep);
      if |a| >= n {
        assert a[..n] == ab[..n];
        ReplaceStep(a, pat, rep);
      } else {
        assert ReplaceAll(a, pat, rep) == a && rt == tail;
        assert a == [a[0]] + tail;
      }
      assert [a[0]] + (rt + rb) == ([a[0]] + rt) + rb;
    }
  }

  /** Replacing in a joined text replaces exactly the separators, when the pieces are free of the pattern. */
  lemma {:induction false} ReplaceJoin(parts: seq<string>, pat: string, rep: string)
    requires UniqueHead(pat)
    requires |parts| > 0
    requires forall i :: 0 <= i < |parts| ==> !Occurs(parts[i], pat)
    ensures ReplaceAll(Join(parts, pat), pat, rep) == Join(parts, rep)
    decreases |parts|
  {
    if |parts| > 1 {
      var rest := Join(parts[1..], pat);
      ReplaceJoin(parts[1..], pat, rep);
      ReplaceAppend(parts[0], pat + rest, pat, rep);
      assert (pat + rest)[..|pat|] == pat && (pat + rest)[|pat|..] == rest;
      assert Join(parts, pat) == parts[0] + (pat + rest);
    }
  }

  /**
   * With a non-empty template, the commit message is the template cut at its
   * `{msg}` occurrences and joined again with the message in their place.
   */
  lemma CommitMessageFillsPlaceholders(template: string, message: string)
    requires template != ""
    ensures CommitMessage(Some(template), message) == Join(Split(template, Placeholder), message)
  {
    PlaceholderHasUniqueHead();
    JoinSplit(template, Placeholder);
    SplitPiecesFree(template, Placeholder);
    ReplaceJoin(Split(template, Placeholder), Placeholder, message);
  }

  /** Filling pieces free of `{msg}` puts the message exactly between them. */
  lemma CommitMessageOfPieces(parts: seq<string>, message: string)
    requires |parts| > 0
    requires forall i :: 0 <= i < |parts| ==> !Occurs(parts[i], Placeholder)
    requires Join(parts, Placeholder) != ""
    ensures CommitMessage(Some(Join(parts, Placeholder)), message) == Join(parts, message)
  {
    PlaceholderHasUniqueHead();
    ReplaceJoin(parts, Placeholder, message);
  }

  /** Using the placeholder itself as the message gives the template back. */
  lemma PlaceholderAsMessage(template: string)
    requires template != ""
    ensures CommitMessage(Some(template), Placeholder) == template
  {
    CommitMessageFillsPlaceholders(template, Placeholder);
    JoinSplit(template, Placeholder);
  }
}
