/** The elapsed-time label of the auto-save indicator (`formatTime`). The
    current time is a parameter: the label is a function of `diff`, the
    whole milliseconds from the last save to now, which is negative for a
    save stamped in the future. The locale's clock time, the last branch,
    is the parameter `clock`. */
module AutoSave {
  import opened Strings

  /** Which of the four branches a label comes from. */
  datatype Label = JustNow | SecondsAgo(seconds: nat) | MinutesAgo(minutes: nat) | ClockTime

  /** `Math.floor(x / n)` for a positive divisor; Dafny's division rounds
      toward negative infinity when the divisor is positive. */
  function FloorDiv(x: int, n: int): (q: int)
    requires n > 0
    ensures q * n <= x < q * n + n
  {
    x / n
  }

  /** The branch `formatTime` takes, first match wins: whole seconds below
      5, below 60, whole minutes below 60, and everything else. */
  function Classify(diff: int): (l: Label)
    ensures l.JustNow? <==> diff < 5000
    ensures l.SecondsAgo? <==> 5000 <= diff < 60_000
    ensures l.MinutesAgo? <==> 60_000 <= diff < 3_600_000
    ensures l.ClockTime? <==> 3_600_000 <= diff
    ensures l.SecondsAgo? ==> l.seconds * 1000 <= diff < l.seconds * 1000 + 1000
    ensures l.MinutesAgo? ==> l.minutes * 60_000 <= diff < l.minutes * 60_000 + 60_000
  {
    var seconds := FloorDiv(diff, 1000);
    var minutes := FloorDiv(seconds, 60);
    if seconds < 5 then JustNow
    else if seconds < 60 then SecondsAgo(seconds)
    else if minutes < 60 then
      MinutesAgoBounds(diff, seconds, minutes);
      MinutesAgo(minutes)
    else ClockTime
  }

  /** Flooring twice, by 1000 and then by 60, is flooring by 60000. */
  lemma MinutesAgoBounds(diff: int, seconds: int, minutes: int)
    requires seconds * 1000 <= diff < seconds * 1000 + 1000
    requires minutes * 60 <= seconds < minutes * 60 + 60
    ensures minutes * 60_000 <= diff < minutes * 60_000 + 60_000
  {
  }

  /** The text shown for a label. */
  function Render(l: Label, clock: string): string {
    match l
    case JustNow => "Just now"
    case SecondsAgo(n) => NatToString(n) + "s ago"
    case MinutesAgo(n) => NatToString(n) + "m ago"
    case ClockTime => clock
  }

  /** `formatTime(date)` with `diff = now - date` and `clock` the date's
      locale time. */
  function FormatTime(diff: int, clock: string): (text: string)
    ensures diff < 5000 ==> text == "Just now"
    ensures 5000 <= diff < 60_000 ==> text == NatToString(Classify(diff).seconds) + "s ago"
    ensures 60_000 <= diff < 3_600_000 ==> text == NatToString(Classify(diff).minutes) + "m ago"
    ensures 3_600_000 <= diff ==> text == clock
  {
    Render(Classify(diff), clock)
  }

  /** The order of the branches. */
  function Rank(l: Label): nat {
    match l
    case JustNow => 0
    case SecondsAgo(_) => 1
    case MinutesAgo(_) => 2
    case ClockTime => 3
  }

  /** The labels grow with the elapsed time: the branch never goes back,
      and within a branch the count never decreases. */
  lemma ClassifyMonotone(d1: int, d2: int)
    requires d1 <= d2
    ensures Rank(Classify(d1)) <= Rank(Classify(d2))
    ensures Classify(d1).SecondsAgo? && Classify(d2).SecondsAgo? ==>
      Classify(d1).seconds <= Classify(d2).seconds
    ensures Classify(d1).MinutesAgo? && Classify(d2).MinutesAgo? ==>
      Classify(d1).minutes <= Classify(d2).minutes
  {
  }

  /** The relative labels tell their elapsed times apart: two diffs that
      read the same, before the clock-time branch, fall in the same whole
      second (or the same whole minute). */
  lemma RelativeLabelsAreFaithful(d1: int, d2: int, clock: string)
    requires 5000 <= d1 < 3_600_000 && 5000 <= d2 < 3_600_000
    requires FormatTime(d1, clock) == FormatTime(d2, clock)
    ensures Classify(d1) == Classify(d2)
  {
    var l1, l2 := Classify(d1), Classify(d2);
    var t1, t2 := Render(l1, clock), Render(l2, clock);
    var n1 := if l1.SecondsAgo? then l1.seconds else l1.minutes;
    var n2 := if l2.SecondsAgo? then l2.seconds else l2.minutes;
    var s1, s2 := NatToString(n1), NatToString(n2);
    assert t1 == s1 + (if l1.SecondsAgo? then "s ago" else "m ago");
    assert t2 == s2 + (if l2.SecondsAgo? then "s ago" else "m ago");
    // The suffix is five characters; the digits before it are the count.
    assert |s1| == |s2| by {
      assert |t1| == |s1| + 5 && |t2| == |s2| + 5;
    }
    assert s1 == t1[..|s1|] && s2 == t2[..|s2|];
    assert t1[|s1|] == (if l1.SecondsAgo? then 's' else 'm');
    assert t2[|s2|] == (if l2.SecondsAgo? then 's' else 'm');
    NatToStringInjective(n1, n2);
  }
}
