/** The summary card of one video on the dashboard: task counters read from the upper-case
    `Completed` flag, the completion percentage, the duration, and the developer avatars. */
module LoomVideoCard {
  import opened Wrappers
  import opened Text
  import opened Loom
  import Display

  /** What the card shows. */
  datatype CardView = CardView(
    totalTasks: nat, completedTasks: nat, percentage: nat, duration: string,
    avatars: seq<string>, overflow: Option<string>, developerLabel: string)

  /** `Math.trunc`, which JavaScript's `%` uses for its quotient. */
  function Trunc(x: real): (t: int)
    ensures x >= 0.0 ==> t == x.Floor
    ensures x < 0.0 ==> t == -((-x).Floor)
  {
    if x >= 0.0 then x.Floor else -((-x).Floor)
  }

  /** The card's `formatDuration`. A number is shown as a clock. Text goes through
      `parseFloat`, whose result is the input `parsed` (`None` for `NaN`); unparsable text is
      shown as it is, and a parsed number as a clock of its floored minutes and floored
      remainder, signs included. */
  function FormatDuration(d: Duration, parsed: Option<real>): (r: string)
    ensures d.Formatted? && parsed.None? ==> r == d.text
    ensures d.Formatted? && parsed.Some? && parsed.value >= 0.0 ==>
              r == Display.Clock(parsed.value.Floor)
  {
    match d
    case Seconds(n) => Display.Clock(n)
    case Formatted(t) =>
      match parsed
      case None => t
      case Some(x) =>
        var minutes := (x / 60.0).Floor;
        var remainder := (x - 60.0 * (Trunc(x / 60.0) as real)).Floor;
        FloorFacts(x);
        IntToString(minutes) + ":" + Display.PadTwo(IntToString(remainder))
  }

  /** For a non-negative real, flooring commutes with the division into minutes and seconds. */
  lemma FloorFacts(x: real)
    ensures x >= 0.0 ==> (x / 60.0).Floor == x.Floor / 60
    ensures x >= 0.0 ==> (x - 60.0 * (Trunc(x / 60.0) as real)).Floor == x.Floor % 60
  {
    if x >= 0.0 {
      var n: nat := x.Floor;
      var q := n / 60;
      var m := n % 60;
      assert n as real <= x < n as real + 1.0;
      assert q as real * 60.0 <= x / 60.0 * 60.0;
      assert (q as real) <= x / 60.0 < (q + 1) as real;
      assert Trunc(x / 60.0) == q;
      assert m as real <= x - 60.0 * (q as real) < (m + 1) as real;
    }
  }

  /** The text of a stored number of seconds reads back as the same clock the number gives. */
  lemma WholeSecondsTextAgrees(text: string, n: nat)
    ensures FormatDuration(Formatted(text), Some(n as real)) == FormatDuration(Seconds(n), None)
  {
  }

  /** `dev.Dev.substring(0, 2).toUpperCase()` */
  function Initials(name: string): (r: string)
    ensures |r| == if |name| < 2 then |name| else 2
    ensures forall i :: 0 <= i < |r| ==> r[i] == UpperChar(name[i])
  {
    ToUpper(if |name| < 2 then name else name[..2])
  }

  /** One avatar for each of the first three developers, in order. */
  function Avatars(devs: seq<Developer>): (r: seq<string>)
    ensures |r| == if |devs| < 3 then |devs| else 3
    ensures forall i :: 0 <= i < |r| ==> r[i] == Initials(devs[i].name)
  {
    var shown := if |devs| < 3 then devs else devs[..3];
    seq(|shown|, i requires 0 <= i < |shown| => Initials(shown[i].name))
  }

  /** The `+n` badge for the developers beyond the third. */
  function Overflow(count: nat): (r: Option<string>)
    ensures r.Some? <==> count > 3
  {
    if count > 3 then Some("+" + NatToString(count - 3)) else None
  }

  /** "1 developer", "n developers" otherwise. */
  function DeveloperLabel(count: nat): (r: string)
    ensures r == NatToString(count) + " developer" || r == NatToString(count) + " developers"
    ensures r == NatToString(count) + " developer" <==> count == 1
  {
    NatToString(count) + " " + (if count == 1 then "developer" else "developers")
  }

  /** The card for a video, given what `parseFloat` reads from a textual duration. */
  function Card(v: Video, parsedDuration: Option<real>): (r: CardView)
    ensures r.totalTasks == TaskTotal(v.analysis.developers)
    ensures r.completedTasks == DoneTotal(v.analysis.developers, DoneUpper)
    ensures r.percentage == Display.Percentage(r.completedTasks, r.totalTasks)
    ensures r.completedTasks <= r.totalTasks && r.percentage <= 100
    ensures r.totalTasks == 0 ==> r.percentage == 0
    ensures r.completedTasks == r.totalTasks && r.totalTasks > 0 ==> r.percentage == 100
    ensures |r.avatars| <= |v.analysis.developers|
  {
    var devs := v.analysis.developers;
    var total := TaskTotal(devs);
    var done := DoneTotal(devs, DoneUpper);
    DoneTotalBound(devs, DoneUpper);
    Display.PercentageEnds(total);
    CardView(total, done, Display.Percentage(done, total), FormatDuration(v.duration, parsedDuration),
             Avatars(devs), Overflow(|devs|), DeveloperLabel(|devs|))
  }

  /** Every developer is shown: by an avatar, or counted in the overflow badge, which reads
      the number of developers beyond the avatars. */
  lemma EveryDeveloperShown(v: Video, parsedDuration: Option<real>)
    ensures var c := Card(v, parsedDuration);
            var n := |v.analysis.developers|;
            && (c.overflow.None? ==> |c.avatars| == n)
            && (c.overflow.Some? ==> c.overflow.value == "+" + NatToString(n - |c.avatars|))
  {
  }
}
