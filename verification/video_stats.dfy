/** The statistics panel of one video. Unlike the card, it counts a task as done by the
    lower-case `completed` field that saving writes, and it counts developers by distinct name. */
module VideoStats {
  import opened Wrappers
  import opened Loom
  import Seqs
  import Display
  import LoomContext

  datatype StatsView = StatsView(
    totalTasks: nat, completedTasks: nat, percentage: nat, uniqueDevelopers: nat, duration: string)

  /** `formattedDuration` */
  function FormatDuration(d: Duration): (r: string)
    ensures d.Formatted? ==> r == d.text
    ensures d.Seconds? ==> Display.ParseClock(r) == Some((d.seconds / 60, d.seconds % 60))
  {
    match d
    case Seconds(n) => Display.ClockRoundTrip(n); Display.Clock(n)
    case Formatted(t) => t
  }

  /** The panel for a video, nothing for no video. A number of seconds is shown as a clock
      without any millisecond guess; text is shown as it is. */
  function Stats(video: Option<Video>): (r: Option<StatsView>)
    ensures video.None? <==> r.None?
    ensures r.Some? ==> r.value.totalTasks == TaskTotal(video.value.analysis.developers)
    ensures r.Some? ==> r.value.completedTasks == DoneTotal(video.value.analysis.developers, DoneLower)
    ensures r.Some? ==> r.value.percentage == Display.Percentage(r.value.completedTasks, r.value.totalTasks)
    ensures r.Some? && r.value.totalTasks == 0 ==> r.value.percentage == 0
    ensures r.Some? ==> r.value.completedTasks <= r.value.totalTasks && r.value.percentage <= 100
    ensures r.Some? ==> r.value.uniqueDevelopers <= |video.value.analysis.developers|
    ensures r.Some? ==> r.value.uniqueDevelopers == |set n | n in Names(video.value.analysis.developers)|
    ensures r.Some? && video.value.duration.Formatted? ==> r.value.duration == video.value.duration.text
    ensures r.Some? && video.value.duration.Seconds? ==>
              Display.ParseClock(r.value.duration) ==
                Some((video.value.duration.seconds / 60, video.value.duration.seconds % 60))
  {
    match video
    case None => None
    case Some(v) =>
      var devs := v.analysis.developers;
      var total := TaskTotal(devs);
      var done := DoneTotal(devs, DoneLower);
      DoneTotalBound(devs, DoneLower);
      var duration := FormatDuration(v.duration);
      Some(StatsView(total, done, Display.Percentage(done, total), Seqs.DistinctCount(Names(devs)), duration))
  }

  /** A freshly analysed video carries no lower-case `completed` field, so the panel shows no
      task done even when the card, reading `Completed`, shows every task done. */
  lemma PanelAndCardDisagree()
    ensures var t := Task("Ship it", "00:10", true, None);
            var v := Video("v", "", "", "", "", Seconds(0), Analysis("", [Developer("Ana", [t])]),
                           Columns("", "", "", "", "", 0, "", ""));
            && Stats(Some(v)).value.completedTasks == 0
            && DoneTotal(v.analysis.developers, DoneUpper) == 1
  {
  }

  /** After a save, the panel counts as done exactly the tasks whose last completion change
      marked them done, or that were already marked so in the lower-case field and not changed. */
  lemma PanelCountsSavedCompletions(v: Video, completionUpdates: seq<LoomContext.TaskUpdate>, d: nat, i: nat)
    requires d < |v.analysis.developers| && i < |v.analysis.developers[d].tasks|
    ensures var r := LoomContext.UpdateVideo(v, completionUpdates, []);
            var cs := LoomContext.ChangesAt(v.analysis.developers, completionUpdates, d, i);
            DoneLower(r.analysis.developers[d].tasks[i]) <==>
              (if LoomContext.LastCompleted(cs).Some? then LoomContext.LastCompleted(cs) == Some(true)
               else DoneLower(v.analysis.developers[d].tasks[i]))
  {
    LoomContext.UpdateVideoSpec(v, completionUpdates, []);
    assert completionUpdates + [] == completionUpdates;
  }
}
