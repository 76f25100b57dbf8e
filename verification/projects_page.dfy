/** The projects page: videos grouped by project label without regard to letter case, each
    group named by the first label seen, a search over group names, and per-project
    statistics. */
module ProjectsPage {
  import opened Wrappers
  import opened Text
  import opened Loom
  import opened Records
  import Seqs
  import Display

  /** One project: its display name, the videos that have developers, and the distinct
      non-empty recording types of those videos in order of first appearance. */
  datatype ProjectGroup = ProjectGroup(name: string, videos: seq<Video>, recordingTypes: seq<string>)

  predicate HasDevelopers(v: Video) {
    |v.analysis.developers| > 0
  }

  /** One visit of the grouping loop: a video without a project is skipped; a label seen for
      the first time (in any letter case) opens a group under that spelling; the video joins
      the group only when it has developers, and then adds its recording type, if any. */
  function AddVideo(m: Record<ProjectGroup>, v: Video): Record<ProjectGroup>
  {
    if v.project == "" then m
    else
      var key := ToLower(v.project);
      var m1 := if Get(m, key).None? then Set(m, key, ProjectGroup(v.project, [], [])) else m;
      var g := Get(m1, key).value;
      if HasDevelopers(v) then
        Set(m1, key, g.(videos := g.videos + [v],
                        recordingTypes := if v.recordingType != "" then Seqs.AddDistinct(g.recordingTypes, v.recordingType)
                                          else g.recordingTypes))
      else m1
  }

  /** The `projectMap` after visiting the videos in order. */
  function Group(videos: seq<Video>): (m: Record<ProjectGroup>)
    ensures ValidRecord(m)
  {
    if |videos| == 0 then [] else AddVideo(Group(videos[..|videos| - 1]), videos[|videos| - 1])
  }

  /** The `projects` memo: no videos give no projects; otherwise the groups in the order their
      labels first appeared. */
  function Projects(videos: seq<Video>): seq<ProjectGroup>
  {
    if |videos| == 0 then [] else Values(Group(videos))
  }

  // ---------------------------------------------------------------------------------------
  // A reference description of the groups

  /** The lower-cased non-empty project labels, one per video that has one. */
  function Labels(videos: seq<Video>): seq<string>
  {
    if |videos| == 0 then []
    else
      var v := videos[|videos| - 1];
      Labels(videos[..|videos| - 1]) + (if v.project != "" then [ToLower(v.project)] else [])
  }

  /** The spelling of the earliest video whose label lower-cases to `key`. */
  function FirstLabel(videos: seq<Video>, key: string): Option<string>
  {
    if |videos| == 0 then None
    else
      var v := videos[|videos| - 1];
      var earlier := FirstLabel(videos[..|videos| - 1], key);
      if earlier.Some? then earlier
      else if v.project != "" && ToLower(v.project) == key then Some(v.project)
      else None
  }

  /** The videos with developers whose label lower-cases to `key`, in list order. */
  function VideosUnder(videos: seq<Video>, key: string): seq<Video>
  {
    if |videos| == 0 then []
    else
      var v := videos[|videos| - 1];
      VideosUnder(videos[..|videos| - 1], key) +
        (if v.project != "" && ToLower(v.project) == key && HasDevelopers(v) then [v] else [])
  }

  /** The non-empty recording types of some videos, one per video that has one. */
  function TypesOf(videos: seq<Video>): seq<string>
  {
    if |videos| == 0 then []
    else
      var v := videos[|videos| - 1];
      TypesOf(videos[..|videos| - 1]) + (if v.recordingType != "" then [v.recordingType] else [])
  }

  lemma DedupSnoc(xs: seq<string>, x: string)
    ensures Seqs.Dedup(xs + [x]) == Seqs.AddDistinct(Seqs.Dedup(xs), x)
  {
    assert (xs + [x])[..|xs|] == xs;
  }

  lemma TypesOfSnoc(vs: seq<Video>, v: Video)
    ensures TypesOf(vs + [v]) == TypesOf(vs) + (if v.recordingType != "" then [v.recordingType] else [])
  {
    assert (vs + [v])[..|vs|] == vs;
  }

  /** A label never seen has no videos and no first spelling. */
  lemma {:induction false} UnseenLabel(videos: seq<Video>, key: string)
    requires key !in Labels(videos)
    ensures VideosUnder(videos, key) == [] && FirstLabel(videos, key).None?
    decreases |videos|
  {
    if |videos| > 0 {
      UnseenLabel(videos[..|videos| - 1], key);
    }
  }

  /** A first spelling exists exactly for the labels seen, and it lower-cases to the label. */
  lemma {:induction false} FirstLabelSpec(videos: seq<Video>, key: string)
    ensures FirstLabel(videos, key).Some? <==> key in Labels(videos)
    ensures FirstLabel(videos, key).Some? ==> ToLower(FirstLabel(videos, key).value) == key
    decreases |videos|
  {
    if |videos| > 0 {
      FirstLabelSpec(videos[..|videos| - 1], key);
    }
  }

  /** What the group under `key` should hold after visiting `videos`. */
  ghost predicate GroupDescribes(g: ProjectGroup, videos: seq<Video>, key: string) {
    && Some(g.name) == FirstLabel(videos, key)
    && g.videos == VideosUnder(videos, key)
    && g.recordingTypes == Seqs.Dedup(TypesOf(g.videos))
  }

  /** A visit under `key` keeps the group's description true. */
  lemma AddVideoSame(m: Record<ProjectGroup>, init: seq<Video>, v: Video)
    requires v.project != ""
    requires ValidRecord(m)
    requires Get(m, ToLower(v.project)).Some? <==> ToLower(v.project) in Labels(init)
    requires Get(m, ToLower(v.project)).Some? ==> GroupDescribes(Get(m, ToLower(v.project)).value, init, ToLower(v.project))
    ensures Get(AddVideo(m, v), ToLower(v.project)).Some?
    ensures GroupDescribes(Get(AddVideo(m, v), ToLower(v.project)).value, init + [v], ToLower(v.project))
  {
    var key := ToLower(v.project);
    var vs := init + [v];
    assert vs[..|vs| - 1] == init;
    if Get(m, key).None? {
      UnseenLabel(init, key);
      assert Seqs.Dedup(TypesOf([])) == [];
    }
    var m1 := if Get(m, key).None? then Set(m, key, ProjectGroup(v.project, [], [])) else m;
    var g := Get(m1, key).value;
    assert GroupDescribes(g, init, key) || (g == ProjectGroup(v.project, [], []) && VideosUnder(init, key) == []);
    if HasDevelopers(v) {
      TypesOfSnoc(g.videos, v);
      DedupSnoc(TypesOf(g.videos), v.recordingType);
      assert TypesOf(g.videos + [v]) == TypesOf(g.videos) + (if v.recordingType != "" then [v.recordingType] else []);
      if v.recordingType == "" {
        assert TypesOf(g.videos) + [] == TypesOf(g.videos);
      }
    }
  }

  /** A visit under another label, or without a label, leaves a group as it was. */
  lemma AddVideoOther(m: Record<ProjectGroup>, v: Video, key: string)
    requires v.project == "" || ToLower(v.project) != key
    ensures Get(AddVideo(m, v), key) == Get(m, key)
  {
  }

  /** A visit adds its label to the keys when it is new, and otherwise keeps them. */
  lemma AddVideoKeys(m: Record<ProjectGroup>, v: Video)
    ensures Keys(AddVideo(m, v)) == if v.project == "" then Keys(m) else Seqs.AddDistinct(Keys(m), ToLower(v.project))
  {
  }

  lemma LabelsSnoc(init: seq<Video>, v: Video)
    ensures Labels(init + [v]) == Labels(init) + (if v.project != "" then [ToLower(v.project)] else [])
    ensures FirstLabel(init + [v], ToLower(v.project)) ==
              if FirstLabel(init, ToLower(v.project)).Some? then FirstLabel(init, ToLower(v.project))
              else if v.project != "" then Some(v.project) else None
    ensures Group(init + [v]) == AddVideo(Group(init), v)
  {
    assert (init + [v])[..|init|] == init;
  }

  /** One step of the grouping loop, for the label the visit does not touch. */
  lemma GroupStepOther(init: seq<Video>, v: Video, key: string)
    requires v.project == "" || ToLower(v.project) != key
    ensures Get(Group(init + [v]), key) == Get(Group(init), key)
    ensures (key in Labels(init + [v])) == (key in Labels(init))
    ensures FirstLabel(init + [v], key) == FirstLabel(init, key)
    ensures VideosUnder(init + [v], key) == VideosUnder(init, key)
  {
    var vs := init + [v];
    assert vs[..|vs| - 1] == init;
    LabelsSnoc(init, v);
    AddVideoOther(Group(init), v, key);
    assert VideosUnder(vs, key) == VideosUnder(init, key) + [];
  }

  /** The grouping is the reference description: a group exists under `key` exactly when some
      video's label lower-cases to `key`; it is named by the first such label, holds exactly
      those of the videos that have developers, in order, and their distinct recording types
      in order of first appearance. */
  lemma {:induction false} GroupSpec(videos: seq<Video>, key: string)
    ensures Get(Group(videos), key).Some? <==> key in Labels(videos)
    ensures Get(Group(videos), key).Some? ==> GroupDescribes(Get(Group(videos), key).value, videos, key)
    decreases |videos|
  {
    if |videos| > 0 {
      var init := videos[..|videos| - 1];
      var v := videos[|videos| - 1];
      assert videos == init + [v];
      GroupSpec(init, key);
      if v.project != "" && ToLower(v.project) == key {
        LabelsSnoc(init, v);
        AddVideoSame(Group(init), init, v);
      } else {
        GroupStepOther(init, v, key);
      }
    }
  }

  /** The groups come in the order their labels first appeared, one per label. */
  lemma {:induction false} GroupKeys(videos: seq<Video>)
    ensures Keys(Group(videos)) == Seqs.Dedup(Labels(videos))
    decreases |videos|
  {
    if |videos| > 0 {
      var init := videos[..|videos| - 1];
      var v := videos[|videos| - 1];
      assert videos == init + [v];
      GroupKeys(init);
      LabelsSnoc(init, v);
      AddVideoKeys(Group(init), v);
      if v.project != "" {
        DedupSnoc(Labels(init), ToLower(v.project));
      } else {
        assert Labels(videos) == Labels(init);
      }
    }
  }

  /** The projects listed are one per distinct label, in order of first appearance, each
      described by the reference: first spelling, its videos with developers, and their
      distinct recording types. */
  lemma ProjectsSpec(videos: seq<Video>)
    ensures var ps := Projects(videos);
            var labels := Seqs.Dedup(Labels(videos));
            && |ps| == |labels|
            && forall i :: 0 <= i < |ps| ==>
                 && Some(ps[i].name) == FirstLabel(videos, labels[i])
                 && ToLower(ps[i].name) == labels[i]
                 && ps[i].videos == VideosUnder(videos, labels[i])
                 && ps[i].recordingTypes == Seqs.Dedup(TypesOf(ps[i].videos))
  {
    var m := Group(videos);
    GroupKeys(videos);
    var labels := Seqs.Dedup(Labels(videos));
    if |videos| == 0 {
      assert Labels(videos) == [];
    }
    forall i | 0 <= i < |m|
      ensures Some(m[i].value.name) == FirstLabel(videos, labels[i])
      ensures ToLower(m[i].value.name) == labels[i]
      ensures m[i].value.videos == VideosUnder(videos, labels[i])
      ensures m[i].value.recordingTypes == Seqs.Dedup(TypesOf(m[i].value.videos))
    {
      GetEntry(m, i);
      assert Keys(m)[i] == labels[i];
      GroupSpec(videos, labels[i]);
      FirstLabelSpec(videos, labels[i]);
    }
  }

  /** A project whose only video has no developers is still listed, with no videos. */
  lemma ProjectWithoutDevelopersListed(v: Video)
    requires v.project != "" && !HasDevelopers(v)
    ensures Projects([v]) == [ProjectGroup(v.project, [], [])]
  {
    assert [v][..0] == [];
    assert Group([v]) == AddVideo([], v);
    assert AddVideo([], v) == [Entry(ToLower(v.project), ProjectGroup(v.project, [], []))];
  }

  // ---------------------------------------------------------------------------------------
  // Search

  predicate NameMatches(p: ProjectGroup, query: string) {
    Contains(ToLower(p.name), ToLower(query))
  }

  /** `filteredProjects`: every project for the empty query; otherwise those whose lower-cased
      name contains the lower-cased query, in order. Only the empty string counts as no query:
      it is not trimmed. */
  function FilterProjects(projects: seq<ProjectGroup>, query: string): (r: seq<ProjectGroup>)
    ensures query == "" ==> r == projects
    ensures Seqs.IsSubsequence(r, projects)
    ensures query != "" ==> forall p :: p in r <==> p in projects && NameMatches(p, query)
  {
    if query == "" then Seqs.SubsequenceRefl(projects); projects
    else Seqs.Filter(p => NameMatches(p, query), projects)
  }

  /** Unlike the developers page, a query of one space is a search: it hides every project
      whose name has no space. */
  lemma SpaceQueryHidesProjects()
    ensures FilterProjects([ProjectGroup("Loom", [], [])], " ") == []
  {
    var p := ProjectGroup("Loom", [], []);
    assert ToLower("Loom") == "loom";
    assert !NameMatches(p, " ") by {
      var l := ToLower(p.name);
      assert ToLower(" ") == " " by {
        assert |ToLower(" ")| == 1 && ToLower(" ")[0] == ' ';
      }
      forall i
        ensures !OccursAt(l, " ", i)
      {
        if 0 <= i && i + 1 <= |l| {
          assert l[i..i + 1][0] == l[i] == LowerChar("Loom"[i]);
        }
      }
    }
  }

  // ---------------------------------------------------------------------------------------
  // Statistics

  datatype ProjectStats = ProjectStats(
    videoCount: nat, taskCount: nat, completedTaskCount: nat, devCount: nat,
    recordingTypeCounts: Record<nat>, completionPercentage: nat)

  /** Every developer name of every video, in order, the empty name included. */
  function AllNames(videos: seq<Video>): seq<string>
  {
    if |videos| == 0 then []
    else AllNames(videos[..|videos| - 1]) + Names(videos[|videos| - 1].analysis.developers)
  }

  /** The tasks of every video, video by video. */
  function ProjectTasks(videos: seq<Video>): seq<Task>
  {
    if |videos| == 0 then []
    else ProjectTasks(videos[..|videos| - 1]) + AllTasks(videos[|videos| - 1].analysis.developers)
  }

  function VideoTasks(videos: seq<Video>): (n: nat)
    ensures n == |ProjectTasks(videos)|
  {
    if |videos| == 0 then 0
    else VideoTasks(videos[..|videos| - 1]) + TaskTotal(videos[|videos| - 1].analysis.developers)
  }

  function VideoDone(videos: seq<Video>): (n: nat)
    ensures n == CountDone(ProjectTasks(videos), DoneUpper)
  {
    if |videos| == 0 then 0
    else
      var init := videos[..|videos| - 1];
      var devs := videos[|videos| - 1].analysis.developers;
      CountDoneAppend(ProjectTasks(init), AllTasks(devs), DoneUpper);
      VideoDone(init) + DoneTotal(devs, DoneUpper)
  }

  /** `recordingTypeCounts`: one counter per non-empty recording type. */
  function TypeCounts(videos: seq<Video>): (m: Record<nat>)
    ensures ValidRecord(m)
  {
    if |videos| == 0 then []
    else
      var m := TypeCounts(videos[..|videos| - 1]);
      var t := videos[|videos| - 1].recordingType;
      if t != "" then CountIn(m, t) else m
  }

  /** The counter of `t` goes up by one, starting from zero. */
  function CountIn(m: Record<nat>, t: string): (r: Record<nat>)
    ensures SumValues(r) == SumValues(m) + 1
  {
    var n := Get(m, t).GetOr(0) + 1;
    SumValuesSet(m, t, n);
    Set(m, t, n)
  }

  /** `getProjectStats`. Tasks are counted done by their `Completed` flag; the developer count
      is the number of distinct names, the empty name included. */
  function Stats(g: ProjectGroup): (s: ProjectStats)
    ensures s.videoCount == |g.videos|
    ensures s.devCount == |set n | n in AllNames(g.videos)|
    ensures s.taskCount == |ProjectTasks(g.videos)|
    ensures s.completedTaskCount == CountDone(ProjectTasks(g.videos), DoneUpper)
    ensures s.completionPercentage == Display.Percentage(s.completedTaskCount, s.taskCount)
    ensures s.taskCount == 0 ==> s.completionPercentage == 0
    ensures s.completedTaskCount <= s.taskCount
    ensures s.completionPercentage <= 100
  {
    DoneWithinTasks(g.videos);
    ProjectStats(
      |g.videos|, VideoTasks(g.videos), VideoDone(g.videos), Seqs.DistinctCount(AllNames(g.videos)),
      TypeCounts(g.videos), Display.Percentage(VideoDone(g.videos), VideoTasks(g.videos)))
  }

  lemma {:induction false} DoneWithinTasks(videos: seq<Video>)
    ensures VideoDone(videos) <= VideoTasks(videos)
    decreases |videos|
  {
    if |videos| > 0 {
      DoneWithinTasks(videos[..|videos| - 1]);
      DoneTotalBound(videos[|videos| - 1].analysis.developers, DoneUpper);
    }
  }

  /** The number of videos of a given recording type. */
  function CountType(videos: seq<Video>, t: string): nat
  {
    if |videos| == 0 then 0
    else CountType(videos[..|videos| - 1], t) + (if videos[|videos| - 1].recordingType == t then 1 else 0)
  }

  /** The sum of the values of a record of counters. */
  function SumValues(m: Record<nat>): nat
  {
    if |m| == 0 then 0 else m[0].value + SumValues(m[1..])
  }

  lemma {:induction false} SumValuesSet(m: Record<nat>, k: string, v: nat)
    ensures SumValues(Set(m, k, v)) + Get(m, k).GetOr(0) == SumValues(m) + v
    decreases |m|
  {
    if |m| > 0 && m[0].key != k {
      SumValuesSet(m[1..], k, v);
      assert Set(m, k, v) == [m[0]] + Set(m[1..], k, v);
      assert ([m[0]] + Set(m[1..], k, v))[1..] == Set(m[1..], k, v);
    }
  }

  lemma TypeCountsSnoc(init: seq<Video>, v: Video)
    ensures TypeCounts(init + [v]) ==
              if v.recordingType != "" then CountIn(TypeCounts(init), v.recordingType) else TypeCounts(init)
  {
    assert (init + [v])[..|init|] == init;
  }

  lemma CountTypeSnoc(init: seq<Video>, v: Video, t: string)
    ensures CountType(init + [v], t) == CountType(init, t) + (if v.recordingType == t then 1 else 0)
  {
    assert (init + [v])[..|init|] == init;
  }

  /** Each non-empty recording type maps to the number of videos of that type, and no other
      key is present. */
  lemma {:induction false} TypeCountsGet(videos: seq<Video>, t: string)
    ensures Get(TypeCounts(videos), t) == if t != "" && CountType(videos, t) > 0 then Some(CountType(videos, t)) else None
    decreases |videos|
  {
    if |videos| > 0 {
      var init := videos[..|videos| - 1];
      var v := videos[|videos| - 1];
      assert videos == init + [v];
      TypeCountsGet(init, t);
      TypeCountsGet(init, v.recordingType);
      TypeCountsSnoc(init, v);
      CountTypeSnoc(init, v, t);
    }
  }

  /** The counters are listed in order of first appearance of their recording type. */
  lemma {:induction false} TypeCountsKeys(videos: seq<Video>)
    ensures Keys(TypeCounts(videos)) == Seqs.Dedup(TypesOf(videos))
    decreases |videos|
  {
    if |videos| > 0 {
      var init := videos[..|videos| - 1];
      var v := videos[|videos| - 1];
      assert videos == init + [v];
      TypeCountsKeys(init);
      TypeCountsSnoc(init, v);
      TypesOfSnoc(init, v);
      if v.recordingType != "" {
        DedupSnoc(TypesOf(init), v.recordingType);
      } else {
        assert TypesOf(videos) == TypesOf(init);
      }
    }
  }

  /** The counters add up to the number of videos that have a recording type. */
  lemma {:induction false} TypeCountsSum(videos: seq<Video>)
    ensures SumValues(TypeCounts(videos)) == |TypesOf(videos)|
    decreases |videos|
  {
    if |videos| > 0 {
      var init := videos[..|videos| - 1];
      var v := videos[|videos| - 1];
      assert videos == init + [v];
      TypeCountsSum(init);
      TypeCountsSumStep(init, v);
    }
  }

  /** One more video adds one to the counters exactly when it has a recording type. */
  lemma TypeCountsSumStep(init: seq<Video>, v: Video)
    requires SumValues(TypeCounts(init)) == |TypesOf(init)|
    ensures SumValues(TypeCounts(init + [v])) == |TypesOf(init + [v])|
  {
    TypeCountsSnoc(init, v);
    TypesOfSnoc(init, v);
  }

}
