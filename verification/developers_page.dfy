/** The developers page: every named developer across all videos, with the tasks assigned to
    that name in every video, the completed count, the completion rate and the projects worked
    on, sorted by name and filtered by a search query. */
module DevelopersPage {
  import opened Wrappers
  import opened Text
  import opened Loom
  import opened Records
  import Seqs
  import Sorting
  import Display

  /** A task together with where it came from: `{...task, videoId, project, taskIndex}`. The
      project is the video's own `project` column. */
  datatype TaggedTask = TaggedTask(task: Task, videoId: string, project: string, taskIndex: nat)

  /** One entry of the map being built. */
  datatype Rollup = Rollup(name: string, tasks: seq<TaggedTask>, completedTasks: nat, projects: seq<string>)

  /** One row of the page. */
  datatype DeveloperRow = DeveloperRow(
    name: string, tasks: seq<TaggedTask>, completedTasks: nat, completionRate: nat, projects: seq<string>)

  /** A developer entry of a video, with its video: the order in which the loops visit them. */
  datatype Appearance = Appearance(video: Video, dev: Developer)

  function AppearancesIn(v: Video): (r: seq<Appearance>)
    ensures |r| == |v.analysis.developers|
    ensures forall i :: 0 <= i < |r| ==> r[i] == Appearance(v, v.analysis.developers[i])
  {
    seq(|v.analysis.developers|, i requires 0 <= i < |v.analysis.developers| => Appearance(v, v.analysis.developers[i]))
  }

  /** Every developer entry of every video, videos in list order. */
  function Appearances(videos: seq<Video>): seq<Appearance>
  {
    if |videos| == 0 then [] else Appearances(videos[..|videos| - 1]) + AppearancesIn(videos[|videos| - 1])
  }

  /** The tasks of one developer entry, tagged with their video and position. */
  function Tagged(v: Video, tasks: seq<Task>): (r: seq<TaggedTask>)
    ensures |r| == |tasks|
    ensures forall i :: 0 <= i < |tasks| ==> r[i] == TaggedTask(tasks[i], v.id, v.project, i)
  {
    seq(|tasks|, i requires 0 <= i < |tasks| => TaggedTask(tasks[i], v.id, v.project, i))
  }

  /** The inner `forEach` over one developer entry's tasks: each task is pushed tagged, a done
      one (by `Completed`) counted, and the video's project, when it has one, added to the
      project set once per task. */
  function AddAppearance(r: Rollup, a: Appearance): Rollup
  {
    r.(tasks := r.tasks + Tagged(a.video, a.dev.tasks),
       completedTasks := r.completedTasks + CountDone(a.dev.tasks, DoneUpper),
       projects := if a.video.project != "" && |a.dev.tasks| > 0 then Seqs.AddDistinct(r.projects, a.video.project) else r.projects)
  }

  /** The `devMap` after visiting the appearances in order; entries with an empty name are
      skipped, and a name seen for the first time gets an empty entry. */
  function Collect(apps: seq<Appearance>): (m: Record<Rollup>)
    ensures ValidRecord(m)
  {
    if |apps| == 0 then []
    else
      var m := Collect(apps[..|apps| - 1]);
      var a := apps[|apps| - 1];
      if a.dev.name == "" then m
      else Set(m, a.dev.name, AddAppearance(Get(m, a.dev.name).GetOr(Rollup(a.dev.name, [], 0, [])), a))
  }

  // ---------------------------------------------------------------------------------------
  // A reference description of one developer's entry

  /** The name occurs among the visited developer entries. */
  predicate Appears(apps: seq<Appearance>, name: string) {
    exists j :: 0 <= j < |apps| && apps[j].dev.name == name
  }

  /** The tagged tasks of every entry with this name, in visiting order. */
  function TasksOf(apps: seq<Appearance>, name: string): seq<TaggedTask>
  {
    if |apps| == 0 then []
    else
      var a := apps[|apps| - 1];
      TasksOf(apps[..|apps| - 1], name) + (if a.dev.name == name then Tagged(a.video, a.dev.tasks) else [])
  }

  function CountTaggedDone(ts: seq<TaggedTask>): (n: nat)
    ensures n <= |ts|
  {
    if |ts| == 0 then 0 else CountTaggedDone(ts[..|ts| - 1]) + (if ts[|ts| - 1].task.Completed then 1 else 0)
  }

  /** What an entry should hold: its name, the tasks of that name, as many done as those tasks
      have, and each non-empty project label of those tasks, once. */
  ghost predicate Describes(r: Rollup, apps: seq<Appearance>, name: string) {
    && r.name == name
    && r.tasks == TasksOf(apps, name)
    && r.completedTasks == CountTaggedDone(r.tasks)
    && Seqs.Distinct(r.projects)
    && (forall p :: p in r.projects <==> p != "" && exists j :: 0 <= j < |r.tasks| && r.tasks[j].project == p)
  }

  lemma {:induction false} CountTaggedDoneAppend(a: seq<TaggedTask>, b: seq<TaggedTask>)
    ensures CountTaggedDone(a + b) == CountTaggedDone(a) + CountTaggedDone(b)
    decreases |b|
  {
    if |b| == 0 {
      assert a + b == a;
    } else {
      assert (a + b)[..|a + b| - 1] == a + b[..|b| - 1];
      CountTaggedDoneAppend(a, b[..|b| - 1]);
    }
  }

  lemma {:induction false} CountTaggedOfTasks(v: Video, tasks: seq<Task>)
    ensures CountTaggedDone(Tagged(v, tasks)) == CountDone(tasks, DoneUpper)
    decreases |tasks|
  {
    if |tasks| > 0 {
      var init := tasks[..|tasks| - 1];
      var last := tasks[|tasks| - 1];
      assert Tagged(v, tasks)[..|tasks| - 1] == Tagged(v, init);
      CountTaggedOfTasks(v, init);
      assert init + [last] == tasks;
      CountDoneAppend(init, [last], DoneUpper);
      assert [last][1..] == [];
    }
  }

  /** One visit keeps the description true. */
  lemma AddAppearanceDescribes(r: Rollup, apps: seq<Appearance>, a: Appearance)
    requires a.dev.name != "" && Describes(r, apps, a.dev.name)
    ensures Describes(AddAppearance(r, a), apps + [a], a.dev.name)
  {
    var name := a.dev.name;
    var r' := AddAppearance(r, a);
    var added := Tagged(a.video, a.dev.tasks);
    assert (apps + [a])[..|apps + [a]| - 1] == apps;
    assert TasksOf(apps + [a], name) == r.tasks + added;
    CountTaggedDoneAppend(r.tasks, added);
    CountTaggedOfTasks(a.video, a.dev.tasks);
    forall p
      ensures p in r'.projects <==> p != "" && exists j :: 0 <= j < |r'.tasks| && r'.tasks[j].project == p
    {
      if p != "" && exists j :: 0 <= j < |r'.tasks| && r'.tasks[j].project == p {
        var j :| 0 <= j < |r'.tasks| && r'.tasks[j].project == p;
        if j < |r.tasks| {
          assert r.tasks[j].project == p;
        } else {
          assert added[j - |r.tasks|].project == a.video.project;
        }
      }
      if p in r.projects {
        var j :| 0 <= j < |r.tasks| && r.tasks[j].project == p;
        assert r'.tasks[j] == r.tasks[j];
      }
      if p in r'.projects && p !in r.projects {
        assert r'.tasks[|r.tasks|] == added[0];
      }
    }
  }

  /** A name that does not occur has no tasks. */
  lemma {:induction false} TasksOfAbsent(apps: seq<Appearance>, name: string)
    requires !Appears(apps, name)
    ensures TasksOf(apps, name) == []
    decreases |apps|
  {
    if |apps| > 0 {
      assert !Appears(apps[..|apps| - 1], name) by {
        assert forall j :: 0 <= j < |apps| - 1 ==> apps[..|apps| - 1][j] == apps[j];
      }
      TasksOfAbsent(apps[..|apps| - 1], name);
    }
  }

  /** A visit of another name changes neither that name's entry nor its tasks. */
  lemma CollectStepOther(init: seq<Appearance>, a: Appearance, name: string)
    requires a.dev.name != name
    ensures Get(Collect(init + [a]), name) == Get(Collect(init), name)
    ensures TasksOf(init + [a], name) == TasksOf(init, name)
  {
    var apps := init + [a];
    assert apps[..|apps| - 1] == init;
    assert TasksOf(apps, name) == TasksOf(init, name) + [];
  }

  /** A visit of a named developer leaves its entry describing it. */
  lemma CollectStepSame(init: seq<Appearance>, a: Appearance)
    requires a.dev.name != ""
    requires Get(Collect(init), a.dev.name).Some? <==> Appears(init, a.dev.name)
    requires Get(Collect(init), a.dev.name).Some? ==> Describes(Get(Collect(init), a.dev.name).value, init, a.dev.name)
    ensures Get(Collect(init + [a]), a.dev.name).Some?
    ensures Describes(Get(Collect(init + [a]), a.dev.name).value, init + [a], a.dev.name)
  {
    var apps := init + [a];
    var name := a.dev.name;
    assert apps[..|apps| - 1] == init;
    var m := Collect(init);
    var start := Get(m, name).GetOr(Rollup(name, [], 0, []));
    if Get(m, name).None? {
      TasksOfAbsent(init, name);
    }
    AddAppearanceDescribes(start, init, a);
  }

  lemma AppearsSnoc(init: seq<Appearance>, a: Appearance, name: string)
    ensures Appears(init + [a], name) <==> Appears(init, name) || a.dev.name == name
  {
    var apps := init + [a];
    assert forall j :: 0 <= j < |init| ==> init[j] == apps[j];
    assert apps[|init|] == a;
  }

  /** The map is the reference description: the empty name has no entry, and any other name
      has an entry exactly when it occurs, which then describes it. */
  lemma {:induction false} CollectSpec(apps: seq<Appearance>, name: string)
    ensures name == "" ==> Get(Collect(apps), name).None?
    ensures name != "" ==> (Get(Collect(apps), name).Some? <==> Appears(apps, name))
    ensures Get(Collect(apps), name).Some? ==> Describes(Get(Collect(apps), name).value, apps, name)
    decreases |apps|
  {
    if |apps| > 0 {
      var init := apps[..|apps| - 1];
      var a := apps[|apps| - 1];
      assert apps == init + [a];
      CollectSpec(init, name);
      AppearsSnoc(init, a, name);
      if a.dev.name == name && name != "" {
        CollectStepSame(init, a);
      } else if a.dev.name != name {
        CollectStepOther(init, a, name);
      } else {
        assert Collect(apps) == Collect(init);
      }
    }
  }

  // ---------------------------------------------------------------------------------------
  // Task conservation

  /** The number of tasks held by the entries of a map. */
  function HeldTasks(m: Record<Rollup>): nat
  {
    if |m| == 0 then 0 else |m[0].value.tasks| + HeldTasks(m[1..])
  }

  /** The number of tasks of the developer entries with a non-empty name. */
  function NamedTasks(apps: seq<Appearance>): nat
  {
    if |apps| == 0 then 0
    else NamedTasks(apps[..|apps| - 1]) + (if apps[|apps| - 1].dev.name != "" then |apps[|apps| - 1].dev.tasks| else 0)
  }

  lemma {:induction false} HeldTasksSet(m: Record<Rollup>, k: string, v: Rollup)
    ensures HeldTasks(Set(m, k, v)) + (if Get(m, k).Some? then |Get(m, k).value.tasks| else 0)
            == HeldTasks(m) + |v.tasks|
    decreases |m|
  {
    if |m| > 0 && m[0].key != k {
      HeldTasksSet(m[1..], k, v);
      assert Set(m, k, v) == [m[0]] + Set(m[1..], k, v);
      assert ([m[0]] + Set(m[1..], k, v))[1..] == Set(m[1..], k, v);
    }
  }

  /** Every task of a named developer ends up in exactly one entry. */
  lemma {:induction false} CollectConservesTasks(apps: seq<Appearance>)
    ensures HeldTasks(Collect(apps)) == NamedTasks(apps)
    decreases |apps|
  {
    if |apps| > 0 {
      var init := apps[..|apps| - 1];
      var a := apps[|apps| - 1];
      CollectConservesTasks(init);
      if a.dev.name != "" {
        var m := Collect(init);
        var start := Get(m, a.dev.name).GetOr(Rollup(a.dev.name, [], 0, []));
        HeldTasksSet(m, a.dev.name, AddAppearance(start, a));
      }
    }
  }

  // ---------------------------------------------------------------------------------------
  // Rows, sorting and search

  function ToRow(r: Rollup): (row: DeveloperRow)
    ensures row.completionRate <= 100 || r.completedTasks > |r.tasks|
  {
    DeveloperRow(r.name, r.tasks, r.completedTasks, Display.Percentage(r.completedTasks, |r.tasks|), r.projects)
  }

  function RowName(row: DeveloperRow): string { row.name }

  function ToRows(rs: seq<Rollup>): (rows: seq<DeveloperRow>)
    ensures |rows| == |rs|
    ensures forall i :: 0 <= i < |rs| ==> rows[i] == ToRow(rs[i])
  {
    seq(|rs|, i requires 0 <= i < |rs| => ToRow(rs[i]))
  }

  /** The `developers` memo: nothing while loading, otherwise one row per map entry, sorted by
      name with the comparator `le`. */
  function Developers(videos: seq<Video>, loading: bool, le: (string, string) -> bool): (rows: seq<DeveloperRow>)
    requires Sorting.TotalPreorder(le)
    ensures loading ==> rows == []
    ensures Sorting.SortedBy(rows, RowName, le)
    ensures !loading ==> multiset(rows) == multiset(ToRows(Values(Collect(Appearances(videos)))))
  {
    if loading then []
    else Sorting.Sort(ToRows(Values(Collect(Appearances(videos)))), RowName, le)
  }

  /** Each row describes its developer: one row per name that occurs (never the empty name),
      holding that name's tagged tasks, a completed count within them, a rate within 0..100,
      and the distinct non-empty projects of those tasks. */
  lemma DevelopersSpec(videos: seq<Video>, le: (string, string) -> bool, name: string)
    requires Sorting.TotalPreorder(le)
    ensures var rows := Developers(videos, false, le);
            var apps := Appearances(videos);
            && (exists i :: 0 <= i < |rows| && rows[i].name == name) == (name != "" && Appears(apps, name))
            && forall i :: 0 <= i < |rows| && rows[i].name == name ==>
                 && rows[i].tasks == TasksOf(apps, name)
                 && rows[i].completedTasks == CountTaggedDone(rows[i].tasks) <= |rows[i].tasks|
                 && rows[i].completionRate <= 100
                 && rows[i].completionRate == Display.Percentage(rows[i].completedTasks, |rows[i].tasks|)
                 && Seqs.Distinct(rows[i].projects)
                 && (forall p :: p in rows[i].projects <==>
                       p != "" && exists j :: 0 <= j < |rows[i].tasks| && rows[i].tasks[j].project == p)
  {
    var apps := Appearances(videos);
    var m := Collect(apps);
    var unsorted := ToRows(Values(m));
    var rows := Developers(videos, false, le);
    forall i | 0 <= i < |rows| && rows[i].name == name
      ensures rows[i].tasks == TasksOf(apps, name)
      ensures rows[i].completedTasks == CountTaggedDone(rows[i].tasks) <= |rows[i].tasks|
      ensures rows[i].completionRate <= 100
      ensures rows[i].completionRate == Display.Percentage(rows[i].completedTasks, |rows[i].tasks|)
      ensures Seqs.Distinct(rows[i].projects)
      ensures forall p :: p in rows[i].projects <==>
                p != "" && exists j :: 0 <= j < |rows[i].tasks| && rows[i].tasks[j].project == p
    {
      RowDescribed(videos, le, i);
    }
    if name != "" && Appears(apps, name) {
      CollectSpec(apps, name);
      var k := KeyIndex(m, name);
      EntryNamedByKey(apps, k);
      assert unsorted[k] in multiset(rows);
      var i :| 0 <= i < |rows| && rows[i] == unsorted[k];
      assert rows[i].name == name;
    }
    if exists i :: 0 <= i < |rows| && rows[i].name == name {
      var i :| 0 <= i < |rows| && rows[i].name == name;
      RowDescribed(videos, le, i);
    }
  }

  /** The row at `i` comes from the map entry of its name, which describes that name. */
  lemma RowDescribed(videos: seq<Video>, le: (string, string) -> bool, i: nat)
    requires Sorting.TotalPreorder(le) && i < |Developers(videos, false, le)|
    ensures var row := Developers(videos, false, le)[i];
            var apps := Appearances(videos);
            && row.name != "" && Appears(apps, row.name)
            && row.tasks == TasksOf(apps, row.name)
            && row.completedTasks == CountTaggedDone(row.tasks) <= |row.tasks|
            && row.completionRate <= 100
            && row.completionRate == Display.Percentage(row.completedTasks, |row.tasks|)
            && Seqs.Distinct(row.projects)
            && (forall p :: p in row.projects <==>
                  p != "" && exists j :: 0 <= j < |row.tasks| && row.tasks[j].project == p)
  {
    var apps := Appearances(videos);
    var m := Collect(apps);
    var unsorted := ToRows(Values(m));
    var rows := Developers(videos, false, le);
    assert rows[i] in multiset(unsorted);
    var k :| 0 <= k < |unsorted| && unsorted[k] == rows[i];
    EntryNamedByKey(apps, k);
    GetEntry(m, k);
    CollectSpec(apps, m[k].key);
  }

  function RowNames(rows: seq<DeveloperRow>): (ns: seq<string>)
    ensures |ns| == |rows|
    ensures forall i :: 0 <= i < |rows| ==> ns[i] == rows[i].name
  {
    seq(|rows|, i requires 0 <= i < |rows| => rows[i].name)
  }

  /** No developer is listed twice: the rows come from the entries of one map, whose keys are
      the row names. */
  lemma DevelopersDistinct(videos: seq<Video>, le: (string, string) -> bool)
    requires Sorting.TotalPreorder(le)
    ensures Seqs.Distinct(RowNames(Developers(videos, false, le)))
  {
    var unsorted := ToRows(Values(Collect(Appearances(videos))));
    UnsortedNamesDistinct(Appearances(videos));
    RowNamesPermutation(unsorted, Developers(videos, false, le));
  }

  /** Before sorting, the rows carry the map's keys as their names, so no name repeats. */
  lemma UnsortedNamesDistinct(apps: seq<Appearance>)
    ensures Seqs.Distinct(RowNames(ToRows(Values(Collect(apps)))))
  {
    var m := Collect(apps);
    var ns := RowNames(ToRows(Values(m)));
    forall a, b | 0 <= a < b < |ns|
      ensures ns[a] != ns[b]
    {
      EntryNamedByKey(apps, a);
      EntryNamedByKey(apps, b);
      assert Keys(m)[a] != Keys(m)[b];
    }
  }

  /** Reordering rows keeps their names distinct. */
  lemma RowNamesPermutation(xs: seq<DeveloperRow>, ys: seq<DeveloperRow>)
    requires Seqs.Distinct(RowNames(xs)) && multiset(xs) == multiset(ys)
    ensures Seqs.Distinct(RowNames(ys))
  {
    var xn, yn := RowNames(xs), RowNames(ys);
    assert Seqs.Distinct(xs) by {
      assert forall a, b :: 0 <= a < b < |xs| ==> xn[a] != xn[b];
    }
    Seqs.DistinctPermutation(xs, ys);
    forall i, j | 0 <= i < j < |yn|
      ensures yn[i] != yn[j]
    {
      assert ys[i] in multiset(xs) && ys[j] in multiset(xs);
      var a :| 0 <= a < |xs| && xs[a] == ys[i];
      var b :| 0 <= b < |xs| && xs[b] == ys[j];
      assert a != b;
      if a < b {
        assert xn[a] != xn[b];
      } else {
        assert xn[b] != xn[a];
      }
    }
  }

  /** Every entry of the map carries its own key as its name. */
  lemma EntryNamedByKey(apps: seq<Appearance>, k: nat)
    requires k < |Collect(apps)|
    ensures Collect(apps)[k].value.name == Collect(apps)[k].key
  {
    var m := Collect(apps);
    GetEntry(m, k);
    CollectSpec(apps, m[k].key);
  }

  /** The position of a key in a record. */
  function KeyIndex<V>(m: Record<V>, k: string): (i: nat)
    requires Get(m, k).Some?
    ensures i < |m| && m[i].key == k && m[i].value == Get(m, k).value
  {
    if m[0].key == k then 0 else 1 + KeyIndex(m[1..], k)
  }

  /** A row is kept by the search when its lower-cased name, or one of its lower-cased
      projects, contains the query. */
  predicate MatchesDeveloper(row: DeveloperRow, query: string) {
    Contains(ToLower(row.name), query) ||
    exists i :: 0 <= i < |row.projects| && Contains(ToLower(row.projects[i]), query)
  }

  /** `filteredDevelopers`: every row for a blank query; otherwise the matching rows, in order,
      matched against the lower-cased query as typed, spaces included. */
  function FilterDevelopers(rows: seq<DeveloperRow>, query: string): (r: seq<DeveloperRow>)
    ensures Trim(query) == "" ==> r == rows
    ensures Seqs.IsSubsequence(r, rows)
    ensures Trim(query) != "" ==> forall row :: row in r <==> row in rows && MatchesDeveloper(row, ToLower(query))
  {
    if Trim(query) == "" then Seqs.SubsequenceRefl(rows); rows
    else Seqs.Filter(row => MatchesDeveloper(row, ToLower(query)), rows)
  }
}
