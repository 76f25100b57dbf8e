/** The write path of the recordings context: applying task updates to a copy of a stored
    video, patching the cached list with the row the store returns, the `taskIsSaving` flag,
    and the message shown for a failed load. The store itself is abstract: what it answers is
    an input. */
module LoomContext {
  import opened Wrappers
  import opened Loom

  /** One requested change to a task field. */
  datatype Change = SetCompleted(completed: bool) | SetText(text: string)

  /** One element of `taskCompletionUpdates` (a `SetCompleted` change) or `taskTextUpdates`
      (a `SetText` change). `taskIndex` is the number the caller computed, `None` for NaN. */
  datatype TaskUpdate = TaskUpdate(devName: string, taskIndex: Option<int>, change: Change)

  /** `developers.findIndex(dev => dev.Dev === name)`: the first developer with that name. */
  function FindDeveloper(devs: seq<Developer>, name: string): (r: Option<nat>)
    ensures r.Some? ==> r.value < |devs| && devs[r.value].name == name
    ensures r.Some? ==> forall j :: 0 <= j < r.value ==> devs[j].name != name
    ensures r.None? <==> forall j :: 0 <= j < |devs| ==> devs[j].name != name
  {
    if |devs| == 0 then None
    else if devs[0].name == name then Some(0)
    else match FindDeveloper(devs[1..], name)
      case None => None
      case Some(i) => Some(i + 1)
  }

  /** The task an update reaches, as (developer position, task position): the first developer
      with the update's name, provided the index is a position of its task list. A NaN,
      negative or too large index reaches nothing (`Tasks[taskIndex]` is then `undefined`). */
  function Target(devs: seq<Developer>, u: TaskUpdate): (r: Option<(nat, nat)>)
    ensures r.Some? ==> r.value.0 < |devs| && r.value.1 < |devs[r.value.0].tasks|
    ensures r.Some? ==> Some(r.value.0) == FindDeveloper(devs, u.devName) && u.taskIndex == Some(r.value.1)
    ensures r.None? <==>
              FindDeveloper(devs, u.devName).None? || u.taskIndex.None? ||
              !(0 <= u.taskIndex.value < |devs[FindDeveloper(devs, u.devName).value].tasks|)
  {
    match FindDeveloper(devs, u.devName)
    case None => None
    case Some(d) =>
      if u.taskIndex.Some? && 0 <= u.taskIndex.value < |devs[d].tasks|
      then Some((d, u.taskIndex.value as nat))
      else None
  }

  /** Writes one field of a task: completion goes to the lower-case `completed`. */
  function ApplyChange(t: Task, c: Change): Task
  {
    match c
    case SetCompleted(b) => t.(completed := Some(b))
    case SetText(s) => t.(text := s)
  }

  /** The same developers, names and task-list lengths. */
  predicate SameShape(a: seq<Developer>, b: seq<Developer>) {
    |a| == |b| && forall k :: 0 <= k < |a| ==> a[k].name == b[k].name && |a[k].tasks| == |b[k].tasks|
  }

  /** One iteration of the `forEach` over an update list. */
  function ApplyUpdate(devs: seq<Developer>, u: TaskUpdate): (r: seq<Developer>)
    ensures SameShape(devs, r)
    ensures Target(devs, u).None? ==> r == devs
  {
    match Target(devs, u)
    case None => devs
    case Some((d, i)) =>
      devs[d := devs[d].(tasks := devs[d].tasks[i := ApplyChange(devs[d].tasks[i], u.change)])]
  }

  /** `updates.forEach(...)` over the developer list. */
  function ApplyUpdates(devs: seq<Developer>, us: seq<TaskUpdate>): (r: seq<Developer>)
    ensures SameShape(devs, r)
    decreases |us|
  {
    if |us| == 0 then devs else ApplyUpdates(ApplyUpdate(devs, us[0]), us[1..])
  }

  /** The row after the pure middle of `updateLoomVideo`: the completion updates, then the
      text updates, applied to a copy of the fetched row; only `llm_answer` is sent back to the
      store. */
  function UpdateVideo(v: Video, completionUpdates: seq<TaskUpdate>, textUpdates: seq<TaskUpdate>): (r: Video)
    ensures r.(analysis := v.analysis) == v
    ensures r.analysis.project == v.analysis.project
    ensures SameShape(v.analysis.developers, r.analysis.developers)
  {
    var devs := ApplyUpdates(ApplyUpdates(v.analysis.developers, completionUpdates), textUpdates);
    v.(analysis := v.analysis.(developers := devs))
  }

  // ---------------------------------------------------------------------------------------
  // A reference description of the update loop: each task receives, in list order, exactly
  // the changes of the updates that reach it.

  /** The changes of the updates in `us` that reach task `i` of developer `d`, in order. */
  function ChangesAt(devs: seq<Developer>, us: seq<TaskUpdate>, d: nat, i: nat): seq<Change>
  {
    if |us| == 0 then []
    else (if Target(devs, us[0]) == Some((d, i)) then [us[0].change] else []) + ChangesAt(devs, us[1..], d, i)
  }

  /** Applies changes to one task, in order. */
  function ApplyChanges(t: Task, cs: seq<Change>): Task
    decreases |cs|
  {
    if |cs| == 0 then t else ApplyChanges(ApplyChange(t, cs[0]), cs[1..])
  }

  /** The completion value of the last `SetCompleted` change, if any. */
  function LastCompleted(cs: seq<Change>): Option<bool>
  {
    if |cs| == 0 then None
    else if cs[|cs| - 1].SetCompleted? then Some(cs[|cs| - 1].completed)
    else LastCompleted(cs[..|cs| - 1])
  }

  /** The text of the last `SetText` change, if any. */
  function LastText(cs: seq<Change>): Option<string>
  {
    if |cs| == 0 then None
    else if cs[|cs| - 1].SetText? then Some(cs[|cs| - 1].text)
    else LastText(cs[..|cs| - 1])
  }

  /** A task after a list of changes: the last completion and the last text written win;
      `Completed` and the timestamp are never written. */
  lemma {:induction false} ApplyChangesFields(t: Task, cs: seq<Change>)
    ensures ApplyChanges(t, cs).Completed == t.Completed
    ensures ApplyChanges(t, cs).timestamp == t.timestamp
    ensures ApplyChanges(t, cs).completed == (if LastCompleted(cs).Some? then LastCompleted(cs) else t.completed)
    ensures ApplyChanges(t, cs).text == LastText(cs).GetOr(t.text)
    decreases |cs|
  {
    if |cs| > 0 {
      var last := cs[|cs| - 1];
      var init := cs[..|cs| - 1];
      ApplyChangesSnoc(t, init, last);
      assert init + [last] == cs;
      ApplyChangesFields(t, init);
    }
  }

  lemma {:induction false} ApplyChangesSnoc(t: Task, cs: seq<Change>, c: Change)
    ensures ApplyChanges(t, cs + [c]) == ApplyChange(ApplyChanges(t, cs), c)
    decreases |cs|
  {
    if |cs| == 0 {
      assert [] + [c] == [c];
    } else {
      assert (cs + [c])[1..] == cs[1..] + [c];
      ApplyChangesSnoc(ApplyChange(t, cs[0]), cs[1..], c);
    }
  }

  lemma {:induction false} FindDeveloperSameNames(a: seq<Developer>, b: seq<Developer>, name: string)
    requires |a| == |b| && forall k :: 0 <= k < |a| ==> a[k].name == b[k].name
    ensures FindDeveloper(a, name) == FindDeveloper(b, name)
    decreases |a|
  {
    if |a| > 0 {
      FindDeveloperSameNames(a[1..], b[1..], name);
    }
  }

  /** Which task an update reaches depends only on names and task-list lengths. */
  lemma TargetSameShape(a: seq<Developer>, b: seq<Developer>, u: TaskUpdate)
    requires SameShape(a, b)
    ensures Target(a, u) == Target(b, u)
  {
    FindDeveloperSameNames(a, b, u.devName);
  }

  lemma {:induction false} ChangesAtSameShape(a: seq<Developer>, b: seq<Developer>, us: seq<TaskUpdate>, d: nat, i: nat)
    requires SameShape(a, b)
    ensures ChangesAt(a, us, d, i) == ChangesAt(b, us, d, i)
    decreases |us|
  {
    if |us| > 0 {
      TargetSameShape(a, b, us[0]);
      ChangesAtSameShape(a, b, us[1..], d, i);
    }
  }

  /** One update rewrites at most the one task it reaches. */
  lemma ApplyUpdateAt(devs: seq<Developer>, u: TaskUpdate, d: nat, i: nat)
    requires d < |devs| && i < |devs[d].tasks|
    ensures ApplyUpdate(devs, u)[d].tasks[i] ==
              if Target(devs, u) == Some((d, i)) then ApplyChange(devs[d].tasks[i], u.change) else devs[d].tasks[i]
  {
  }

  /** The update loop is the reference description: every task ends up as its original with
      exactly the changes that reach it applied in list order. */
  lemma {:induction false} ApplyUpdatesSpec(devs: seq<Developer>, us: seq<TaskUpdate>)
    ensures forall d, i :: 0 <= d < |devs| && 0 <= i < |devs[d].tasks| ==>
              ApplyUpdates(devs, us)[d].tasks[i] == ApplyChanges(devs[d].tasks[i], ChangesAt(devs, us, d, i))
    decreases |us|
  {
    if |us| > 0 {
      var devs1 := ApplyUpdate(devs, us[0]);
      ApplyUpdatesSpec(devs1, us[1..]);
      forall d, i | 0 <= d < |devs| && 0 <= i < |devs[d].tasks|
        ensures ApplyUpdates(devs, us)[d].tasks[i] == ApplyChanges(devs[d].tasks[i], ChangesAt(devs, us, d, i))
      {
        ApplyUpdatesStep(devs, us, d, i);
      }
    }
  }

  lemma ApplyUpdatesStep(devs: seq<Developer>, us: seq<TaskUpdate>, d: nat, i: nat)
    requires |us| > 0 && d < |devs| && i < |devs[d].tasks|
    requires var devs1 := ApplyUpdate(devs, us[0]);
      ApplyUpdates(devs1, us[1..])[d].tasks[i] == ApplyChanges(devs1[d].tasks[i], ChangesAt(devs1, us[1..], d, i))
    ensures ApplyUpdates(devs, us)[d].tasks[i] == ApplyChanges(devs[d].tasks[i], ChangesAt(devs, us, d, i))
  {
    var u := us[0];
    var devs1 := ApplyUpdate(devs, u);
    assert ApplyUpdates(devs, us) == ApplyUpdates(devs1, us[1..]);
    var rest := ChangesAt(devs, us[1..], d, i);
    ChangesAtSameShape(devs1, devs, us[1..], d, i);
    ApplyUpdateAt(devs, u, d, i);
    var t := devs[d].tasks[i];
    if Target(devs, u) == Some((d, i)) {
      assert ChangesAt(devs, us, d, i) == [u.change] + rest;
      assert ([u.change] + rest)[1..] == rest;
      assert ApplyChanges(t, [u.change] + rest) == ApplyChanges(ApplyChange(t, u.change), rest);
    } else {
      assert ChangesAt(devs, us, d, i) == [] + rest;
      assert [] + rest == rest;
    }
  }

  lemma {:induction false} ChangesAtAppend(devs: seq<Developer>, a: seq<TaskUpdate>, b: seq<TaskUpdate>, d: nat, i: nat)
    ensures ChangesAt(devs, a + b, d, i) == ChangesAt(devs, a, d, i) + ChangesAt(devs, b, d, i)
    decreases |a|
  {
    if |a| == 0 {
      assert a + b == b;
    } else {
      var head := if Target(devs, a[0]) == Some((d, i)) then [a[0].change] else [];
      assert (a + b)[0] == a[0] && (a + b)[1..] == a[1..] + b;
      assert ChangesAt(devs, a + b, d, i) == head + ChangesAt(devs, a[1..] + b, d, i);
      ChangesAtAppend(devs, a[1..], b, d, i);
      assert ChangesAt(devs, a, d, i) == head + ChangesAt(devs, a[1..], d, i);
      SeqAssoc(head, ChangesAt(devs, a[1..], d, i), ChangesAt(devs, b, d, i));
    }
  }

  lemma SeqAssoc<T>(x: seq<T>, y: seq<T>, z: seq<T>)
    ensures x + (y + z) == (x + y) + z
  {
  }

  lemma {:induction false} ApplyChangesAppend(t: Task, a: seq<Change>, b: seq<Change>)
    ensures ApplyChanges(t, a + b) == ApplyChanges(ApplyChanges(t, a), b)
    decreases |a|
  {
    if |a| == 0 {
      assert a + b == b;
    } else {
      assert (a + b)[1..] == a[1..] + b;
      ApplyChangesAppend(ApplyChange(t, a[0]), a[1..], b);
    }
  }

  /** What saving does to a stored row: developers, names and task-list lengths are kept; in
      every task the lower-case `completed` becomes the value of the last completion change that
      reaches it and the text the value of the last text change that reaches it (completion
      updates counted before text updates), and every other field, task and column is kept. */
  lemma UpdateVideoSpec(v: Video, completionUpdates: seq<TaskUpdate>, textUpdates: seq<TaskUpdate>)
    ensures var r := UpdateVideo(v, completionUpdates, textUpdates);
      var devs := v.analysis.developers;
      && SameShape(devs, r.analysis.developers)
      && forall d, i :: 0 <= d < |devs| && 0 <= i < |devs[d].tasks| ==>
           var cs := ChangesAt(devs, completionUpdates + textUpdates, d, i);
           var t := devs[d].tasks[i];
           var t' := r.analysis.developers[d].tasks[i];
           && t'.Completed == t.Completed
           && t'.timestamp == t.timestamp
           && t'.completed == (if LastCompleted(cs).Some? then LastCompleted(cs) else t.completed)
           && t'.text == LastText(cs).GetOr(t.text)
  {
    var devs := v.analysis.developers;
    var mid := ApplyUpdates(devs, completionUpdates);
    ApplyUpdatesSpec(devs, completionUpdates);
    ApplyUpdatesSpec(mid, textUpdates);
    forall d, i | 0 <= d < |devs| && 0 <= i < |devs[d].tasks|
      ensures var cs := ChangesAt(devs, completionUpdates + textUpdates, d, i);
        UpdateVideo(v, completionUpdates, textUpdates).analysis.developers[d].tasks[i]
          == ApplyChanges(devs[d].tasks[i], cs)
    {
      ChangesAtSameShape(mid, devs, textUpdates, d, i);
      ChangesAtAppend(devs, completionUpdates, textUpdates, d, i);
      ApplyChangesAppend(devs[d].tasks[i], ChangesAt(devs, completionUpdates, d, i), ChangesAt(devs, textUpdates, d, i));
    }
    forall d, i | 0 <= d < |devs| && 0 <= i < |devs[d].tasks|
      ensures var cs := ChangesAt(devs, completionUpdates + textUpdates, d, i);
        var t' := ApplyChanges(devs[d].tasks[i], cs);
        && t'.Completed == devs[d].tasks[i].Completed
        && t'.timestamp == devs[d].tasks[i].timestamp
        && t'.completed == (if LastCompleted(cs).Some? then LastCompleted(cs) else devs[d].tasks[i].completed)
        && t'.text == LastText(cs).GetOr(devs[d].tasks[i].text)
    {
      ApplyChangesFields(devs[d].tasks[i], ChangesAt(devs, completionUpdates + textUpdates, d, i));
    }
  }

  /** No update reaches a developer that an earlier developer with the same name shadows. */
  lemma {:induction false} ChangesAtShadowed(devs: seq<Developer>, us: seq<TaskUpdate>, j: nat, d: nat, i: nat)
    requires j < d < |devs| && devs[j].name == devs[d].name
    ensures ChangesAt(devs, us, d, i) == []
    decreases |us|
  {
    if |us| > 0 {
      ChangesAtShadowed(devs, us[1..], j, d, i);
    }
  }

  /** When several developers share a name, only the first is ever updated: a later namesake
      comes out of the save exactly as it went in. */
  lemma ShadowedDeveloperUnchanged(v: Video, completionUpdates: seq<TaskUpdate>, textUpdates: seq<TaskUpdate>, j: nat, d: nat)
    requires j < d < |v.analysis.developers|
    requires v.analysis.developers[j].name == v.analysis.developers[d].name
    ensures UpdateVideo(v, completionUpdates, textUpdates).analysis.developers[d] == v.analysis.developers[d]
  {
    var devs := v.analysis.developers;
    var r := UpdateVideo(v, completionUpdates, textUpdates).analysis.developers;
    UpdateVideoSpec(v, completionUpdates, textUpdates);
    forall i | 0 <= i < |devs[d].tasks|
      ensures r[d].tasks[i] == devs[d].tasks[i]
    {
      ChangesAtShadowed(devs, completionUpdates + textUpdates, j, d, i);
    }
    assert r[d].tasks == devs[d].tasks;
  }

  /** An update naming no developer of the video, or an index with no task, is skipped
      silently: saving it alone leaves the row as it was. */
  lemma UnreachableUpdateSkipped(v: Video, u: TaskUpdate)
    requires (forall k :: 0 <= k < |v.analysis.developers| ==> v.analysis.developers[k].name != u.devName)
             || u.taskIndex.None?
             || u.taskIndex.value < 0
             || (forall k :: 0 <= k < |v.analysis.developers| && v.analysis.developers[k].name == u.devName ==>
                   u.taskIndex.value >= |v.analysis.developers[k].tasks|)
    ensures UpdateVideo(v, [u], []) == v
    ensures UpdateVideo(v, [], [u]) == v
  {
    var devs := v.analysis.developers;
    assert Target(devs, u).None?;
    assert ApplyUpdate(devs, u) == devs;
    assert [u][1..] == [];
    assert ApplyUpdates(devs, [u]) == ApplyUpdates(devs, []) == devs;
    assert ApplyUpdates(ApplyUpdates(devs, [u]), []) == devs;
    assert ApplyUpdates(ApplyUpdates(devs, []), [u]) == devs;
    assert v.(analysis := v.analysis.(developers := devs)) == v;
  }

  // ---------------------------------------------------------------------------------------
  // The store round trip, the cache patch and the saving flag.

  /** How a promise settles. */
  datatype Settled<T> = Resolved(value: T) | Rejected(error: Thrown)

  /** What the store answers to one query: the row, or an error with its message. */
  datatype StoreReply = Row(row: Video) | StoreError(message: string)

  /** The single write `updateLoomVideo` sends: the new `llm_answer` for the row with this id. */
  datatype WriteRequest = WriteRequest(videoId: string, llmAnswer: Analysis)

  /** `updateLoomVideo`, given the store's answer to the read and to the write: the write it
      sends (none when the read fails) and how it settles. */
  function UpdateLoomVideo(videoId: string, completionUpdates: seq<TaskUpdate>, textUpdates: seq<TaskUpdate>,
                           fetched: StoreReply, written: StoreReply): (r: (Option<WriteRequest>, Settled<Video>))
    ensures fetched.StoreError? ==>
              r.0 == None && r.1 == Rejected(ErrorObject("Failed to fetch video: " + fetched.message))
    ensures fetched.Row? ==>
              r.0 == Some(WriteRequest(videoId, UpdateVideo(fetched.row, completionUpdates, textUpdates).analysis))
    ensures fetched.Row? && written.StoreError? ==>
              r.1 == Rejected(ErrorObject("Failed to update video: " + written.message))
    ensures fetched.Row? && written.Row? ==> r.1 == Resolved(written.row)
  {
    match fetched
    case StoreError(m) => (None, Rejected(ErrorObject("Failed to fetch video: " + m)))
    case Row(row) =>
      var request := WriteRequest(videoId, UpdateVideo(row, completionUpdates, textUpdates).analysis);
      match written
      case StoreError(m) => (Some(request), Rejected(ErrorObject("Failed to update video: " + m)))
      case Row(stored) => (Some(request), Resolved(stored))
  }

  /** The `onSuccess` patch of the cached list: an absent cache becomes the one row; otherwise
      every entry with the row's id is replaced by it, in place. */
  function PatchCache(cached: Option<seq<Video>>, updated: Video): (r: seq<Video>)
    ensures cached.None? ==> r == [updated]
    ensures cached.Some? ==> |r| == |cached.value|
    ensures cached.Some? ==> forall k :: 0 <= k < |r| ==>
              if cached.value[k].id == updated.id then r[k] == updated else r[k] == cached.value[k]
  {
    match cached
    case None => [updated]
    case Some(videos) => ReplaceById(videos, updated)
  }

  function ReplaceById(videos: seq<Video>, updated: Video): (r: seq<Video>)
    ensures |r| == |videos|
    ensures forall k :: 0 <= k < |r| ==>
              if videos[k].id == updated.id then r[k] == updated else r[k] == videos[k]
  {
    if |videos| == 0 then []
    else [if videos[0].id == updated.id then updated else videos[0]] + ReplaceById(videos[1..], updated)
  }

  /** Patching is idempotent, and a cached list holding no row with the id is left unchanged. */
  lemma PatchCacheProperties(cached: seq<Video>, updated: Video)
    ensures PatchCache(Some(PatchCache(Some(cached), updated)), updated) == PatchCache(Some(cached), updated)
    ensures (forall k :: 0 <= k < |cached| ==> cached[k].id != updated.id) ==> PatchCache(Some(cached), updated) == cached
  {
  }

  /** `updateTaskCompletionStatus`, given how the mutation settles: its result, and the values
      written to `taskIsSaving`, in order. */
  function UpdateTaskCompletionStatus(mutation: Settled<Video>): (r: (bool, seq<bool>))
    ensures r.0 <==> mutation.Resolved?
    ensures |r.1| > 0 && r.1[0] && !r.1[|r.1| - 1]
  {
    (mutation.Resolved?, [true, false])
  }

  /** `refreshData`, given how the refetch settles: the values written to `taskIsSaving`. */
  function RefreshData(refetch: Settled<seq<Video>>): (writes: seq<bool>)
    ensures |writes| > 0 && writes[0]
    ensures !writes[|writes| - 1] <==> refetch.Rejected?
  {
    if refetch.Resolved? then [true] else [true, false]
  }

  /** The value of a state variable after a series of writes. */
  function FlagAfter(initial: bool, writes: seq<bool>): bool
  {
    if |writes| == 0 then initial else writes[|writes| - 1]
  }

  /** As written, a refresh whose refetch succeeds leaves `taskIsSaving` set, whatever it was
      before: only the failure path clears it. */
  lemma RefreshLeavesSavingSet(initial: bool, videos: seq<Video>)
    ensures FlagAfter(initial, RefreshData(Resolved(videos)))
    ensures !FlagAfter(initial, RefreshData(Rejected(OtherThrown)))
  {
  }

  /** `refreshData` with the flag cleared however the refetch settles, as
      `updateTaskCompletionStatus` does with its `finally`. */
  function RefreshDataCorrected(refetch: Settled<seq<Video>>): (writes: seq<bool>)
    ensures |writes| > 0 && writes[0] && !writes[|writes| - 1]
  {
    [true, false]
  }

  /** The corrected refresh raises the flag while it runs and always ends with it cleared,
      agreeing with the saving path of `updateTaskCompletionStatus`. */
  lemma RefreshCorrectedClearsFlag(initial: bool, refetch: Settled<seq<Video>>, mutation: Settled<Video>)
    ensures RefreshDataCorrected(refetch)[0]
    ensures !FlagAfter(initial, RefreshDataCorrected(refetch))
    ensures FlagAfter(initial, RefreshDataCorrected(refetch)) == FlagAfter(initial, UpdateTaskCompletionStatus(mutation).1)
  {
  }

  /** What the provider holds: the cached list, the cached single videos by id (the
      `["loom-video", id]` queries), and the flag. */
  datatype ProviderState = ProviderState(cache: Option<seq<Video>>, videoCache: map<string, Video>, taskIsSaving: bool)

  /** One call of `updateTaskCompletionStatus` on the provider: the result, and the state after
      the mutation settled. A saved row is patched into the list and stored as the single video
      of its id, whether or not that query existed; a failed mutation leaves both caches as they
      were. */
  function SaveTasks(s: ProviderState, mutation: Settled<Video>): (r: (bool, ProviderState))
    ensures r.0 <==> mutation.Resolved?
    ensures !r.1.taskIsSaving
    ensures mutation.Rejected? ==> r.1.cache == s.cache && r.1.videoCache == s.videoCache
    ensures mutation.Resolved? ==> r.1.cache == Some(PatchCache(s.cache, mutation.value))
    ensures mutation.Resolved? ==>
              && mutation.value.id in r.1.videoCache && r.1.videoCache[mutation.value.id] == mutation.value
              && r.1.videoCache.Keys == s.videoCache.Keys + {mutation.value.id}
              && forall id :: id in s.videoCache && id != mutation.value.id ==> r.1.videoCache[id] == s.videoCache[id]
  {
    var (ok, writes) := UpdateTaskCompletionStatus(mutation);
    var cache := if mutation.Resolved? then Some(PatchCache(s.cache, mutation.value)) else s.cache;
    var videoCache := if mutation.Resolved? then s.videoCache[mutation.value.id := mutation.value] else s.videoCache;
    (ok, ProviderState(cache, videoCache, FlagAfter(s.taskIsSaving, writes)))
  }

  /** The `error` the context exposes for a failed load. */
  function LoadErrorMessage(queryError: Option<Thrown>): (r: Option<string>)
    ensures queryError.None? <==> r.None?
    ensures queryError == Some(OtherThrown) ==> r == Some("An error occurred")
    ensures forall m :: queryError == Some(ErrorObject(m)) ==> r == Some(m)
  {
    match queryError
    case None => None
    case Some(ErrorObject(m)) => Some(m)
    case Some(OtherThrown) => Some("An error occurred")
  }
}
