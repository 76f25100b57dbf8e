/** The task editor of one video: per-task completion and text state keyed by
    `"<developer>-<index>"`, seeded from the stored row, edited locally, compared with the
    seeded copy to detect unsaved changes, and turned into the two update lists the write path
    applies. */
module TaskModal {
  import opened Wrappers
  import opened Text
  import opened Loom
  import opened Records
  import Seqs
  import Display
  import LoomContext

  // ---------------------------------------------------------------------------------------
  // Task keys

  /** `` `${devName}-${taskIndex}` `` */
  function Key(dev: string, index: nat): string {
    dev + "-" + NatToString(index)
  }

  /** `const [devName, indexStr] = key.split("-")` followed by `parseInt(indexStr)`: the name
      is everything before the first dash, the index is read from the piece after it, and a key
      with no dash has an undefined piece, whose `parseInt` is `NaN`. */
  function DecodeKey(key: string): (r: (string, Option<int>))
    ensures '-' !in r.0 && StartsWith(key, r.0)
    ensures |r.0| < |key| ==> key[|r.0|] == '-'
    ensures '-' in key <==> |r.0| < |key|
    ensures '-' !in key ==> r == (key, None)
  {
    var parts := Split(key, '-');
    SplitHead(key, '-');
    if '-' !in key then SplitNoSeparator(key, '-'); (key, None)
    else (parts[0], if |parts| >= 2 then ParseInt(parts[1]) else None)
  }

  lemma DigitsHaveNoDash(s: string)
    requires AllDigits(s)
    ensures '-' !in s
  {
    forall i | 0 <= i < |s|
      ensures s[i] != '-'
    {
      assert IsDigit(s[i]);
    }
  }

  /** A key built from a developer name without a dash decodes back to that name and index. */
  lemma KeyRoundTrip(dev: string, index: nat)
    requires '-' !in dev
    ensures DecodeKey(Key(dev, index)) == (dev, Some(index))
  {
    var n := NatToString(index);
    DigitsHaveNoDash(n);
    SplitAtFirst(dev, '-', n);
    SplitNoSeparator(n, '-');
    assert Key(dev, index) == dev + ['-'] + n;
    ParseIntOfNatToString(index);
  }

  /** A developer whose name contains a dash can never be reached through its own keys: the
      decoded name stops at the first dash. */
  lemma DashedNameNeverDecodes(dev: string, index: nat)
    requires '-' in dev
    ensures DecodeKey(Key(dev, index)).0 != dev
    ensures DecodeKey(Key(dev, index)).0 == dev[..|DecodeKey(Key(dev, index)).0|]
  {
    var k := Key(dev, index);
    var name := DecodeKey(k).0;
    assert k[..|dev|] == dev;
    var i :| 0 <= i < |dev| && dev[i] == '-';
    assert k[i] == '-';
    assert forall j :: 0 <= j < |name| ==> k[j] == name[j] && name[j] != '-';
    assert |name| <= i;
  }

  /** Task 2 of a developer named "X-1" decodes as task 1 of a developer named "X": saving it
      writes to another developer's task when one named "X" exists. */
  lemma DashedNameMisroutes()
    ensures DecodeKey(Key("X-1", 2)) == ("X", Some(1))
  {
    assert NatToString(2) == "2";
    assert Key("X-1", 2) == "X" + ['-'] + ("1" + ['-'] + "2");
    DecodeThreePieces(Key("X-1", 2), "X", "1", "2");
    ParseIntOfNatToString(1);
    assert NatToString(1) == "1";
  }

  /** A key of three dash-free pieces joined by dashes decodes to the first piece and the
      number read from the second. */
  lemma DecodeThreePieces(key: string, a: string, b: string, c: string)
    requires key == a + ['-'] + (b + ['-'] + c)
    requires '-' !in a && '-' !in b && '-' !in c
    ensures DecodeKey(key) == (a, ParseInt(b))
  {
    SplitNoSeparator(c, '-');
    SplitAtFirst(b, '-', c);
    SplitAtFirst(a, '-', b + ['-'] + c);
    assert '-' in key by { assert key[|a|] == '-'; }
  }

  /** The position of the last occurrence of `c` in `s`. */
  function LastIndexOf(s: string, c: char): (r: Option<nat>)
    ensures r.Some? ==> r.value < |s| && s[r.value] == c && c !in s[r.value + 1..]
    ensures r.None? ==> c !in s
  {
    if |s| == 0 then None
    else if s[|s| - 1] == c then Some(|s| - 1)
    else
      var r := LastIndexOf(s[..|s| - 1], c);
      assert r.Some? ==> s[r.value + 1..] == s[..|s| - 1][r.value + 1..] + [s[|s| - 1]];
      r
  }

  /** The decoding the key format needs: the name is everything before the LAST dash, since
      the index part never contains one. */
  function DecodeKeyAtLastDash(key: string): (r: (string, Option<int>))
    ensures '-' !in key ==> r == (key, None)
    ensures '-' in key ==> |r.0| < |key| && key[|r.0|] == '-' && r.0 == key[..|r.0|]
  {
    match LastIndexOf(key, '-')
    case None => (key, None)
    case Some(j) => (key[..j], ParseInt(key[j + 1..]))
  }

  lemma {:induction false} LastIndexOfAfter(a: string, c: char, b: string)
    requires c !in b
    ensures LastIndexOf(a + [c] + b, c) == Some(|a|)
    decreases |b|
  {
    var s := a + [c] + b;
    if |b| > 0 {
      assert s[..|s| - 1] == a + [c] + b[..|b| - 1];
      assert s[|s| - 1] == b[|b| - 1];
      LastIndexOfAfter(a, c, b[..|b| - 1]);
    }
  }

  /** Every key decodes back to its developer name and index, dashes in the name or not. */
  lemma KeyRoundTripAtLastDash(dev: string, index: nat)
    ensures DecodeKeyAtLastDash(Key(dev, index)) == (dev, Some(index))
  {
    var n := NatToString(index);
    var k := Key(dev, index);
    DigitsHaveNoDash(n);
    assert k == dev + ['-'] + n;
    LastIndexOfAfter(dev, '-', n);
    assert k[..|dev|] == dev && k[|dev| + 1..] == n;
    ParseIntOfNatToString(index);
  }

  // ---------------------------------------------------------------------------------------
  // Editor state

  /** The task opened for inline editing: `{...task, Dev, index}`, with the stored text. */
  datatype Selection = Selection(dev: string, index: nat, text: string)

  datatype Session = Session(
    activeDev: string,
    completion: Record<bool>,
    initialCompletion: Record<bool>,
    text: Record<string>,
    initialText: Record<string>,
    selected: Option<Selection>)

  /** The state before any video is seeded. */
  const Opened: Session := Session("", [], [], [], [], None)

  /** The state records are JavaScript objects, so each key occurs once. */
  predicate ValidSession(s: Session) {
    ValidRecord(s.completion) && ValidRecord(s.initialCompletion) &&
    ValidRecord(s.text) && ValidRecord(s.initialText)
  }

  function CompletedOf(t: Task): bool { t.Completed }

  function TextOf(t: Task): string { t.text }

  /** The entries seeding writes for one developer, in task order. */
  function TaskEntries<V>(name: string, tasks: seq<Task>, f: Task -> V): (es: seq<Entry<V>>)
    ensures |es| == |tasks|
    ensures forall i :: 0 <= i < |tasks| ==> es[i] == Entry(Key(name, i), f(tasks[i]))
  {
    seq(|tasks|, i requires 0 <= i < |tasks| => Entry(Key(name, i), f(tasks[i])))
  }

  /** Every write seeding performs, developer by developer, task by task. */
  function SeedEntries<V>(devs: seq<Developer>, f: Task -> V): seq<Entry<V>>
  {
    if |devs| == 0 then []
    else SeedEntries(devs[..|devs| - 1], f) + TaskEntries(devs[|devs| - 1].name, devs[|devs| - 1].tasks, f)
  }

  /** `r[e.key] = e.value` for each entry in turn. */
  function SetAll<V>(r: Record<V>, es: seq<Entry<V>>): (r': Record<V>)
    ensures ValidRecord(r) ==> ValidRecord(r')
  {
    if |es| == 0 then r
    else
      var last := es[|es| - 1];
      Set(SetAll(r, es[..|es| - 1]), last.key, last.value)
  }

  /** The value of the last entry with key `k`: the write that survives. */
  function LastWith<V>(es: seq<Entry<V>>, k: string): Option<V>
  {
    if |es| == 0 then None
    else if es[|es| - 1].key == k then Some(es[|es| - 1].value)
    else LastWith(es[..|es| - 1], k)
  }

  lemma {:induction false} SetAllGet<V>(r: Record<V>, es: seq<Entry<V>>, k: string)
    ensures Get(SetAll(r, es), k) == if LastWith(es, k).Some? then LastWith(es, k) else Get(r, k)
    decreases |es|
  {
    if |es| > 0 {
      SetAllGet(r, es[..|es| - 1], k);
    }
  }

  /** The effect run when a video with developers arrives: the first developer's tab becomes
      active and both the current and the seeded copies of the completion and text state are
      filled from the tasks. A video without developers leaves the state as it was. */
  function Seed(s: Session, devs: seq<Developer>): (r: Session)
    ensures |devs| == 0 ==> r == s
    ensures |devs| > 0 ==> r.activeDev == devs[0].name && r.selected == s.selected
    ensures |devs| > 0 ==> r.completion == r.initialCompletion && r.text == r.initialText
    ensures |devs| > 0 ==> ValidRecord(r.completion) && ValidRecord(r.text)
    ensures |devs| > 0 ==> forall k :: Get(r.completion, k) == LastWith(SeedEntries(devs, CompletedOf), k)
    ensures |devs| > 0 ==> forall k :: Get(r.text, k) == LastWith(SeedEntries(devs, TextOf), k)
  {
    if |devs| == 0 then s
    else
      var completion := SetAll([], SeedEntries(devs, CompletedOf));
      var text := SetAll([], SeedEntries(devs, TextOf));
      assert forall k :: Get(completion, k) == LastWith(SeedEntries(devs, CompletedOf), k) by {
        forall k { SetAllGet([], SeedEntries(devs, CompletedOf), k); }
      }
      assert forall k :: Get(text, k) == LastWith(SeedEntries(devs, TextOf), k) by {
        forall k { SetAllGet([], SeedEntries(devs, TextOf), k); }
      }
      Session(devs[0].name, completion, completion, text, text, s.selected)
  }

  /** Developer names that keys can tell apart: no dash in any name and no name twice. */
  predicate PlainNames(devs: seq<Developer>) {
    (forall a :: 0 <= a < |devs| ==> '-' !in devs[a].name) &&
    (forall a, b :: 0 <= a < b < |devs| ==> devs[a].name != devs[b].name)
  }

  lemma TaskEntriesKeys<V>(name: string, tasks: seq<Task>, f: Task -> V)
    requires '-' !in name
    ensures Seqs.Distinct(Keys(TaskEntries(name, tasks, f)))
    ensures forall k :: k in Keys(TaskEntries(name, tasks, f)) ==> DecodeKey(k).0 == name
  {
    var ks := Keys(TaskEntries(name, tasks, f));
    forall i, j | 0 <= i < j < |ks|
      ensures ks[i] != ks[j]
    {
      KeyRoundTrip(name, i);
      KeyRoundTrip(name, j);
    }
    forall k | k in ks
      ensures DecodeKey(k).0 == name
    {
      var i :| 0 <= i < |ks| && ks[i] == k;
      KeyRoundTrip(name, i);
    }
  }

  /** With plain names, seeding writes every key once, and every key names one of the
      developers. */
  lemma {:induction false} SeedEntriesKeys<V>(devs: seq<Developer>, f: Task -> V)
    requires PlainNames(devs)
    ensures Seqs.Distinct(Keys(SeedEntries(devs, f)))
    ensures forall k :: k in Keys(SeedEntries(devs, f)) ==> DecodeKey(k).0 in Names(devs)
    decreases |devs|
  {
    if |devs| > 0 {
      var prefix := devs[..|devs| - 1];
      var last := devs[|devs| - 1];
      var a := SeedEntries(prefix, f);
      var b := TaskEntries(last.name, last.tasks, f);
      SeedEntriesKeys(prefix, f);
      TaskEntriesKeys(last.name, last.tasks, f);
      KeysAppend(a, b);
      assert last.name !in Names(prefix);
      Seqs.DistinctAppend(Keys(a), Keys(b));
      assert forall k :: k in Names(prefix) ==> k in Names(devs);
      assert Names(devs)[|devs| - 1] == last.name;
    }
  }

  lemma {:induction false} SetAllFresh<V>(es: seq<Entry<V>>)
    requires Seqs.Distinct(Keys(es))
    ensures SetAll([], es) == es
    decreases |es|
  {
    if |es| > 0 {
      var init := es[..|es| - 1];
      var last := es[|es| - 1];
      assert init + [last] == es;
      KeysSnoc(init, last);
      SetAllFresh(init);
      SetFresh(init, last.key, last.value);
    }
  }

  lemma {:induction false} CountTrueAppend(a: seq<bool>, b: seq<bool>)
    ensures CountTrue(a + b) == CountTrue(a) + CountTrue(b)
    decreases |a|
  {
    if |a| == 0 {
      assert a + b == b;
    } else {
      assert (a + b)[1..] == a[1..] + b;
      CountTrueAppend(a[1..], b);
    }
  }

  lemma {:induction false} CountTrueOfCompleted(bs: seq<bool>, tasks: seq<Task>)
    requires |bs| == |tasks| && forall i :: 0 <= i < |bs| ==> bs[i] == tasks[i].Completed
    ensures CountTrue(bs) == CountDone(tasks, DoneUpper)
    decreases |bs|
  {
    if |bs| > 0 {
      CountTrueOfCompleted(bs[1..], tasks[1..]);
    }
  }

  /** Seeding writes one entry per task, and the `true` ones are the tasks marked done. */
  lemma {:induction false} SeedEntriesCount(devs: seq<Developer>)
    ensures |SeedEntries(devs, CompletedOf)| == TaskTotal(devs)
    ensures CountTrue(Values(SeedEntries(devs, CompletedOf))) == DoneTotal(devs, DoneUpper)
    decreases |devs|
  {
    if |devs| > 0 {
      var prefix := devs[..|devs| - 1];
      var last := devs[|devs| - 1];
      var a := SeedEntries(prefix, CompletedOf);
      var b := TaskEntries(last.name, last.tasks, CompletedOf);
      SeedEntriesCount(prefix);
      assert prefix + [last] == devs;
      TaskTotalAppend(prefix, [last]);
      DoneTotalAppend(prefix, [last], DoneUpper);
      assert [last][1..] == [];
      ValuesAppend(a, b);
      CountTrueAppend(Values(a), Values(b));
      CountTrueOfCompleted(Values(b), last.tasks);
    }
  }

  /** For a video whose developer names are plain, the editor's counters start at the video's
      own numbers: one entry per task, as many `true` values as tasks marked done, and each
      task's key holding its flag and text. */
  lemma SeededSession(s: Session, devs: seq<Developer>)
    requires |devs| > 0 && PlainNames(devs)
    ensures var r := Seed(s, devs);
      && CompletionStats(r).0 == TaskTotal(devs)
      && CompletionStats(r).1 == DoneTotal(devs, DoneUpper)
      && ValidSession(r)
      && forall d, i :: 0 <= d < |devs| && 0 <= i < |devs[d].tasks| ==>
           && Get(r.completion, Key(devs[d].name, i)) == Some(devs[d].tasks[i].Completed)
           && Get(r.text, Key(devs[d].name, i)) == Some(devs[d].tasks[i].text)
  {
    var r := Seed(s, devs);
    var es := SeedEntries(devs, CompletedOf);
    var ts := SeedEntries(devs, TextOf);
    SeedEntriesKeys(devs, CompletedOf);
    SeedEntriesKeys(devs, TextOf);
    SetAllFresh(es);
    SetAllFresh(ts);
    SeedEntriesCount(devs);
    forall d, i | 0 <= d < |devs| && 0 <= i < |devs[d].tasks|
      ensures Get(r.completion, Key(devs[d].name, i)) == Some(devs[d].tasks[i].Completed)
      ensures Get(r.text, Key(devs[d].name, i)) == Some(devs[d].tasks[i].text)
    {
      SeedEntryAt(devs, d, i, CompletedOf);
      SeedEntryAt(devs, d, i, TextOf);
    }
  }

  /** With plain names, the entry seeding writes for task `i` of developer `d` is the last one
      with its key. */
  lemma {:induction false} SeedEntryAt<V>(devs: seq<Developer>, d: nat, i: nat, f: Task -> V)
    requires PlainNames(devs) && d < |devs| && i < |devs[d].tasks|
    ensures LastWith(SeedEntries(devs, f), Key(devs[d].name, i)) == Some(f(devs[d].tasks[i]))
    decreases |devs|
  {
    var prefix := devs[..|devs| - 1];
    var last := devs[|devs| - 1];
    var a := SeedEntries(prefix, f);
    var b := TaskEntries(last.name, last.tasks, f);
    var k := Key(devs[d].name, i);
    assert SeedEntries(devs, f) == a + b;
    LastWithAppend(a, b, k);
    if d == |devs| - 1 {
      TaskEntriesKeys(last.name, last.tasks, f);
      LastWithDistinct(b, i);
      assert b[i] == Entry(k, f(devs[d].tasks[i]));
    } else {
      assert PlainNames(prefix);
      LastEntriesMissOtherNames(last, devs[d].name, i, f);
      SeedEntryAt(prefix, d, i, f);
    }
  }

  lemma LastEntriesMissOtherNames<V>(last: Developer, name: string, i: nat, f: Task -> V)
    requires '-' !in last.name && '-' !in name && name != last.name
    ensures LastWith(TaskEntries(last.name, last.tasks, f), Key(name, i)) == None
  {
    var b := TaskEntries(last.name, last.tasks, f);
    TaskEntriesKeys(last.name, last.tasks, f);
    KeyRoundTrip(name, i);
    LastWithAbsent(b, Key(name, i));
  }

  lemma {:induction false} LastWithAppend<V>(a: seq<Entry<V>>, b: seq<Entry<V>>, k: string)
    ensures LastWith(a + b, k) == if LastWith(b, k).Some? then LastWith(b, k) else LastWith(a, k)
    decreases |b|
  {
    if |b| == 0 {
      assert a + b == a;
    } else {
      assert (a + b)[..|a + b| - 1] == a + b[..|b| - 1];
      LastWithAppend(a, b[..|b| - 1], k);
    }
  }

  lemma {:induction false} LastWithAbsent<V>(es: seq<Entry<V>>, k: string)
    requires k !in Keys(es)
    ensures LastWith(es, k) == None
    decreases |es|
  {
    if |es| > 0 {
      assert Keys(es)[|es| - 1] == es[|es| - 1].key;
      assert Keys(es[..|es| - 1]) == Keys(es)[..|es| - 1];
      LastWithAbsent(es[..|es| - 1], k);
    }
  }

  lemma {:induction false} LastWithDistinct<V>(es: seq<Entry<V>>, i: nat)
    requires Seqs.Distinct(Keys(es)) && i < |es|
    ensures LastWith(es, es[i].key) == Some(es[i].value)
    decreases |es|
  {
    var n := |es| - 1;
    if i < n {
      var ks := Keys(es);
      assert ks[i] == es[i].key && ks[n] == es[n].key && ks[i] != ks[n];
      var init := es[..n];
      assert Keys(init) == ks[..n];
      assert init[i] == es[i];
      LastWithDistinct(init, i);
    }
  }

  // ---------------------------------------------------------------------------------------
  // Unsaved changes and the update lists

  /** `Object.keys(cur).filter(key => cur[key] !== init[key])` */
  function ChangedKeys<V(==)>(cur: Record<V>, init: Record<V>): (ks: seq<string>)
    ensures forall k :: k in ks <==> k in Keys(cur) && Get(cur, k) != Get(init, k)
    ensures Seqs.IsSubsequence(ks, Keys(cur))
  {
    Seqs.Filter(k => Get(cur, k) != Get(init, k), Keys(cur))
  }

  /** `hasUnsavedChanges`: some current key's value differs from the seeded copy, a key the
      seeded copy lacks included. Keys only the seeded copy holds are not looked at. */
  predicate Dirty(s: Session) {
    |ChangedKeys(s.completion, s.initialCompletion)| > 0 || |ChangedKeys(s.text, s.initialText)| > 0
  }

  /** A record compared with itself has no changed key. */
  lemma NoChangesAgainstItself<V>(r: Record<V>)
    ensures ChangedKeys(r, r) == []
  {
    var ks := ChangedKeys(r, r);
    assert forall j :: 0 <= j < |ks| ==> ks[j] in ks && ks[j] !in ks;
  }

  /** The update list built from changed keys, each decoded into a name and an index. */
  function UpdatesFor<V>(keys: seq<string>, cur: Record<V>, change: V -> LoomContext.Change): (us: seq<LoomContext.TaskUpdate>)
    requires forall k :: k in keys ==> k in Keys(cur)
    ensures |us| == |keys|
    ensures forall j :: 0 <= j < |keys| ==>
              us[j] == LoomContext.TaskUpdate(DecodeKey(keys[j]).0, DecodeKey(keys[j]).1, change(Get(cur, keys[j]).value))
  {
    if |keys| == 0 then []
    else
      [LoomContext.TaskUpdate(DecodeKey(keys[0]).0, DecodeKey(keys[0]).1, change(Get(cur, keys[0]).value))]
      + UpdatesFor(keys[1..], cur, change)
  }

  function CompletionChange(b: bool): LoomContext.Change { LoomContext.SetCompleted(b) }

  function TextChange(t: string): LoomContext.Change { LoomContext.SetText(t) }

  /** `taskCompletionUpdates` */
  function CompletionUpdates(s: Session): seq<LoomContext.TaskUpdate>
  {
    UpdatesFor(ChangedKeys(s.completion, s.initialCompletion), s.completion, CompletionChange)
  }

  /** `taskTextUpdates` */
  function TextUpdates(s: Session): seq<LoomContext.TaskUpdate>
  {
    UpdatesFor(ChangedKeys(s.text, s.initialText), s.text, TextChange)
  }

  /** What `saveChanges` leads to: the state after it, the update lists it passes to the
      context (none when it returns early) and the toast it shows. */
  datatype SaveResult = SaveResult(session: Session, sent: Option<(seq<LoomContext.TaskUpdate>, seq<LoomContext.TaskUpdate>)>, notice: Option<Notice>)

  /** `saveChanges`, given how the context's mutation settles. The context's own function
      catches every failure and reports it as `false`, so the `catch` here is never reached. */
  function SaveChanges(s: Session, mutation: LoomContext.Settled<Video>): (r: SaveResult)
    ensures !Dirty(s) ==> r == SaveResult(s, None, None)
    ensures Dirty(s) ==> r.sent == Some((CompletionUpdates(s), TextUpdates(s)))
    ensures Dirty(s) ==> |CompletionUpdates(s)| + |TextUpdates(s)| > 0
    ensures Dirty(s) && mutation.Resolved? ==>
              && r.session == s.(initialCompletion := s.completion, initialText := s.text)
              && !Dirty(r.session)
              && r.notice == Some(Success("Tasks updated successfully!"))
    ensures Dirty(s) && mutation.Rejected? ==>
              r.session == s && r.notice == Some(Notice.Error("Failed to update tasks, please try again."))
  {
    if !Dirty(s) then SaveResult(s, None, None)
    else
      var sent := (CompletionUpdates(s), TextUpdates(s));
      var (ok, _) := LoomContext.UpdateTaskCompletionStatus(mutation);
      if ok then
        NoChangesAgainstItself(s.completion);
        NoChangesAgainstItself(s.text);
        SaveResult(s.(initialCompletion := s.completion, initialText := s.text), Some(sent),
                   Some(Success("Tasks updated successfully!")))
      else
        SaveResult(s, Some(sent), Some(Notice.Error("Failed to update tasks, please try again.")))
  }

  // ---------------------------------------------------------------------------------------
  // Local edits

  /** `toggleTaskCompletion`: stores `!prev[taskId]`, so a key never set becomes `true`. */
  function Toggle(s: Session, dev: string, index: nat): (r: Session)
    ensures r.(completion := s.completion) == s
    ensures Get(r.completion, Key(dev, index)) == Some(Get(s.completion, Key(dev, index)) != Some(true))
    ensures forall k :: k != Key(dev, index) ==> Get(r.completion, k) == Get(s.completion, k)
    ensures ValidSession(s) ==> ValidSession(r)
  {
    var k := Key(dev, index);
    s.(completion := Set(s.completion, k, Get(s.completion, k) != Some(true)))
  }

  /** Giving one key of a record a new value makes that key the only change against it. */
  lemma ChangedKeysSingle<V>(r: Record<V>, k: string, v: V)
    requires ValidRecord(r) && Get(r, k).Some? && Get(r, k).value != v
    ensures ChangedKeys(Set(r, k, v), r) == [k]
  {
    var r' := Set(r, k, v);
    assert Keys(r') == Keys(r);
    Seqs.FilterSingle(k' => Get(r', k') != Get(r, k'), Keys(r'), k);
  }

  /** Toggling one task of a freshly seeded editor leaves exactly one pending update: the
      flipped flag for that task, addressed by name and index when the name has no dash, and
      no text update. */
  lemma ToggleThenSave(s0: Session, devs: seq<Developer>, dev: string, index: nat)
    requires |devs| > 0 && '-' !in dev
    requires Key(dev, index) in Keys(Seed(s0, devs).completion)
    ensures var s := Seed(s0, devs);
            var s1 := Toggle(s, dev, index);
            && Dirty(s1)
            && CompletionUpdates(s1) ==
                 [LoomContext.TaskUpdate(dev, Some(index), LoomContext.SetCompleted(!Get(s.completion, Key(dev, index)).value))]
            && TextUpdates(s1) == []
  {
    var s := Seed(s0, devs);
    var k := Key(dev, index);
    var was := Get(s.completion, k).value;
    ChangedKeysSingle(s.completion, k, !was);
    NoChangesAgainstItself(s.text);
    KeyRoundTrip(dev, index);
  }

  /** Toggling the same task twice restores the editor exactly. */
  lemma ToggleTwice(s: Session, dev: string, index: nat)
    requires ValidSession(s) && Key(dev, index) in Keys(s.completion)
    ensures Toggle(Toggle(s, dev, index), dev, index) == s
  {
    var k := Key(dev, index);
    var c := s.completion;
    var b := Get(c, k).value;
    var r1 := Set(c, k, !b);
    assert Toggle(s, dev, index).completion == r1;
    assert Get(r1, k) == Some(!b);
    var r2 := Set(r1, k, b);
    assert Toggle(Toggle(s, dev, index), dev, index) == s.(completion := r2);
    assert forall k' :: Get(r2, k') == Get(c, k');
    assert Keys(r2) == Keys(c);
    Extensionality(c, r2);
  }

  /** `startEditingTask`, and the inline input's `onChange`: stores the given text for the key. */
  function StartEditingTask(s: Session, dev: string, index: nat, text: string): (r: Session)
    ensures r.(text := s.text) == s
    ensures Get(r.text, Key(dev, index)) == Some(text)
    ensures forall k :: k != Key(dev, index) ==> Get(r.text, k) == Get(s.text, k)
    ensures ValidSession(s) ==> ValidSession(r)
  {
    s.(text := Set(s.text, Key(dev, index), text))
  }

  /** A click on a task's text. The click handler compares the rendered task with the current
      selection, which is always a fresh copy, so the comparison never holds and the click
      always selects. */
  function Select(s: Session, dev: string, index: nat, storedText: string): (r: Session)
    ensures r.(selected := s.selected) == s
    ensures r.selected == Some(Selection(dev, index, storedText))
  {
    s.(selected := Some(Selection(dev, index, storedText)))
  }

  /** `saveTaskTextEdit` as written: when the key's current text differs from the selected
      task's STORED text, that stored text is written back and the selection closed; otherwise
      nothing happens. */
  function SaveTaskTextEdit(s: Session): (r: Session)
    ensures s.selected.None? ==> r == s
    ensures s.selected.Some? ==>
              var k := Key(s.selected.value.dev, s.selected.value.index);
              if Get(s.text, k) == Some(s.selected.value.text) then r == s
              else r.selected.None? && Get(r.text, k) == Some(s.selected.value.text)
                   && (forall k' :: k' != k ==> Get(r.text, k') == Get(s.text, k'))
                   && r.(text := s.text, selected := s.selected) == s
  {
    match s.selected
    case None => s
    case Some(sel) =>
      var k := Key(sel.dev, sel.index);
      if Get(s.text, k) != Some(sel.text)
      then s.(text := Set(s.text, k, sel.text), selected := None)
      else s
  }

  /** `cancelTaskTextEdit` */
  function CancelTaskTextEdit(s: Session): (r: Session)
    ensures r.selected.None? && r.(selected := s.selected) == s
  {
    s.(selected := None)
  }

  /** Typing a new text into the inline editor and pressing Save loses the edit: the key ends
      up holding the stored text again, whatever was typed. */
  lemma EditThenSaveDiscardsEdit(s: Session, dev: string, index: nat, storedText: string, typed: string)
    ensures var s1 := StartEditingTask(Select(s, dev, index, storedText), dev, index, typed);
            Get(SaveTaskTextEdit(s1).text, Key(dev, index)) == Some(storedText)
  {
  }

  /** The save the inline editor evidently intends: keep what was typed and close the editor. */
  function SaveTaskTextEditKeepingEdit(s: Session): (r: Session)
    ensures r.selected.None? && r.(selected := s.selected) == s
  {
    s.(selected := None)
  }

  /** With the intended save, the typed text is what the key holds afterwards and the edit
      shows up as an unsaved change when it differs from the seeded text. */
  lemma EditThenSaveKeepsEdit(s: Session, dev: string, index: nat, storedText: string, typed: string)
    requires Get(s.initialText, Key(dev, index)) == Some(storedText) && typed != storedText
    ensures var s1 := StartEditingTask(Select(s, dev, index, storedText), dev, index, typed);
            var s2 := SaveTaskTextEditKeepingEdit(s1);
            Get(s2.text, Key(dev, index)) == Some(typed) && s2.selected.None? && Dirty(s2)
  {
    var s2 := SaveTaskTextEditKeepingEdit(StartEditingTask(Select(s, dev, index, storedText), dev, index, typed));
    var k := Key(dev, index);
    assert k in Keys(s2.text);
    assert k in ChangedKeys(s2.text, s2.initialText);
  }

  // ---------------------------------------------------------------------------------------
  // Display helpers

  function CountTrue(bs: seq<bool>): (n: nat)
    ensures n <= |bs|
  {
    if |bs| == 0 then 0 else (if bs[0] then 1 else 0) + CountTrue(bs[1..])
  }

  /** The keys of a completion state that hold `true`: the tasks marked done. */
  function DoneKeys(r: Record<bool>): set<string>
  {
    set k | k in Keys(r) && Get(r, k) == Some(true)
  }

  /** Counting the `true` values of a record with distinct keys counts its done keys. */
  lemma {:induction false} CountTrueIsDoneKeys(r: Record<bool>)
    requires ValidRecord(r)
    ensures CountTrue(Values(r)) == |DoneKeys(r)|
    decreases |r|
  {
    if |r| > 0 {
      var e := r[0];
      var rest := r[1..];
      assert [e] + rest == r;
      Cons(e, rest);
      CountTrueIsDoneKeys(rest);
      CountTrueCons(e, rest);
    }
  }

  /** The step of `CountTrueIsDoneKeys`: a fresh first entry adds one to both counts when it
      holds `true`, and nothing otherwise. */
  lemma CountTrueCons(e: Entry<bool>, rest: Record<bool>)
    requires e.key !in Keys(rest)
    requires CountTrue(Values(rest)) == |DoneKeys(rest)|
    ensures CountTrue(Values([e] + rest)) == |DoneKeys([e] + rest)|
  {
    ValuesAppend([e], rest);
    assert Values([e]) == [e.value];
    CountTrueAppend([e.value], Values(rest));
    assert CountTrue([e.value]) == if e.value then 1 else 0;
    DoneKeysCons(e, rest);
    DoneKeysWithout(rest, e.key);
  }

  /** A key the record does not hold is not among its done keys. */
  lemma DoneKeysWithout(r: Record<bool>, k: string)
    requires k !in Keys(r)
    ensures DoneKeys(r) - {k} == DoneKeys(r) && k !in DoneKeys(r)
  {
  }

  /** The done keys of a record with a first entry are that entry's key, when it holds `true`,
      besides the done keys of the rest. */
  lemma DoneKeysCons(e: Entry<bool>, rest: Record<bool>)
    ensures DoneKeys([e] + rest) == (if e.value then {e.key} else {}) + (DoneKeys(rest) - {e.key})
  {
    var r := [e] + rest;
    assert r[0] == e && r[1..] == rest;
    forall k ensures k in DoneKeys(r) <==> k in (if e.value then {e.key} else {}) + (DoneKeys(rest) - {e.key}) {
      assert Get(r, k) == if k == e.key then Some(e.value) else Get(rest, k);
    }
  }

  /** `getCompletionStats`: every key of the completion state is a task, the keys holding
      `true` are the completed ones, and the percentage is rounded. */
  function CompletionStats(s: Session): (r: (nat, nat, nat))
    ensures r.0 == |s.completion| && r.1 <= r.0 && r.2 <= 100
    ensures r.2 == Display.Percentage(r.1, r.0)
    ensures ValidRecord(s.completion) ==> r.1 == |DoneKeys(s.completion)|
  {
    var total := |Keys(s.completion)|;
    var completed := CountTrue(Values(s.completion));
    if ValidRecord(s.completion) then
      CountTrueIsDoneKeys(s.completion);
      (total, completed, Display.Percentage(completed, total))
    else
      (total, completed, Display.Percentage(completed, total))
  }

  /** Setting one key adds it to the done keys when the value is `true`, and removes it
      otherwise. */
  lemma DoneKeysSet(r: Record<bool>, k: string, v: bool)
    ensures DoneKeys(Set(r, k, v)) == if v then DoneKeys(r) + {k} else DoneKeys(r) - {k}
  {
    var r' := Set(r, k, v);
    forall k' ensures k' in DoneKeys(r') <==> k' in (if v then DoneKeys(r) + {k} else DoneKeys(r) - {k}) {
      assert k' in Keys(r') <==> k' in Keys(r) || k' == k;
    }
  }

  /** Toggling a task moves the completed count by exactly one: down when the task was done,
      up otherwise. The task count grows only when the key was not yet held. */
  lemma ToggleCount(s: Session, dev: string, index: nat)
    requires ValidRecord(s.completion)
    ensures var k := Key(dev, index);
      var before := CompletionStats(s);
      var after := CompletionStats(Toggle(s, dev, index));
      && after.0 == (if k in Keys(s.completion) then before.0 else before.0 + 1)
      && after.1 == (if Get(s.completion, k) == Some(true) then before.1 - 1 else before.1 + 1)
  {
    var k := Key(dev, index);
    var c := s.completion;
    var c' := Set(c, k, Get(c, k) != Some(true));
    assert Toggle(s, dev, index).completion == c';
    FlipCounts(c, k);
  }

  /** Flipping one key of a record with distinct keys moves its number of done keys by one,
      and adds an entry only for a key it did not hold. */
  lemma FlipCounts(c: Record<bool>, k: string)
    requires ValidRecord(c)
    ensures var c' := Set(c, k, Get(c, k) != Some(true));
      && ValidRecord(c')
      && |c'| == (if k in Keys(c) then |c| else |c| + 1)
      && |DoneKeys(c')| == (if Get(c, k) == Some(true) then |DoneKeys(c)| - 1 else |DoneKeys(c)| + 1)
  {
    var v := Get(c, k) != Some(true);
    SetLength(c, k, v);
    DoneKeysSet(c, k, v);
    if v {
      assert k !in DoneKeys(c);
      Seqs.CardAdd(DoneKeys(c), k);
    } else {
      assert k in DoneKeys(c);
      Seqs.CardRemove(DoneKeys(c), k);
    }
  }

  /** Setting a key adds an entry exactly when the key was not held. */
  lemma SetLength<V>(c: Record<V>, k: string, v: V)
    ensures |Set(c, k, v)| == if k in Keys(c) then |c| else |c| + 1
  {
    assert |Keys(Set(c, k, v))| == |Set(c, k, v)|;
  }
  /** `formatDuration`: text passes through; a number above 1000 is taken for milliseconds
      and floored to seconds, then shown as a clock. */
  function FormatDuration(d: Duration): (r: string)
    ensures d.Formatted? ==> r == d.text
    ensures d.Seconds? ==> var secs := if d.seconds > 1000 then d.seconds / 1000 else d.seconds;
              Display.ParseClock(r) == Some((secs / 60, secs % 60))
  {
    match d
    case Formatted(t) => t
    case Seconds(n) =>
      var secs := if n > 1000 then n / 1000 else n;
      Display.ClockRoundTrip(secs);
      Display.Clock(secs)
  }

  /** A recording of exactly 1000 seconds shows as 16:40, one of 1001 seconds as 0:01. */
  lemma MillisecondHeuristicBoundary()
    ensures Display.ParseClock(FormatDuration(Seconds(1000))) == Some((16, 40))
    ensures Display.ParseClock(FormatDuration(Seconds(1001))) == Some((0, 1))
  {
  }

  /** `video.link.replace("share/", "embed/")`: only the first occurrence is replaced. */
  function EmbedUrl(link: string): (r: string)
    ensures r == link <==> !Contains(link, "share/")
    ensures IndexOf(link, "share/").Some? ==>
              var i := IndexOf(link, "share/").value;
              |r| == |link| && r[..i] == link[..i] && r[i..i + 6] == "embed/" && r[i + 6..] == link[i + 6..]
  {
    ContainsIffIndexOf(link, "share/");
    var r := ReplaceFirst(link, "share/", "embed/");
    assert IndexOf(link, "share/").Some? ==>
      r[IndexOf(link, "share/").value] != link[IndexOf(link, "share/").value];
    r
  }
}
