/** The stored record of one analysed recording: a video has developers, each developer has an
    ordered list of tasks, and a task is identified only by its developer's name and its
    position in that list. */
module Loom {
  import opened Wrappers

  /** One extracted action item. `Completed` is the flag the analysis writes and most views
      read; `completed` is the lower-case field the task editor's save path writes (absent until
      the first save) and the statistics panel reads. */
  datatype Task = Task(text: string, timestamp: string, Completed: bool, completed: Option<bool>)

  datatype Developer = Developer(name: string, tasks: seq<Task>)

  /** The `llm_answer` column. */
  datatype Analysis = Analysis(project: string, developers: seq<Developer>)

  /** The source stores a duration either as a number of seconds or as preformatted text. */
  datatype Duration = Seconds(seconds: nat) | Formatted(text: string)

  /** The columns no view model reads. */
  datatype Columns = Columns(
    date: string, transcript: string, createdAt: string, updatedAt: string,
    model: string, usage: int, description: string, thumbnail: string)

  /** One row of the recordings table. An absent `project` or `recording_type` is the empty
      string. */
  datatype Video = Video(
    id: string, title: string, link: string, project: string, recordingType: string,
    duration: Duration, analysis: Analysis, columns: Columns)

  /** A toast shown through the notification hook. */
  datatype Notice = Success(message: string) | Error(message: string) | Info(message: string)

  /** A task counts as done when its upper-case `Completed` flag is set. */
  predicate DoneUpper(t: Task) {
    t.Completed
  }

  /** A task counts as done when its lower-case `completed` field is present and true. */
  predicate DoneLower(t: Task) {
    t.completed == Some(true)
  }

  /** The number of tasks satisfying `done`. */
  function CountDone(tasks: seq<Task>, done: Task -> bool): (n: nat)
    ensures n <= |tasks|
  {
    if |tasks| == 0 then 0
    else (if done(tasks[0]) then 1 else 0) + CountDone(tasks[1..], done)
  }

  lemma {:induction false} CountDoneAppend(a: seq<Task>, b: seq<Task>, done: Task -> bool)
    ensures CountDone(a + b, done) == CountDone(a, done) + CountDone(b, done)
  {
    if |a| == 0 {
      assert a + b == b;
    } else {
      assert (a + b)[1..] == a[1..] + b;
      CountDoneAppend(a[1..], b, done);
    }
  }

  /** The tasks of all developers, developer by developer, each in its own order. */
  function AllTasks(devs: seq<Developer>): seq<Task>
  {
    if |devs| == 0 then [] else devs[0].tasks + AllTasks(devs[1..])
  }

  /** The number of tasks over all developers. */
  function TaskTotal(devs: seq<Developer>): (n: nat)
    ensures n == |AllTasks(devs)|
  {
    if |devs| == 0 then 0 else |devs[0].tasks| + TaskTotal(devs[1..])
  }

  /** The number of tasks satisfying `done` over all developers. */
  function DoneTotal(devs: seq<Developer>, done: Task -> bool): (n: nat)
    ensures n == CountDone(AllTasks(devs), done)
  {
    if |devs| == 0 then 0
    else
      CountDoneAppend(devs[0].tasks, AllTasks(devs[1..]), done);
      CountDone(devs[0].tasks, done) + DoneTotal(devs[1..], done)
  }

  /** No count of done tasks exceeds the number of tasks. */
  lemma {:induction false} DoneTotalBound(devs: seq<Developer>, done: Task -> bool)
    ensures DoneTotal(devs, done) <= TaskTotal(devs)
  {
    if |devs| > 0 {
      DoneTotalBound(devs[1..], done);
    }
  }

  lemma {:induction false} TaskTotalAppend(a: seq<Developer>, b: seq<Developer>)
    ensures TaskTotal(a + b) == TaskTotal(a) + TaskTotal(b)
  {
    if |a| == 0 {
      assert a + b == b;
    } else {
      assert (a + b)[1..] == a[1..] + b;
      TaskTotalAppend(a[1..], b);
    }
  }

  lemma {:induction false} DoneTotalAppend(a: seq<Developer>, b: seq<Developer>, done: Task -> bool)
    ensures DoneTotal(a + b, done) == DoneTotal(a, done) + DoneTotal(b, done)
  {
    if |a| == 0 {
      assert a + b == b;
    } else {
      assert (a + b)[1..] == a[1..] + b;
      DoneTotalAppend(a[1..], b, done);
    }
  }

  /** The developer names of a video, in order. */
  function Names(devs: seq<Developer>): (ns: seq<string>)
    ensures |ns| == |devs|
    ensures forall i :: 0 <= i < |devs| ==> ns[i] == devs[i].name
  {
    if |devs| == 0 then [] else [devs[0].name] + Names(devs[1..])
  }
}
