/**
 * What `GetOne` and `GetAll` report about stored report jobs: a status
 * derived from the job's completion and fault flags, the result of a
 * completed job, and the number of jobs in each status.
 *
 * The job table is a list of stored jobs.
 */
module TaskStatus {
  import opened Wrappers
  import opened FileParsing

  /** A stored job: `ReportTask` with its reports. */
  datatype ReportTask = ReportTask(id: string, isCompleted: bool, isFaulted: bool, reports: seq<Report>)

  /** The three states a job is reported in. */
  datatype Status = Completed | Faulted | InProgress

  /** `TaskInfo`: a job's id, its status text and, for a completed job, its reports. */
  datatype TaskInfo = TaskInfo(id: string, status: string, result: Option<seq<Report>>)

  /** `TasksInfo`: every job's info and the number of jobs overall and per status. */
  datatype TasksInfo = TasksInfo(
    tasks: seq<TaskInfo>,
    numberOfTasks: nat,
    numberOfCompletedTasks: nat,
    numberOfFaultedTasks: nat,
    numberOfInProgressTasks: nat)

  /** Why `GetOne` returns no info. */
  datatype LookupError =
    | NotFound     // no job has the id
    | AmbiguousId  // `SingleOrDefault` throws: several jobs have the id

  /** Completion wins over a fault; a job that is neither is in progress. */
  function StatusOf(isCompleted: bool, isFaulted: bool): (s: Status)
    ensures s == Completed <==> isCompleted
    ensures s == Faulted <==> !isCompleted && isFaulted
    ensures s == InProgress <==> !isCompleted && !isFaulted
  {
    if isCompleted then Completed else if isFaulted then Faulted else InProgress
  }

  /** The status text the API reports. */
  function Label(s: Status): string {
    match s
    case Completed => "Completed"
    case Faulted => "Faulted"
    case InProgress => "In progress"
  }

  /** Distinct states have distinct texts, so the text determines the state. */
  lemma LabelInjective(s: Status, t: Status)
    ensures Label(s) == Label(t) <==> s == t
  {
    assert "Completed"[0] != "Faulted"[0];
    assert "Faulted"[0] != "In progress"[0];
    assert "In progress"[0] != "Completed"[0];
  }

  /** The info `GetOne` returns for a job it found. */
  function Info(t: ReportTask): (info: TaskInfo)
    ensures info.id == t.id
    ensures info.status == Label(StatusOf(t.isCompleted, t.isFaulted))
    ensures info.result.Some? <==> info.status == "Completed"
    ensures info.result.Some? ==> info.result.value == t.reports
  {
    LabelInjective(StatusOf(t.isCompleted, t.isFaulted), Completed);
    if t.isCompleted then TaskInfo(t.id, "Completed", Some(t.reports))
    else if t.isFaulted then TaskInfo(t.id, "Faulted", None)
    else TaskInfo(t.id, "In progress", None)
  }

  /** The jobs with the given id, in table order. */
  function WithId(tasks: seq<ReportTask>, id: string): (found: seq<ReportTask>)
    ensures |found| <= |tasks|
    ensures forall t :: t in found <==> t in tasks && t.id == id
    ensures found == [] <==> forall i :: 0 <= i < |tasks| ==> tasks[i].id != id
  {
    if |tasks| == 0 then []
    else
      var n := |tasks| - 1;
      var front := WithId(tasks[..n], id);
      assert tasks == tasks[..n] + [tasks[n]];
      if tasks[n].id == id then front + [tasks[n]] else front
  }

  /** `GetOne(id)`: the single job with the id, or why there is none. */
  function GetOne(tasks: seq<ReportTask>, id: string): (r: Result<TaskInfo, LookupError>)
    ensures r == Failure(NotFound) <==> forall i :: 0 <= i < |tasks| ==> tasks[i].id != id
    ensures r.Success? ==> exists i :: 0 <= i < |tasks| && tasks[i].id == id && r.value == Info(tasks[i])
    ensures r.Success? ==> (r.value.result.Some? <==> r.value.status == "Completed")
  {
    var found := WithId(tasks, id);
    if |found| == 0 then
      assert forall i :: 0 <= i < |tasks| && tasks[i].id == id ==> tasks[i] in found;
      Failure(NotFound)
    else
      assert found[0] in found;
      if |found| > 1 then Failure(AmbiguousId) else Success(Info(found[0]))
  }

  /** With unique ids, a job's id finds exactly that job. */
  lemma GetOneFinds(tasks: seq<ReportTask>, k: nat)
    requires k < |tasks|
    requires forall i, j :: 0 <= i < j < |tasks| ==> tasks[i].id != tasks[j].id
    ensures GetOne(tasks, tasks[k].id) == Success(Info(tasks[k]))
  {
    var found := WithId(tasks, tasks[k].id);
    assert tasks[k] in found;
    if |found| > 1 {
      assert found[0] in tasks && found[1] in tasks;
      var i :| 0 <= i < |tasks| && tasks[i] == found[0];
      var j :| 0 <= j < |tasks| && tasks[j] == found[1];
      assert i == k && j == k;
      WithIdDistinct(tasks, tasks[k].id);
    }
  }

  /** With unique ids, the jobs an id finds are distinct entries. */
  lemma {:induction false} WithIdDistinct(tasks: seq<ReportTask>, id: string)
    requires forall i, j :: 0 <= i < j < |tasks| ==> tasks[i].id != tasks[j].id
    ensures |WithId(tasks, id)| <= 1
  {
    if |tasks| > 0 {
      var n := |tasks| - 1;
      var front := tasks[..n];
      WithIdDistinct(front, id);
      if tasks[n].id == id {
        assert forall j :: 0 <= j < n ==> front[j].id != id;
      }
    }
  }

  /** The info `GetAll` lists for a job: its id and status text, no result. */
  function Brief(t: ReportTask): TaskInfo {
    TaskInfo(t.id, Label(StatusOf(t.isCompleted, t.isFaulted)), None)
  }

  /** `tasksInfo.Tasks.Count(task => task.Status == status)`. */
  function CountStatusText(infos: seq<TaskInfo>, status: string): (n: nat)
    ensures n <= |infos|
  {
    if |infos| == 0 then 0
    else CountStatusText(infos[..|infos| - 1], status) + if infos[|infos| - 1].status == status then 1 else 0
  }

  /** The number of jobs whose flags give status `s`. */
  function CountStatus(tasks: seq<ReportTask>, s: Status): nat {
    if |tasks| == 0 then 0
    else
      var t := tasks[|tasks| - 1];
      CountStatus(tasks[..|tasks| - 1], s) + if StatusOf(t.isCompleted, t.isFaulted) == s then 1 else 0
  }

  /** `GetAll()`: the brief info of every job and the counters over their status texts. */
  function GetAll(tasks: seq<ReportTask>): (r: TasksInfo)
    ensures |r.tasks| == r.numberOfTasks == |tasks|
    ensures forall i :: 0 <= i < |tasks| ==> r.tasks[i] == Brief(tasks[i])
  {
    var infos := seq(|tasks|, i requires 0 <= i < |tasks| => Brief(tasks[i]));
    TasksInfo(
      infos,
      |infos|,
      CountStatusText(infos, "Completed"),
      CountStatusText(infos, "Faulted"),
      CountStatusText(infos, "In progress"))
  }

  /** Counting status texts over the briefs counts the jobs in that status. */
  lemma {:induction false} CountStatusTextOfBriefs(tasks: seq<ReportTask>, s: Status)
    ensures CountStatusText(GetAll(tasks).tasks, Label(s)) == CountStatus(tasks, s)
  {
    if |tasks| > 0 {
      var n := |tasks| - 1;
      var infos, front := GetAll(tasks).tasks, GetAll(tasks[..n]).tasks;
      assert infos[..n] == front;
      CountStatusTextOfBriefs(tasks[..n], s);
      LabelInjective(StatusOf(tasks[n].isCompleted, tasks[n].isFaulted), s);
    }
  }

  /** Every job is in exactly one of the three states. */
  lemma {:induction false} CountStatusPartition(tasks: seq<ReportTask>)
    ensures CountStatus(tasks, Completed) + CountStatus(tasks, Faulted) + CountStatus(tasks, InProgress) == |tasks|
  {
    if |tasks| > 0 {
      CountStatusPartition(tasks[..|tasks| - 1]);
    }
  }

  /**
   * The counters of `GetAll` add up to the number of jobs, and each counts
   * the jobs whose flags give that status.
   */
  lemma GetAllCounters(tasks: seq<ReportTask>)
    ensures var r := GetAll(tasks);
      && r.numberOfCompletedTasks == CountStatus(tasks, Completed)
      && r.numberOfFaultedTasks == CountStatus(tasks, Faulted)
      && r.numberOfInProgressTasks == CountStatus(tasks, InProgress)
      && r.numberOfCompletedTasks + r.numberOfFaultedTasks + r.numberOfInProgressTasks == r.numberOfTasks
  {
    CountStatusTextOfBriefs(tasks, Completed);
    CountStatusTextOfBriefs(tasks, Faulted);
    CountStatusTextOfBriefs(tasks, InProgress);
    CountStatusPartition(tasks);
  }
}
