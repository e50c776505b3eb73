/** `run`: commits of the range, their pull requests, the task ids in those,
    and the Monday.com updates. The output of `git log` and the replies of
    GitHub and Monday.com are inputs. */
module Action {
  import opened Wrappers
  import CommitLog
  import PullRequests
  import Tickets
  import Monday
  import Text

  /** How a run ends. `RangeFailed`: the `git log` call threw and the action
      is marked failed. `NoTaskIds`: no ticket line was found; a warning is
      logged and nothing is sent to Monday.com. `Finished`: the update phase
      ran and the action logs success, whatever the report holds. */
  datatype RunResult =
    | RangeFailed
    | NoTaskIds(prs: seq<PullRequests.PullRequest>)
    | Finished(taskIds: seq<string>, report: Monday.Report)

  /** `run` after the inputs are read: `gitLog` is the output of
      `git log --oneline <range>`, `None` when the call throws. */
  function Run(gitLog: Option<string>, github: string -> PullRequests.CommitReplies,
               monday: Monday.Call -> Monday.Reply, s: Monday.Settings): (r: RunResult)
    ensures gitLog.None? <==> r.RangeFailed?
    ensures r.Finished? ==> r.taskIds != [] && r.report == Monday.UpdateTasks(monday, s, r.taskIds)
  {
    match gitLog
    case None => RangeFailed
    case Some(output) =>
      var commits := CommitLog.ParseLog(output);
      var prs := PullRequests.FindPullRequests(commits, github);
      var taskIds := Tickets.ExtractTaskIds(prs);
      if taskIds == [] then NoTaskIds(prs)
      else Finished(taskIds, Monday.UpdateTasks(monday, s, taskIds))
  }

  /** The requests a run sends to Monday.com. */
  function MondayCalls(r: RunResult): seq<Monday.Call> {
    if r.Finished? then Monday.AllCalls(r.report) else []
  }

  /** The task ids of a run that read the log: those of the pull requests
      found for the commits of the log. */
  function TaskIdsOf(output: string, github: string -> PullRequests.CommitReplies): seq<string> {
    Tickets.ExtractTaskIds(PullRequests.FindPullRequests(CommitLog.ParseLog(output), github))
  }

  /** The update phase is entered exactly when task ids were found, and only
      then does the run talk to Monday.com. */
  lemma UpdateOnlyWithTaskIds(output: string, github: string -> PullRequests.CommitReplies,
                              monday: Monday.Call -> Monday.Reply, s: Monday.Settings)
    ensures var r := Run(Some(output), github, monday, s);
            && (r.Finished? <==> TaskIdsOf(output, github) != [])
            && (r.NoTaskIds? <==> TaskIdsOf(output, github) == [])
            && (r.NoTaskIds? ==> MondayCalls(r) == [])
            && (r.Finished? ==> r.taskIds == TaskIdsOf(output, github) && MondayCalls(r)[0] == Monday.ItemById(r.taskIds[0]))
  {
  }

  /** A blank log means no commits, no pull requests and no task ids. */
  lemma BlankLogFindsNothing(output: string, github: string -> PullRequests.CommitReplies,
                             monday: Monday.Call -> Monday.Reply, s: Monday.Settings)
    requires Text.AllSpace(output)
    ensures Run(Some(output), github, monday, s) == NoTaskIds([])
  {
    CommitLog.ParseBlankLog(output);
    assert PullRequests.FindPullRequests([], github) == [];
    assert Tickets.AllCaptures([]) == [];
  }

  /** A board that cannot be found still ends the run as finished, with no
      task processed: the action logs an error but does not mark itself failed. */
  lemma MissingBoardStillFinishes(output: string, github: string -> PullRequests.CommitReplies,
                                  monday: Monday.Call -> Monday.Reply, s: Monday.Settings)
    requires TaskIdsOf(output, github) != []
    requires Monday.BoardFrom(monday(Monday.ItemById(TaskIdsOf(output, github)[0]))).None?
    ensures var r := Run(Some(output), github, monday, s);
            r.Finished? && r.report.tasks == [] && MondayCalls(r) == [Monday.ItemById(r.taskIds[0])]
  {
    Monday.NoBoardNoTasks(monday, s, TaskIdsOf(output, github));
  }
}
