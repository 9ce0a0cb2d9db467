/**
 * One synchronisation with Jira, without its effects: the search query built
 * from the settings, the active tasks made from the issues the search
 * returns, and the board those tasks and their column sequence make up.
 * Sending the query, writing notes and writing the board file are effects
 * and are not part of this module; the issues are its input.
 */
module Sync {
  import opened Seqs
  import opened Tasks
  import opened Columns
  import opened Assignees

  /** The settings the synchronisation reads. */
  datatype Settings = Settings(baseUrl: string, usernames: string)

  /** The board identifier the Kanban board is created with. */
  const BoardId := "FP"

  /** What the synchronisation hands to the board writer. */
  datatype Board = Board(id: string, tasks: seq<Task>, columns: seq<string>)

  /** The search query for the configured usernames. */
  function SearchQuery(settings: Settings): string
  {
    Jql(ParseUsernames(settings.usernames))
  }

  /**
   * The query for a setting that lists some usernames, each quoted, is the
   * query for exactly those usernames: `AssigneePartOfJql` and `TermsSplit`
   * then say what stands between its parentheses.
   */
  lemma SearchQueryOf(settings: Settings, us: seq<string>)
    requires us != [] && settings.usernames == FormatUsernames(us)
    requires forall i :: 0 <= i < |us| ==> '\n' !in us[i]
    ensures SearchQuery(settings) == Jql(us)
  {
    ParseFormat(us);
  }

  /** `activeTasks`: the issues mapped to tasks, then filtered. */
  function ActiveTasks(issues: seq<Issue>, baseUrl: string): seq<Task>
  {
    FilterActive(ToTasks(issues, baseUrl))
  }

  /** The board made from the issues the search returned. */
  function PlanBoard(settings: Settings, issues: seq<Issue>): Board
  {
    var tasks := ActiveTasks(issues, settings.baseUrl);
    Board(BoardId, tasks, ColumnIds(tasks))
  }

  /** A task is active and in the filtered list exactly when some issue maps to it and it passes the filter. */
  lemma ActiveTasksMembers(issues: seq<Issue>, baseUrl: string)
    ensures forall t :: t in ActiveTasks(issues, baseUrl) <==>
      IsActive(t) && exists i :: 0 <= i < |issues| && ToTask(issues[i], baseUrl) == t
  {
    var all := ToTasks(issues, baseUrl);
    var active := ActiveTasks(issues, baseUrl);
    forall t ensures t in active <==> IsActive(t) && t in all {
      assert t in active <==> multiset(active)[t] > 0;
      assert t in all <==> multiset(all)[t] > 0;
    }
    forall t ensures t in all <==> exists i :: 0 <= i < |issues| && ToTask(issues[i], baseUrl) == t {
      if t in all {
        var i :| 0 <= i < |all| && all[i] == t;
        assert ToTask(issues[i], baseUrl) == t;
      }
    }
  }

  /**
   * The board: it lists the active tasks, each made from a returned issue
   * and linked to that issue's browse address; its columns are exactly the
   * states of those tasks, each once; and since the filter drops them, the
   * "PM Evaluation" and "Ready for Engineering" states never become
   * columns, although the latter is in the column order.
   */
  lemma PlanBoardProperties(settings: Settings, issues: seq<Issue>)
    ensures PlanBoard(settings, issues).id == BoardId
    ensures forall t :: t in PlanBoard(settings, issues).tasks <==>
      IsActive(t) && exists i :: 0 <= i < |issues| && ToTask(issues[i], settings.baseUrl) == t
    ensures forall t :: t in PlanBoard(settings, issues).tasks ==> t.link == IssueLink(settings.baseUrl, t.id)
    ensures NoDuplicates(PlanBoard(settings, issues).columns)
    ensures forall c :: c in PlanBoard(settings, issues).columns <==>
      exists t :: t in PlanBoard(settings, issues).tasks && t.state == c
    ensures "PM Evaluation" !in PlanBoard(settings, issues).columns
    ensures "Ready for Engineering" !in PlanBoard(settings, issues).columns
  {
    var b := PlanBoard(settings, issues);
    BoardTasks(settings, issues);
    ColumnIdsStates(b.tasks);
    ExcludedStatesNoColumns(b.tasks);
  }

  /** Every task of the board comes from a returned issue, passes the filter, and links to the issue's browse address. */
  lemma BoardTasks(settings: Settings, issues: seq<Issue>)
    ensures forall t :: t in PlanBoard(settings, issues).tasks <==>
      IsActive(t) && exists i :: 0 <= i < |issues| && ToTask(issues[i], settings.baseUrl) == t
    ensures forall t :: t in PlanBoard(settings, issues).tasks ==> t.link == IssueLink(settings.baseUrl, t.id)
  {
    var tasks := PlanBoard(settings, issues).tasks;
    ActiveTasksMembers(issues, settings.baseUrl);
    forall t | t in tasks ensures t.link == IssueLink(settings.baseUrl, t.id) {
      var i :| 0 <= i < |issues| && ToTask(issues[i], settings.baseUrl) == t;
    }
  }

  /** Tasks that all pass the filter never give a "PM Evaluation" or a "Ready for Engineering" column. */
  lemma ExcludedStatesNoColumns(tasks: seq<Task>)
    requires forall t :: t in tasks ==> IsActive(t)
    ensures "PM Evaluation" !in ColumnIds(tasks)
    ensures "Ready for Engineering" !in ColumnIds(tasks)
  {
    ColumnIdsStates(tasks);
    forall t | t in tasks ensures t.state != "PM Evaluation" && t.state != "Ready for Engineering" {
      ExclusionPolicy(t);
    }
  }
}
