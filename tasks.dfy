/**
 * The task mapper and the task filter of the Jira client: each issue record
 * of the search response becomes a `Task`, with fixed stand-ins for the
 * fields an issue may lack, and the tasks in states the board does not show
 * are dropped.
 */
module Tasks {
  import opened Wrappers
  import opened Strings
  import opened Seqs
  import opened RichText

  /** `fields.assignee`, when the issue has one. */
  datatype User = User(displayName: string)

  /** `fields.description`, when the issue has one; its `content` may itself be absent. */
  datatype DescriptionField = DescriptionField(content: Option<seq<Block>>)

  /** One entry of the sprint field `fields.customfield_10020`. */
  datatype SprintRef = SprintRef(name: string)

  /** The parts of one issue record of the search response that the client reads. */
  datatype Issue = Issue(
    key: string,
    status: string,                    // fields.status.name
    summary: string,                   // fields.summary
    issueType: string,                 // fields.issuetype.name
    assignee: Option<User>,
    description: Option<DescriptionField>,
    sprints: Option<seq<SprintRef>>)

  /** The canonical task, with the eight fields the client passes to it. */
  datatype Task = Task(
    id: string,
    state: string,
    title: string,
    taskType: string,
    assignedTo: string,
    link: string,
    desc: string,
    sprintName: string)

  const Unassigned := "Unassigned"
  const NoSprintName := "No Name"

  /** The browser address of an issue: `https://{baseUrl}/browse/{key}`. */
  function IssueLink(baseUrl: string, key: string): string
  {
    "https://" + baseUrl + "/browse/" + key
  }

  function DescriptionText(field: Option<DescriptionField>): string
  {
    match field
    case Some(d) => Extract(d.content)
    case None => Extract(Some([]))
  }

  function SprintName(sprints: Option<seq<SprintRef>>): string
  {
    if sprints.Some? && |sprints.value| > 0 then sprints.value[0].name else NoSprintName
  }

  /** The mapping from one issue record to a task. */
  function ToTask(issue: Issue, baseUrl: string): Task
  {
    Task(
      id := issue.key,
      state := issue.status,
      title := issue.summary,
      taskType := issue.issueType,
      assignedTo := match issue.assignee case Some(u) => u.displayName case None => Unassigned,
      link := IssueLink(baseUrl, issue.key),
      desc := DescriptionText(issue.description),
      sprintName := SprintName(issue.sprints))
  }

  /**
   * Every issue maps to a task, whatever fields it lacks: the id is the
   * issue key, a missing assignee reads "Unassigned", a missing description
   * the empty text, a missing or empty sprint list "No Name", and the link
   * is the base URL's browse address of the key.
   */
  lemma ToTaskFields(issue: Issue, baseUrl: string)
    ensures ToTask(issue, baseUrl).id == issue.key
    ensures ToTask(issue, baseUrl).state == issue.status
    ensures ToTask(issue, baseUrl).title == issue.summary
    ensures ToTask(issue, baseUrl).taskType == issue.issueType
    ensures ToTask(issue, baseUrl).link == "https://" + baseUrl + "/browse/" + issue.key
    ensures issue.assignee.None? ==> ToTask(issue, baseUrl).assignedTo == "Unassigned"
    ensures issue.assignee.Some? ==> ToTask(issue, baseUrl).assignedTo == issue.assignee.value.displayName
    ensures issue.description.None? ==> ToTask(issue, baseUrl).desc == ""
    ensures issue.description.Some? ==> ToTask(issue, baseUrl).desc == Extract(issue.description.value.content)
    ensures issue.sprints.None? || issue.sprints == Some([]) ==> ToTask(issue, baseUrl).sprintName == "No Name"
    ensures issue.sprints.Some? && issue.sprints.value != [] ==>
      ToTask(issue, baseUrl).sprintName == issue.sprints.value[0].name
  {
  }

  /** The link determines the issue key: two issues of one server with the same link have the same key. */
  lemma {:induction false} LinkDeterminesKey(baseUrl: string, key1: string, key2: string)
    ensures IssueLink(baseUrl, key1) == IssueLink(baseUrl, key2) <==> key1 == key2
  {
    var prefix := "https://" + baseUrl + "/browse/";
    assert IssueLink(baseUrl, key1)[|prefix|..] == key1;
    assert IssueLink(baseUrl, key2)[|prefix|..] == key2;
  }

  /** `issues.map(...)`: one task per issue, in the same order. */
  function ToTasks(issues: seq<Issue>, baseUrl: string): (r: seq<Task>)
    ensures |r| == |issues|
    ensures forall i :: 0 <= i < |issues| ==> r[i] == ToTask(issues[i], baseUrl)
  {
    if issues == [] then [] else [ToTask(issues[0], baseUrl)] + ToTasks(issues[1..], baseUrl)
  }

  /**
   * The `.filter` callback. JavaScript's `&&` binds tighter than `||`, so the
   * condition reads `!((A && B) || C || D)`: only the "Backlog" state is gated
   * by the assignee; "PM Evaluation" and "Ready for Engineering" are dropped
   * whoever the assignee is.
   */
  predicate IsActive(t: Task)
  {
    !((Contains(t.assignedTo, "Venet") && t.state == "Backlog")
      || t.state == "PM Evaluation"
      || t.state == "Ready for Engineering")
  }

  /**
   * `tasks.filter(IsActive)`: keeps the active tasks, each as often as it
   * occurs, in their order, and nothing else.
   */
  function FilterActive(tasks: seq<Task>): (r: seq<Task>)
    ensures IsSubsequence(r, tasks)
    ensures forall t :: t in r ==> IsActive(t)
    ensures forall t :: multiset(r)[t] == if IsActive(t) then multiset(tasks)[t] else 0
  {
    if tasks == [] then []
    else
      var rest := FilterActive(tasks[1..]);
      assert tasks == [tasks[0]] + tasks[1..];
      if IsActive(tasks[0]) then
        assert ([tasks[0]] + rest)[1..] == rest;
        [tasks[0]] + rest
      else rest
  }

  /**
   * The exclusion policy as written: "PM Evaluation" and "Ready for
   * Engineering" are always excluded, "Backlog" exactly when the assignee's
   * name contains "Venet", and every other state is kept.
   */
  lemma ExclusionPolicy(t: Task)
    ensures t.state == "PM Evaluation" ==> !IsActive(t)
    ensures t.state == "Ready for Engineering" ==> !IsActive(t)
    ensures t.state == "Backlog" ==> (IsActive(t) <==> !(exists i :: OccursAt(t.assignedTo, "Venet", i)))
    ensures t.state != "Backlog" && t.state != "PM Evaluation" && t.state != "Ready for Engineering" ==> IsActive(t)
  {
  }

  /** Outside "Backlog", the assignee makes no difference to whether a task is kept. */
  lemma AssigneeGatesOnlyBacklog(t: Task, assignedTo: string)
    requires t.state != "Backlog"
    ensures IsActive(t) == IsActive(t.(assignedTo := assignedTo))
  {
  }
}
