/**
  The task list held by the task manager component: seeding from the remote
  to-do records, adding, deleting, changing a status, the filtered and
  searched view shown in the table, and the counts by status.

  Every operation is a pure function from the current list to the next one.
  Statuses are plain strings, because a cell edit can write any text into a
  status, and ids are not unique, because a new id is the list's length plus
  one.
 */
module TaskManager {

  import opened Seqs
  import opened Text
  import opened Wrappers
  import AddTaskForm

  datatype Task = Task(id: int, title: string, description: string, status: string)

  /** A record of the remote to-do list the component is seeded from. */
  datatype Todo = Todo(id: int, title: string, completed: bool)

  const ToDo := "To Do"
  const InProgress := "In Progress"
  const Done := "Done"

  /** One of the three statuses the status editor and filter offer. */
  predicate IsKnownStatus(s: string)
  {
    s == ToDo || s == InProgress || s == Done
  }

  // Predicates handed to `Filter`; each is written once so that every use
  // of it names the same function.

  function IdIsNot(id: int): Task -> bool
  {
    (t: Task) => t.id != id
  }

  function IdIs(id: int): Task -> bool
  {
    (t: Task) => t.id == id
  }

  function StatusIs(status: string): Task -> bool
  {
    (t: Task) => t.status == status
  }

  function IdAndStatusAre(id: int, status: string): Task -> bool
  {
    (t: Task) => t.id == id && t.status == status
  }

  /** The ids of the tasks, in list order. */
  function Ids(tasks: seq<Task>): (ids: seq<int>)
    ensures |ids| == |tasks| && forall i :: 0 <= i < |tasks| ==> ids[i] == tasks[i].id
  {
    seq(|tasks|, i requires 0 <= i < |tasks| => tasks[i].id)
  }

  /** The statuses of the tasks, in list order. */
  function Statuses(tasks: seq<Task>): (statuses: seq<string>)
    ensures |statuses| == |tasks| && forall i :: 0 <= i < |tasks| ==> statuses[i] == tasks[i].status
  {
    seq(|tasks|, i requires 0 <= i < |tasks| => tasks[i].status)
  }

  /** The number of tasks carrying `id`: how often `id` occurs among the ids. */
  function CountWithId(tasks: seq<Task>, id: int): (c: nat)
    ensures c == multiset(Ids(tasks))[id]
  {
    IdCountIsMultiplicity(tasks, id);
    |Filter(tasks, IdIs(id))|
  }

  /**
    The number of tasks whose status is exactly `status`: how often
    `status` occurs among the statuses, hence at most the length of the
    list, and zero exactly when no task has that status.
   */
  function CountStatus(tasks: seq<Task>, status: string): (c: nat)
    ensures c == multiset(Statuses(tasks))[status]
    ensures c <= |tasks|
    ensures c == 0 <==> forall t :: t in tasks ==> t.status != status
  {
    var r := Filter(tasks, StatusIs(status));
    StatusCountIsMultiplicity(tasks, status);
    assert |r| > 0 ==> r[0] in r;
    |r|
  }

  /** Filtering by id keeps as many tasks as the id occurs among the ids. */
  lemma {:induction false} IdCountIsMultiplicity(tasks: seq<Task>, id: int)
    ensures |Filter(tasks, IdIs(id))| == multiset(Ids(tasks))[id]
    decreases |tasks|
  {
    if |tasks| > 0 {
      IdCountIsMultiplicity(tasks[1..], id);
      assert Ids(tasks) == [tasks[0].id] + Ids(tasks[1..]);
    }
  }

  /** Filtering by status keeps as many tasks as the status occurs among the statuses. */
  lemma {:induction false} StatusCountIsMultiplicity(tasks: seq<Task>, status: string)
    ensures |Filter(tasks, StatusIs(status))| == multiset(Statuses(tasks))[status]
    decreases |tasks|
  {
    if |tasks| > 0 {
      StatusCountIsMultiplicity(tasks[1..], status);
      assert Statuses(tasks) == [tasks[0].status] + Statuses(tasks[1..]);
    }
  }

  // ---------------------------------------------------------------------
  // Seeding

  /** At most this many remote records are kept. */
  const SeedLimit := 20

  const DescriptionPrefix := "Task Description "

  /**
    The description a seeded task gets: the fixed prefix followed by the
    id as a canonical decimal numeral (no leading zero, a minus sign exactly
    when the id is negative) that reads back as the id.
   */
  function SeedDescription(id: int): (d: string)
    ensures StartsWith(d, DescriptionPrefix)
    ensures var numeral := d[|DescriptionPrefix|..];
      && IsCanonicalNumeral(numeral)
      && (numeral[0] == '-' <==> id < 0)
      && ParseInt(numeral) == Some(id)
  {
    assert (DescriptionPrefix + IntToString(id))[|DescriptionPrefix|..] == IntToString(id);
    DescriptionPrefix + IntToString(id)
  }

  /** Distinct ids give distinct seeded descriptions. */
  lemma SeedDescriptionInjective(a: int, b: int)
    requires SeedDescription(a) == SeedDescription(b)
    ensures a == b
  {
  }

  /** The task one remote record becomes. */
  function SeedTask(r: Todo): (t: Task)
    ensures t.id == r.id && t.title == r.title
    ensures t.description == SeedDescription(r.id)
    ensures t.status == Done <==> r.completed
    ensures t.status == ToDo <==> !r.completed
    ensures IsKnownStatus(t.status) && t.status != InProgress
  {
    Task(r.id, r.title, SeedDescription(r.id), if r.completed then Done else ToDo)
  }

  /** The list the fetched records are replaced by: the first twenty of them, mapped in order. */
  function Seed(records: seq<Todo>): (tasks: seq<Task>)
    ensures |tasks| == if |records| < SeedLimit then |records| else SeedLimit
    ensures forall i :: 0 <= i < |tasks| ==> tasks[i] == SeedTask(records[i])
    ensures forall t :: t in tasks ==> IsKnownStatus(t.status) && t.status != InProgress
  {
    var n := if |records| < SeedLimit then |records| else SeedLimit;
    seq(n, i requires 0 <= i < n => SeedTask(records[i]))
  }

  /** A seeded list has no task in progress and every task counted as to-do or done. */
  lemma SeedCounts(records: seq<Todo>)
    ensures var c := TaskCounts(Seed(records));
      && c.inProgress == 0
      && c.toDo + c.done == c.total
  {
    FilterKeepsNone(Seed(records), StatusIs(InProgress));
  }

  /** Seeded records with distinct ids give tasks with distinct descriptions. */
  lemma SeedDescriptionsDistinct(records: seq<Todo>, i: nat, j: nat)
    requires i < |Seed(records)| && j < |Seed(records)|
    requires records[i].id != records[j].id
    ensures Seed(records)[i].description != Seed(records)[j].description
  {
  }

  // ---------------------------------------------------------------------
  // Adding

  /**
    `addTask`: the list with one task appended, whose id is the old length
    plus one and whose status is to-do. The existing tasks are untouched.
   */
  function AddTask(tasks: seq<Task>, title: string, description: string): (r: seq<Task>)
    ensures |r| == |tasks| + 1
    ensures r[..|tasks|] == tasks
    ensures r[|tasks|].id == |tasks| + 1
    ensures r[|tasks|].title == title && r[|tasks|].description == description
    ensures r[|tasks|].status == ToDo
  {
    tasks + [Task(|tasks| + 1, title, description, ToDo)]
  }

  /** Adding a task raises the total and the to-do count by one and leaves the other counts alone. */
  lemma AddTaskCounts(tasks: seq<Task>, title: string, description: string)
    ensures var before, after := TaskCounts(tasks), TaskCounts(AddTask(tasks, title, description));
      && after.total == before.total + 1
      && after.toDo == before.toDo + 1
      && after.inProgress == before.inProgress
      && after.done == before.done
  {
    var t := Task(|tasks| + 1, title, description, ToDo);
    FilterConcat(tasks, [t], StatusIs(ToDo));
    FilterConcat(tasks, [t], StatusIs(InProgress));
    FilterConcat(tasks, [t], StatusIs(Done));
  }

  /**
    Deleting the id a task was just given undoes the addition, provided no
    older task already carried that id.
   */
  lemma DeleteUndoesAdd(tasks: seq<Task>, title: string, description: string)
    requires forall t :: t in tasks ==> t.id != |tasks| + 1
    ensures DeleteTask(AddTask(tasks, title, description), |tasks| + 1) == tasks
  {
    var t := Task(|tasks| + 1, title, description, ToDo);
    FilterConcat(tasks, [t], IdIsNot(|tasks| + 1));
    FilterKeepsAll(tasks, IdIsNot(|tasks| + 1));
  }

  /** A list whose ids are its positions counted from one. */
  predicate HasPositionalIds(tasks: seq<Task>)
  {
    forall i :: 0 <= i < |tasks| ==> tasks[i].id == i + 1
  }

  /** As long as nothing is deleted, adding keeps every id equal to its position. */
  lemma AddKeepsPositionalIds(tasks: seq<Task>, title: string, description: string)
    requires HasPositionalIds(tasks)
    ensures HasPositionalIds(AddTask(tasks, title, description))
  {
  }

  /**
    Ids can collide: after deleting the first of two tasks, the next task
    added gets the id of the one that remains.
   */
  lemma AddAfterDeleteReusesId()
    ensures var tasks := AddTask(DeleteTask([Task(1, "a", "x", ToDo), Task(2, "b", "y", ToDo)], 1), "c", "z");
      && |tasks| == 2
      && tasks[0].id == 2 && tasks[1].id == 2
  {
    var both := [Task(1, "a", "x", ToDo), Task(2, "b", "y", ToDo)];
    assert both == [both[0]] + [both[1]];
    FilterConcat([both[0]], [both[1]], IdIsNot(1));
  }

  // ---------------------------------------------------------------------
  // Deleting

  /**
    `deleteTask`: the tasks whose id differs from `id`, in their order.
    Every task with that id goes, not only the first.
   */
  function DeleteTask(tasks: seq<Task>, id: int): (r: seq<Task>)
    ensures IsSubsequence(r, tasks)
    ensures forall t :: t in r <==> t in tasks && t.id != id
    ensures |r| == |tasks| - CountWithId(tasks, id)
  {
    FilterComplement(tasks, IdIsNot(id), IdIs(id));
    Filter(tasks, IdIsNot(id))
  }

  /** Every task without the id survives a deletion as many times as it occurred. */
  lemma DeleteKeepsOthers(tasks: seq<Task>, id: int)
    ensures forall t: Task :: t.id != id ==> multiset(DeleteTask(tasks, id))[t] == multiset(tasks)[t]
  {
    FilterMultiplicity(tasks, IdIsNot(id));
  }

  /** Deleting an id no task carries changes nothing. */
  lemma DeleteMissingIsIdentity(tasks: seq<Task>, id: int)
    requires forall t :: t in tasks ==> t.id != id
    ensures DeleteTask(tasks, id) == tasks
  {
    FilterKeepsAll(tasks, IdIsNot(id));
  }

  /** Deleting the same id twice is deleting it once. */
  lemma DeleteIdempotent(tasks: seq<Task>, id: int)
    ensures DeleteTask(DeleteTask(tasks, id), id) == DeleteTask(tasks, id)
  {
    FilterIdempotent(tasks, IdIsNot(id));
  }

  /** Deleting the id of exactly one task shortens the list by one. */
  lemma DeleteUniqueRemovesOne(tasks: seq<Task>, id: int)
    requires CountWithId(tasks, id) == 1
    ensures |DeleteTask(tasks, id)| == |tasks| - 1
  {
  }

  // ---------------------------------------------------------------------
  // Changing a status

  /** `updateTaskStatus`: every task with `id` gets `status`; nothing else changes. */
  function UpdateTaskStatus(tasks: seq<Task>, id: int, status: string): (r: seq<Task>)
    ensures |r| == |tasks|
    ensures forall i :: 0 <= i < |tasks| ==>
      && r[i].id == tasks[i].id
      && r[i].title == tasks[i].title
      && r[i].description == tasks[i].description
    ensures forall i :: 0 <= i < |tasks| && tasks[i].id == id ==> r[i].status == status
    ensures forall i :: 0 <= i < |tasks| && tasks[i].id != id ==> r[i] == tasks[i]
  {
    if |tasks| == 0 then []
    else
      var t := tasks[0];
      [if t.id == id then t.(status := status) else t] + UpdateTaskStatus(tasks[1..], id, status)
  }

  /** Changing the status of an id no task carries changes nothing. */
  lemma UpdateMissingIsIdentity(tasks: seq<Task>, id: int, status: string)
    requires forall t :: t in tasks ==> t.id != id
    ensures UpdateTaskStatus(tasks, id, status) == tasks
  {
  }

  /** Setting the same status twice is setting it once. */
  lemma UpdateIdempotent(tasks: seq<Task>, id: int, status: string)
    ensures UpdateTaskStatus(UpdateTaskStatus(tasks, id, status), id, status)
         == UpdateTaskStatus(tasks, id, status)
  {
  }

  /** A task that is then deleted leaves no trace of a status change. */
  lemma DeleteForgetsUpdate(tasks: seq<Task>, id: int, status: string)
    ensures DeleteTask(UpdateTaskStatus(tasks, id, status), id) == DeleteTask(tasks, id)
  {
  }

  /**
    How a status change moves the counts: for any status `q`, the tasks with
    `id` that had `q` leave its count, and all tasks with `id` join the count
    of the new status.
   */
  lemma {:induction false} UpdateStatusCounts(tasks: seq<Task>, id: int, status: string, q: string)
    ensures CountStatus(UpdateTaskStatus(tasks, id, status), q)
         == CountStatus(tasks, q) - |Filter(tasks, IdAndStatusAre(id, q))|
            + (if q == status then CountWithId(tasks, id) else 0)
    decreases |tasks|
  {
    if |tasks| > 0 {
      UpdateStatusCounts(tasks[1..], id, status, q);
    }
  }

  /**
    The concrete case: when exactly one task carries `id` and its status was
    `was`, a change to a different status moves one task from `was`'s count
    to the new status's count, and the total stays.
   */
  lemma UpdateUniqueMovesOne(tasks: seq<Task>, i: nat, status: string)
    requires i < |tasks| && CountWithId(tasks, tasks[i].id) == 1
    requires tasks[i].status != status
    ensures var after := UpdateTaskStatus(tasks, tasks[i].id, status);
      && |after| == |tasks|
      && CountStatus(after, status) == CountStatus(tasks, status) + 1
      && CountStatus(after, tasks[i].status) == CountStatus(tasks, tasks[i].status) - 1
  {
    var id, was := tasks[i].id, tasks[i].status;
    UpdateStatusCounts(tasks, id, status, status);
    UpdateStatusCounts(tasks, id, status, was);
    OnlyMatchHasStatus(tasks, i, status);
    OnlyMatchHasStatus(tasks, i, was);
  }

  /** With a unique id, the tasks with that id and status `q` are that task or none. */
  lemma OnlyMatchHasStatus(tasks: seq<Task>, i: nat, q: string)
    requires i < |tasks| && CountWithId(tasks, tasks[i].id) == 1
    ensures |Filter(tasks, IdAndStatusAre(tasks[i].id, q))| == if tasks[i].status == q then 1 else 0
  {
    var id := tasks[i].id;
    FilterNested(tasks, StatusIs(q), IdIs(id), IdAndStatusAre(id, q));
    var only := Filter(tasks, IdIs(id));
    assert tasks[i] in only;
    assert only == [tasks[i]];
  }

  // ---------------------------------------------------------------------
  // The view and the counts

  /**
    Whether the table shows a task: an empty status filter lets every status
    through, and the lowercased query must occur in the lowercased title or
    description.
   */
  predicate Matches(t: Task, filterStatus: string, query: string)
    ensures |query| == 0 ==> (Matches(t, filterStatus, query) <==> filterStatus == "" || t.status == filterStatus)
    ensures filterStatus == "" && Contains(t.title, query) ==> Matches(t, filterStatus, query)
  {
    ContainsEmpty(ToLower(t.title));
    assert Contains(t.title, query) ==> Contains(ToLower(t.title), ToLower(query)) by {
      if Contains(t.title, query) {
        ContainsLower(t.title, query);
      }
    }
    && (filterStatus == "" || t.status == filterStatus)
    && (Contains(ToLower(t.title), ToLower(query)) || Contains(ToLower(t.description), ToLower(query)))
  }

  function MatchesView(filterStatus: string, query: string): Task -> bool
  {
    t => Matches(t, filterStatus, query)
  }

  /** `filteredTasks`: the tasks the table shows, in list order. */
  function FilteredTasks(tasks: seq<Task>, filterStatus: string, query: string): (r: seq<Task>)
    ensures IsSubsequence(r, tasks)
    ensures forall t :: t in r <==> t in tasks && Matches(t, filterStatus, query)
  {
    Filter(tasks, MatchesView(filterStatus, query))
  }

  /** Every shown task appears in the view as many times as in the list. */
  lemma FilteredKeepsMultiplicity(tasks: seq<Task>, filterStatus: string, query: string)
    ensures forall t :: Matches(t, filterStatus, query) ==>
      multiset(FilteredTasks(tasks, filterStatus, query))[t] == multiset(tasks)[t]
  {
    FilterMultiplicity(tasks, MatchesView(filterStatus, query));
  }

  /** With no status filter and no query the table shows the whole list. */
  lemma NoFilterShowsAll(tasks: seq<Task>)
    ensures FilteredTasks(tasks, "", "") == tasks
  {
    FilterKeepsAll(tasks, MatchesView("", ""));
  }

  /** With no query, a status filter shows exactly the tasks with that status. */
  lemma StatusFilterOnly(tasks: seq<Task>, filterStatus: string)
    requires filterStatus != ""
    ensures FilteredTasks(tasks, filterStatus, "") == Filter(tasks, StatusIs(filterStatus))
    ensures |FilteredTasks(tasks, filterStatus, "")| == CountStatus(tasks, filterStatus)
  {
  }

  /** The status filter and the search apply one after the other, in either order. */
  lemma FilterThenSearch(tasks: seq<Task>, filterStatus: string, query: string)
    requires filterStatus != ""
    ensures FilteredTasks(tasks, filterStatus, query)
         == Filter(FilteredTasks(tasks, "", query), StatusIs(filterStatus))
  {
    FilterNested(tasks, StatusIs(filterStatus), MatchesView("", query), MatchesView(filterStatus, query));
  }

  /** The search ignores the case of the query. */
  lemma SearchIgnoresQueryCase(tasks: seq<Task>, filterStatus: string, query: string)
    ensures FilteredTasks(tasks, filterStatus, ToLower(query)) == FilteredTasks(tasks, filterStatus, query)
  {
    ToLowerIdempotent(query);
    FilterCongruent(tasks, MatchesView(filterStatus, ToLower(query)), MatchesView(filterStatus, query));
  }

  /** Without a status filter, a task whose title contains the query verbatim is shown. */
  lemma LiteralTitleMatchShown(tasks: seq<Task>, t: Task, query: string)
    requires t in tasks && Contains(t.title, query)
    ensures t in FilteredTasks(tasks, "", query)
  {
    ContainsLower(t.title, query);
  }

  datatype Counts = Counts(total: nat, toDo: nat, inProgress: nat, done: nat)

  /**
    `taskCounts`, over the whole list rather than the filtered view. The
    three status counts never exceed the total, and they add up to it
    exactly when every status is one of the three known ones.
   */
  function TaskCounts(tasks: seq<Task>): (c: Counts)
    ensures c.total == |tasks|
    ensures c.toDo == CountStatus(tasks, ToDo)
    ensures c.inProgress == CountStatus(tasks, InProgress)
    ensures c.done == CountStatus(tasks, Done)
    ensures c.toDo + c.inProgress + c.done <= c.total
    ensures c.toDo + c.inProgress + c.done == c.total <==> forall t :: t in tasks ==> IsKnownStatus(t.status)
  {
    StatusCountsBound(tasks);
    Counts(|tasks|, CountStatus(tasks, ToDo), CountStatus(tasks, InProgress), CountStatus(tasks, Done))
  }

  lemma {:induction false} StatusCountsBound(tasks: seq<Task>)
    ensures var sum := CountStatus(tasks, ToDo) + CountStatus(tasks, InProgress) + CountStatus(tasks, Done);
      && sum <= |tasks|
      && (sum == |tasks| <==> forall t :: t in tasks ==> IsKnownStatus(t.status))
    decreases |tasks|
  {
    if |tasks| > 0 {
      StatusCountsBound(tasks[1..]);
      CountStatusCons(tasks, ToDo);
      CountStatusCons(tasks, InProgress);
      CountStatusCons(tasks, Done);
      AllKnownCons(tasks);
    }
  }

  lemma CountStatusCons(tasks: seq<Task>, q: string)
    requires |tasks| > 0
    ensures CountStatus(tasks, q) == (if tasks[0].status == q then 1 else 0) + CountStatus(tasks[1..], q)
  {
  }

  lemma AllKnownCons(tasks: seq<Task>)
    requires |tasks| > 0
    ensures (forall t :: t in tasks ==> IsKnownStatus(t.status))
        <==> IsKnownStatus(tasks[0].status) && forall t :: t in tasks[1..] ==> IsKnownStatus(t.status)
  {
  }


  // ---------------------------------------------------------------------
  // Wiring of the table and the form

  /** A table cell after an edit: the column's field, the new value, and the row's id. */
  datatype Cell = Cell(field: string, value: string, rowId: int)

  /**
    `handleCellEdited`: whatever column was edited, the new value becomes the
    status of every task with the row's id; no title or description changes.
   */
  function HandleCellEdited(tasks: seq<Task>, cell: Cell): (r: seq<Task>)
    ensures |r| == |tasks|
    ensures forall i :: 0 <= i < |tasks| ==>
      && r[i].id == tasks[i].id
      && r[i].title == tasks[i].title
      && r[i].description == tasks[i].description
      && r[i].status == if tasks[i].id == cell.rowId then cell.value else tasks[i].status
  {
    UpdateTaskStatus(tasks, cell.rowId, cell.value)
  }

  /**
    On an edit of a title cell the handler itself leaves the title alone:
    the edited text lands in the status of the row's tasks.
   */
  lemma TitleEditBecomesStatus(tasks: seq<Task>, i: nat, text: string)
    requires i < |tasks|
    ensures var r := HandleCellEdited(tasks, Cell("title", text, tasks[i].id));
      r[i].title == tasks[i].title && r[i].status == text
  {
  }

  /** One task with the edited column's field set to the new value; other columns are kept. */
  function EditField(t: Task, field: string, value: string): Task
  {
    if field == "title" then t.(title := value)
    else if field == "description" then t.(description := value)
    else if field == "status" then t.(status := value)
    else t
  }

  /**
    The cell-edit handler as the editable columns suggest it was meant to
    work: the edited field, and only that field, of every task with the
    row's id takes the new value.
   */
  function HandleCellEditedByField(tasks: seq<Task>, cell: Cell): (r: seq<Task>)
    ensures |r| == |tasks|
    ensures forall i :: 0 <= i < |tasks| && tasks[i].id != cell.rowId ==> r[i] == tasks[i]
    ensures forall i :: 0 <= i < |tasks| && tasks[i].id == cell.rowId ==>
      && r[i].id == tasks[i].id
      && r[i].title == (if cell.field == "title" then cell.value else tasks[i].title)
      && r[i].description == (if cell.field == "description" then cell.value else tasks[i].description)
      && r[i].status == (if cell.field == "status" then cell.value else tasks[i].status)
  {
    if |tasks| == 0 then []
    else
      var t := tasks[0];
      [if t.id == cell.rowId then EditField(t, cell.field, cell.value) else t]
        + HandleCellEditedByField(tasks[1..], cell)
  }

  /** On the status column the corrected handler does what the original does. */
  lemma ByFieldAgreesOnStatus(tasks: seq<Task>, value: string, rowId: int)
    ensures HandleCellEditedByField(tasks, Cell("status", value, rowId))
         == HandleCellEdited(tasks, Cell("status", value, rowId))
    decreases |tasks|
  {
  }

  /** With the corrected handler, editing a title or description leaves every count alone. */
  lemma TextEditKeepsCounts(tasks: seq<Task>, cell: Cell)
    requires cell.field == "title" || cell.field == "description"
    ensures TaskCounts(HandleCellEditedByField(tasks, cell)) == TaskCounts(tasks)
  {
    TextEditKeepsStatusCount(tasks, cell, ToDo);
    TextEditKeepsStatusCount(tasks, cell, InProgress);
    TextEditKeepsStatusCount(tasks, cell, Done);
  }

  /** With the corrected handler, editing a title or description keeps the count of any one status. */
  lemma {:induction false} TextEditKeepsStatusCount(tasks: seq<Task>, cell: Cell, q: string)
    requires cell.field == "title" || cell.field == "description"
    ensures CountStatus(HandleCellEditedByField(tasks, cell), q) == CountStatus(tasks, q)
    decreases |tasks|
  {
    if |tasks| > 0 {
      var after := HandleCellEditedByField(tasks, cell);
      TextEditKeepsStatusCount(tasks[1..], cell, q);
      assert after[1..] == HandleCellEditedByField(tasks[1..], cell);
      CountStatusCons(tasks, q);
      CountStatusCons(after, q);
    }
  }

  /**
    The original handler on a title edit: a to-do task whose title is
    renamed to text that is not a status drops out of the to-do count,
    although only its title was edited.
   */
  lemma TitleEditLeavesToDoCount(t: Task, text: string)
    requires t.status == ToDo && !IsKnownStatus(text)
    ensures TaskCounts(HandleCellEdited([t], Cell("title", text, t.id))).toDo == 0
    ensures TaskCounts([t]).toDo == 1
  {
  }

  /**
    The form passed `addTask` as its callback: pressing "Add Task" appends a
    task with the fields as typed and clears the form, or changes neither the
    list nor the form.
   */
  function SubmitForm(tasks: seq<Task>, f: AddTaskForm.Form): (r: (seq<Task>, AddTaskForm.Form))
    ensures HasNonWhitespace(f.title) && HasNonWhitespace(f.description) ==>
      && r.0 == tasks + [Task(|tasks| + 1, f.title, f.description, ToDo)]
      && r.1 == AddTaskForm.Empty
    ensures !(HasNonWhitespace(f.title) && HasNonWhitespace(f.description)) ==> r == (tasks, f)
  {
    var o := AddTaskForm.HandleAddTask(f);
    match o.submitted
    case Some(n) => (AddTask(tasks, n.title, n.description), o.form)
    case None => (tasks, o.form)
  }

  /** An example list: the two tasks seeded from one open and one completed record. */
  function ScenarioSeeded(): seq<Task>
  {
    [Task(1, "A", SeedDescription(1), ToDo), Task(2, "B", SeedDescription(2), Done)]
  }

  /** An example of seeding: two records, one open and one completed, seed two tasks. */
  lemma ScenarioSeed()
    ensures Seed([Todo(1, "A", false), Todo(2, "B", true)]) == ScenarioSeeded()
    ensures TaskCounts(ScenarioSeeded()) == Counts(2, 1, 0, 1)
  {
  }

  /**
    An example of adding and deleting on that list: the new task gets id 3
    and status to-do; deleting id 2 then leaves ids 1 and 3 and nothing done.
   */
  lemma ScenarioAddDelete()
    ensures AddTask(ScenarioSeeded(), "C", "desc")[2] == Task(3, "C", "desc", ToDo)
    ensures DeleteTask(AddTask(ScenarioSeeded(), "C", "desc"), 2)
         == [ScenarioSeeded()[0], Task(3, "C", "desc", ToDo)]
    ensures TaskCounts(DeleteTask(AddTask(ScenarioSeeded(), "C", "desc"), 2)).done == 0
  {
  }


}
