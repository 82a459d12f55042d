/** The browser client's module-level state (app.js) and the handlers that
    update it. A server call's outcome is a parameter: the parsed answer, or
    None for a failed call (for deleteTask, the flag `replyOk`). addTask,
    toggleTask and deleteTask return the request they send (an out-parameter)
    and leave the cache unchanged when their call fails; a failed loadTasks
    empties the cache. */
module ClientState {
  import opened TaskTypes
  import opened ClientView

  /** A request the client sends: the HTTP method, the task id in the path and the JSON body. */
  datatype ApiCall = Put(id: string, update: UpdateRequest) | Post(create: CreateRequest) | Delete(id: string)

  /** `tasks.findIndex(t => t.id === id)`: the first index holding `id`, or -1. */
  function FindIndex(tasks: seq<Task>, id: string): (i: int)
    ensures -1 <= i < |tasks|
    ensures 0 <= i ==> tasks[i].id == id
    ensures forall j :: 0 <= j < |tasks| && (i == -1 || j < i) ==> tasks[j].id != id
  {
    if tasks == [] then -1
    else if tasks[0].id == id then 0
    else
      var k := FindIndex(tasks[1..], id);
      if k == -1 then -1 else k + 1
  }

  /** `tasks[index] = updated` guarded by `index !== -1`: the first task with
      `id` is replaced, every other position keeps its task, the length stays. */
  function ReplaceById(tasks: seq<Task>, id: string, updated: Task): (r: seq<Task>)
    ensures |r| == |tasks|
    ensures forall j :: 0 <= j < |tasks| ==>
      r[j] == if tasks[j].id == id && (forall k :: 0 <= k < j ==> tasks[k].id != id) then updated else tasks[j]
  {
    var i := FindIndex(tasks, id);
    if i == -1 then tasks else tasks[i := updated]
  }

  function IdIsNot(id: string): Task -> bool {
    (t: Task) => t.id != id
  }

  /** `tasks.filter(t => t.id !== id)`. */
  function WithoutId(tasks: seq<Task>, id: string): (r: seq<Task>)
    ensures |r| <= |tasks|
    ensures forall t :: t in r <==> t in tasks && t.id != id
  {
    Filter(tasks, IdIsNot(id))
  }

  /** Deleting drops every task carrying `id`, keeps every other task with its
      multiplicity, and keeps the remaining tasks in their order. */
  lemma WithoutIdDrops(tasks: seq<Task>, id: string, other: seq<Task>)
    ensures forall t :: multiset(WithoutId(tasks, id))[t] == if t.id == id then 0 else multiset(tasks)[t]
    ensures WithoutId(tasks + other, id) == WithoutId(tasks, id) + WithoutId(other, id)
    ensures forall t :: t in WithoutId(tasks, id) ==> t.id != id
  {
    FilterCount(tasks, IdIsNot(id));
    FilterAppend(tasks, other, IdIsNot(id));
  }

  /** The PUT body of an edit: every form field, with `dueDate: dueDate || null`. */
  function EditRequest(title: string, content: string, dueDate: string, category: string, priority: string): (r: UpdateRequest)
    ensures r.completed.None?
    ensures r.dueDate.None? <==> dueDate == ""
    ensures dueDate != "" ==> r.dueDate == Some(dueDate)
    ensures r.title == Some(title) && r.content == Some(content)
    ensures r.category == Some(category) && r.priority == Some(priority)
  {
    UpdateRequest(Some(title), Some(content), OrNull(Some(dueDate)), None, Some(category), Some(priority))
  }

  /** The POST body of a new task, with `dueDate: dueDate || null`. */
  function CreateTaskRequest(title: string, content: string, dueDate: string, category: string, priority: string): (r: CreateRequest)
    ensures r.dueDate.None? <==> dueDate == ""
    ensures dueDate != "" ==> r.dueDate == Some(dueDate)
    ensures r.title == Some(title) && r.content == Some(content)
    ensures r.category == Some(category) && r.priority == Some(priority)
  {
    CreateRequest(Some(title), Some(content), OrNull(Some(dueDate)), Some(category), Some(priority))
  }

  /** The PUT body of a toggle: only `completed`. */
  function ToggleRequest(completed: bool): (r: UpdateRequest)
    ensures r.completed == Some(completed)
    ensures r.title.None? && r.content.None? && r.dueDate.None? && r.category.None? && r.priority.None?
  {
    UpdateRequest(None, None, None, Some(completed), None, None)
  }

  /** The module-level variables of app.js. `currentFilter`, `currentSort`,
      `currentCategory` and `currentView` mirror the initial values of
      app.js:7-10 only: the controls that change them are not modelled, and
      renderTasks' use of them is `ClientView.FilteredAndSorted`. */
  class App {
    var tasks: seq<Task>
    var currentFilter: CompletionFilter
    var currentSort: SortMode
    var currentCategory: string
    var currentView: View
    var editingTaskId: Option<string>
    var isLoading: bool

    constructor ()
      ensures tasks == [] && currentFilter == All && currentSort == ByDate
      ensures currentCategory == AllCategories && currentView == Register
      ensures editingTaskId == None && !isLoading
    {
      tasks := [];
      currentFilter := All;
      currentSort := ByDate;
      currentCategory := AllCategories;
      currentView := Register;
      editingTaskId := None;
      isLoading := false;
    }

    /** `if (editingTaskId)`. */
    predicate Editing()
      reads this
    {
      Truthy(editingTaskId)
    }

    /** loadTasks: the server's list replaces the cache wholesale; a failed
        call empties it. Loading has finished afterwards. */
    method LoadTasks(reply: Option<seq<Task>>)
      modifies this`tasks, this`isLoading
      ensures tasks == if reply.Some? then reply.value else []
      ensures !isLoading
    {
      isLoading := true;
      if reply.Some? {
        tasks := reply.value;
      } else {
        tasks := [];
      }
      isLoading := false;
    }

    /** addTask: while an edit is open, PUT the form and put the answer in
        place of the edited task, then close the edit; otherwise POST the form
        and append the answer. */
    method AddTask(title: string, content: string, dueDate: string, category: string, priority: string,
                   reply: Option<Task>) returns (sent: ApiCall)
      modifies this`tasks, this`editingTaskId
      ensures old(Editing()) ==>
        sent == Put(old(editingTaskId).value, EditRequest(title, content, dueDate, category, priority))
      ensures !old(Editing()) ==> sent == Post(CreateTaskRequest(title, content, dueDate, category, priority))
      ensures reply.None? ==> tasks == old(tasks) && editingTaskId == old(editingTaskId)
      ensures reply.Some? && old(Editing()) ==>
        tasks == ReplaceById(old(tasks), old(editingTaskId).value, reply.value) && editingTaskId == None
      ensures reply.Some? && !old(Editing()) ==>
        tasks == old(tasks) + [reply.value] && editingTaskId == old(editingTaskId)
    {
      if Editing() {
        var id := editingTaskId.value;
        sent := Put(id, EditRequest(title, content, dueDate, category, priority));
        if reply.None? {
          return;
        }
        var index := FindIndex(tasks, id);
        if index != -1 {
          tasks := tasks[index := reply.value];
        }
        editingTaskId := None;
      } else {
        sent := Post(CreateTaskRequest(title, content, dueDate, category, priority));
        if reply.None? {
          return;
        }
        tasks := tasks + [reply.value];
      }
    }

    /** toggleTask: nothing is sent for an unknown id; otherwise PUT the
        flipped flag and put the server's answer in place of the task. */
    method ToggleTask(id: string, reply: Option<Task>) returns (sent: Option<ApiCall>)
      modifies this`tasks
      ensures FindIndex(old(tasks), id) == -1 ==> sent == None && tasks == old(tasks)
      ensures FindIndex(old(tasks), id) != -1 ==>
        && sent == Some(Put(id, ToggleRequest(!old(tasks)[FindIndex(old(tasks), id)].completed)))
        && tasks == if reply.Some? then ReplaceById(old(tasks), id, reply.value) else old(tasks)
    {
      var found := FindIndex(tasks, id);
      if found == -1 {
        return None;
      }
      var task := tasks[found];
      sent := Some(Put(id, ToggleRequest(!task.completed)));
      if reply.None? {
        return;
      }
      var index := FindIndex(tasks, id);
      if index != -1 {
        tasks := tasks[index := reply.value];
      }
    }

    /** deleteTask: nothing happens unless the user confirms; after a
        successful DELETE every task with `id` leaves the cache. */
    method DeleteTask(id: string, confirmed: bool, replyOk: bool) returns (sent: Option<ApiCall>)
      modifies this`tasks
      ensures !confirmed ==> sent == None && tasks == old(tasks)
      ensures confirmed ==> sent == Some(Delete(id))
      ensures confirmed && replyOk ==> tasks == WithoutId(old(tasks), id)
      ensures confirmed && !replyOk ==> tasks == old(tasks)
    {
      if !confirmed {
        return None;
      }
      sent := Some(Delete(id));
      if replyOk {
        tasks := WithoutId(tasks, id);
      }
    }
  }
}
