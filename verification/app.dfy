/** The component's state and the handlers that change it after a call to
    the task store. The store's answer is a parameter of each handler. */
module AppState {
  import opened Outcomes
  import opened Text
  import opened Tasks
  import opened View

  class App {
    var tasks: seq<Task>
    var input: string
    var priority: Priority
    var filter: Filter
    var searchTerm: string
    var dueDate: string

    /** The state the component mounts with. */
    constructor ()
      ensures tasks == [] && input == "" && priority == Medium
      ensures filter == All && searchTerm == "" && dueDate == ""
    {
      tasks, input, priority := [], "", Medium;
      filter, searchTerm, dueDate := All, "", "";
    }

    /** `filteredTasks`: the tasks on screen, an order-preserving part of
        the list in which every task matches the search box and the tab. */
    function FilteredTasks(): (r: seq<Task>)
      reads this
      ensures IsSubsequence(r, tasks)
      ensures forall i :: 0 <= i < |r| ==> MatchesSearch(r[i], searchTerm) && MatchesFilter(r[i], filter)
    {
      Visible(tasks, searchTerm, filter)
    }

    /** `fetchTasks`, run once on mount: a successful list call replaces
        the local list with the store's; a failed one leaves it. */
    method FetchTasks(res: Outcome<seq<Task>>) returns (sent: Request)
      modifies this`tasks
      ensures sent == List
      ensures res.Success? ==> tasks == res.value
      ensures res.Failure? ==> tasks == old(tasks)
    {
      sent := List;
      if res.Success? {
        tasks := res.value;
      }
    }

    /** `addTask`: a blank input sends nothing and changes nothing.
        Otherwise the form is sent; a created task goes to the head of the
        list and the text and date boxes are cleared, while a failure keeps
        everything, the typed text included. */
    method AddTask(res: Outcome<Task>) returns (sent: Option<Request>)
      modifies this`tasks, this`input, this`dueDate
      ensures sent.None? <==> IsBlank(old(input))
      ensures sent.Some? ==> sent.value == Create(old(input), priority, old(dueDate))
      ensures sent.Some? && res.Success? ==>
        tasks == [res.value] + old(tasks) && input == "" && dueDate == ""
      ensures sent.None? || res.Failure? ==>
        tasks == old(tasks) && input == old(input) && dueDate == old(dueDate)
    {
      var blank := IsBlank(input);
      if blank {
        sent := None;
      } else {
        sent := Some(Create(input, priority, dueDate));
        if res.Success? {
          tasks, input, dueDate := [res.value] + tasks, "", "";
        }
      }
    }

    /** `toggleComplete`: asks the store to flip the task's flag; on
        success every listed task with that id becomes the store's answer,
        on failure the list stays. */
    method ToggleComplete(task: Task, res: Outcome<Task>) returns (sent: Request)
      modifies this`tasks
      ensures sent == Update(task.id, !task.completed)
      ensures res.Success? ==> tasks == ReplaceById(old(tasks), task.id, res.value)
      ensures res.Failure? ==> tasks == old(tasks)
    {
      sent := Update(task.id, !task.completed);
      if res.Success? {
        tasks := ReplaceById(tasks, task.id, res.value);
      }
    }

    /** `deleteTask`: on success the tasks with that id leave the list and
        so leave every view of it; on failure the list stays. */
    method DeleteTask(id: string, res: Outcome<()>) returns (sent: Request)
      modifies this`tasks
      ensures sent == Delete(id)
      ensures res.Success? ==> tasks == RemoveById(old(tasks), id)
      ensures res.Success? ==> FilteredTasks() == RemoveById(old(FilteredTasks()), id)
      ensures res.Failure? ==> tasks == old(tasks)
    {
      sent := Delete(id);
      if res.Success? {
        VisibleAfterDelete(tasks, searchTerm, filter, id);
        tasks := RemoveById(tasks, id);
      }
    }
  }

  /** Adding a task the store gives a fresh id, then deleting that id,
      leaves the list as it was before the add, whatever the store says to
      the delete; the form buffers stay cleared. */
  method AddThenDelete(app: App, created: Task, deleted: Outcome<()>)
    requires !IsBlank(app.input)
    requires forall i :: 0 <= i < |app.tasks| ==> app.tasks[i].id != created.id
    modifies app`tasks, app`input, app`dueDate
    ensures deleted.Success? ==> app.tasks == old(app.tasks)
    ensures deleted.Failure? ==> app.tasks == [created] + old(app.tasks)
    ensures app.input == "" && app.dueDate == ""
  {
    var _ := app.AddTask(Success(created));
    var _ := app.DeleteTask(created.id, deleted);
    DeleteUndoesAdd(old(app.tasks), created);
  }
}
