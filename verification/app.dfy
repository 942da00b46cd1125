/** The page: the store wired to the input box, the list and the statistics line.
    The box hands its raw text straight to `addTodo`, and the rows' controls hand
    their ids straight to `toggleTodo` and `deleteTodo`. */
module App {
  import opened Todos
  import opened Text
  import opened TodoStore
  import TodoInput
  import TodoItem
  import TodoList
  import TodoStats

  /** Everything the page holds: the store and the state of the input box. */
  datatype Page = Page(store: Store, input: TodoInput.Input)

  /** The page after startup: the store loaded from storage, an empty input field. */
  function Start(storage: Storage): (p: Page)
    ensures p.input.value == []
    ensures p.store.todos == Restore(storage) && p.store.storage == storage
  {
    Page(Load(storage), TodoInput.Initial)
  }

  /** An event on the input box; whatever text it forwards goes to `addTodo` as is, which
      receives `freshId` for a new record. */
  function OnInput(p: Page, e: TodoInput.Event, freshId: int): (r: Page)
    requires freshId !in Ids(p.store.todos)
    ensures !TodoInput.Commits(e) ==> r.store == p.store
    ensures e.Change? ==> r.input == TodoInput.Input(e.text)
    ensures e.KeyPress? && e.key != TodoInput.EnterKey ==> r == p
    ensures TodoInput.Commits(e) ==> r.store == AddTodo(p.store, p.input.value, freshId)
    ensures TodoInput.Commits(e) ==> r.input == TodoInput.Initial
    ensures TodoInput.Commits(e) && !IsBlank(p.input.value) ==>
      r.store.todos == p.store.todos + [Todo(freshId, Trim(p.input.value), false)]
    ensures Valid(p.store) ==> Valid(r.store)
  {
    var step := TodoInput.Handle(p.input, e);
    var store := if step.forwarded.Some? then AddTodo(p.store, step.forwarded.value, freshId) else p.store;
    Page(store, step.next)
  }

  /** A click on a row's control, passed to the matching store operation; the input box
      is not touched. */
  function OnIntent(p: Page, intent: TodoItem.Intent): (r: Page)
    ensures intent.ToggleIntent? ==> r.store == ToggleTodo(p.store, intent.id)
    ensures intent.DeleteIntent? ==> r.store == DeleteTodo(p.store, intent.id)
    ensures r.input == p.input
    ensures Synced(r.store)
    ensures Valid(p.store) ==> Valid(r.store)
    ensures |r.store.todos| <= |p.store.todos|
  {
    match intent
    case ToggleIntent(id) => Page(ToggleTodo(p.store, id), p.input)
    case DeleteIntent(id) => Page(DeleteTodo(p.store, id), p.input)
  }

  /** Blank text is rejected by the store, not by the box: the box forwards the blank
      text and empties its field, and the collection and storage stay as they were. */
  lemma BlankFilteredOnlyInStore(p: Page, e: TodoInput.Event, freshId: int)
    requires freshId !in Ids(p.store.todos)
    requires TodoInput.Commits(e) && IsBlank(p.input.value)
    ensures TodoInput.Handle(p.input, e).forwarded == Some(p.input.value)
    ensures OnInput(p, e, freshId) == Page(p.store, TodoInput.Initial)
  {
  }

  /** Typing a non-blank text and clicking the add button appends one open record
      holding the trimmed text. */
  lemma TypeThenCommit(p: Page, text: string, freshId: int)
    requires freshId !in Ids(p.store.todos) && !IsBlank(text)
    ensures var typed := OnInput(p, TodoInput.Change(text), freshId);
      OnInput(typed, TodoInput.ClickAdd, freshId).store.todos == p.store.todos + [Todo(freshId, Trim(text), false)]
  {
  }

  /** Clicking the checkbox of row `i` flips exactly record `i`, and a reload shows it. */
  lemma ClickRowCheckbox(p: Page, i: int)
    requires DistinctIds(p.store.todos)
    requires 0 <= i < |p.store.todos|
    ensures var view := TodoList.Render(p.store.todos);
      var r := OnIntent(p, TodoItem.ClickCheckbox(view.items[i]));
      r.store.todos == p.store.todos[i := Flip(p.store.todos[i])] && Synced(r.store)
  {
  }

  /** Clicking the delete button of row `i` removes exactly record `i` and keeps the
      other rows in order. */
  lemma ClickRowDelete(p: Page, i: int)
    requires DistinctIds(p.store.todos)
    requires 0 <= i < |p.store.todos|
    ensures var view := TodoList.Render(p.store.todos);
      var r := OnIntent(p, TodoItem.ClickDelete(view.items[i]));
      r.store.todos == p.store.todos[..i] + p.store.todos[i + 1..] && Synced(r.store)
  {
    TodoList.RowControlsReportRecordId(p.store.todos, i);
    DeleteAt(p.store, i);
  }

  /** Ticking the checkbox of an open row raises the completed count by one and keeps
      the total. */
  lemma ClickOpenRowRaisesCompleted(p: Page, i: int)
    requires DistinctIds(p.store.todos)
    requires 0 <= i < |p.store.todos| && !p.store.todos[i].completed
    ensures var view := TodoList.Render(p.store.todos);
      var r := OnIntent(p, TodoItem.ClickCheckbox(view.items[i]));
      TodoStats.StatsOf(r.store.todos) == Some(TodoStats.Stats(TodoStats.CompletedCount(p.store.todos) + 1, |p.store.todos|))
  {
    ClickRowCheckbox(p, i);
    TodoStats.CompleteOne(p.store.todos, i);
    assert Flip(p.store.todos[i]) == p.store.todos[i].(completed := true);
  }
}
