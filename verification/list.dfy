/** The list under the input box: an empty-state message for an empty collection,
    otherwise one row per record, in collection order, keyed by the record's id. */
module TodoList {
  import opened Todos
  import TodoItem

  /** Either the empty-state message or the rows, in order. */
  datatype ListView = EmptyState | Items(items: seq<TodoItem.ItemView>)

  /** `TodoList`: the message exactly when there is nothing to show; otherwise row `i` is
      the rendering of `todos[i]`, so there is one row per record and order is kept. */
  function Render(todos: seq<Todo>): (v: ListView)
    ensures v == EmptyState <==> todos == []
    ensures v.Items? ==> |v.items| == |todos| > 0
    ensures v.Items? ==> forall i :: 0 <= i < |todos| ==> v.items[i] == TodoItem.Render(todos[i])
  {
    if |todos| == 0 then EmptyState
    else Items(seq(|todos|, i requires 0 <= i < |todos| => TodoItem.Render(todos[i])))
  }

  /** The key React gives a row: the id its controls report. */
  function Key(v: TodoItem.ItemView): int {
    v.toggleId
  }

  /** Rows are keyed by id; with distinct ids every row has its own key, and the rows
      show the records back, in order. */
  lemma KeysDistinct(todos: seq<Todo>)
    requires DistinctIds(todos) && todos != []
    ensures var items := Render(todos).items;
      forall i, j :: 0 <= i < j < |items| ==> Key(items[i]) != Key(items[j])
    ensures var items := Render(todos).items;
      forall i :: 0 <= i < |items| ==> TodoItem.Shown(items[i]) == todos[i]
  {
  }

  /** Clicking the checkbox of row `i` toggles `todos[i].id`; clicking its delete button
      deletes `todos[i].id`. */
  lemma RowControlsReportRecordId(todos: seq<Todo>, i: int)
    requires 0 <= i < |todos|
    ensures TodoItem.ClickCheckbox(Render(todos).items[i]) == TodoItem.ToggleIntent(todos[i].id)
    ensures TodoItem.ClickDelete(Render(todos).items[i]) == TodoItem.DeleteIntent(todos[i].id)
  {
  }
}
