/** The task record shared by the store and every view, and the small
    vocabulary the other modules use to speak about a collection of them. */
module Todos {

  /** A value a component may not produce (the statistics line of an empty list). */
  datatype Option<+T> = None | Some(value: T)

  /** One task: its identity, its text and whether it is done. */
  datatype Todo = Todo(id: int, text: string, completed: bool)

  /** The ids that occur in a collection. */
  function Ids(todos: seq<Todo>): (ids: set<int>)
    ensures forall i :: 0 <= i < |todos| ==> todos[i].id in ids
    ensures forall id :: id in ids ==> exists i :: 0 <= i < |todos| && todos[i].id == id
  {
    set t | t in todos :: t.id
  }

  /** No two records of the collection share an id (the list renders them keyed by id). */
  predicate DistinctIds(todos: seq<Todo>) {
    forall i, j :: 0 <= i < j < |todos| ==> todos[i].id != todos[j].id
  }

  /** The record `t` with its completion flag inverted and nothing else changed. */
  function Flip(t: Todo): Todo {
    t.(completed := !t.completed)
  }
}
