/** The statistics line under the list: how many records are completed out of how
    many, or no line at all for an empty collection. */
module TodoStats {
  import opened Todos

  /** What the statistics line shows. */
  datatype Stats = Stats(completed: nat, total: nat)

  /** The completed records of the collection, in order (`todos.filter(t => t.completed)`). */
  function CompletedOnly(todos: seq<Todo>): (r: seq<Todo>)
    ensures |r| <= |todos|
    ensures forall t :: t in r <==> t in todos && t.completed
  {
    if todos == [] then []
    else if todos[0].completed then [todos[0]] + CompletedOnly(todos[1..])
    else CompletedOnly(todos[1..])
  }

  /** `completedCount`: the number of completed records. */
  function CompletedCount(todos: seq<Todo>): nat {
    |CompletedOnly(todos)|
  }

  /** `TodoStats`: absent for an empty collection; otherwise the completed count and the
      total, which is the collection's length and never below the completed count. */
  function StatsOf(todos: seq<Todo>): (r: Option<Stats>)
    ensures r == None <==> todos == []
    ensures r.Some? ==> r.value.total == |todos| && r.value.completed == CompletedCount(todos)
    ensures r.Some? ==> r.value.completed <= r.value.total
  {
    if |todos| == 0 then None
    else Some(Stats(CompletedCount(todos), |todos|))
  }

  /** Counting splits over concatenation. */
  lemma {:induction false} CountAppend(a: seq<Todo>, b: seq<Todo>)
    ensures CompletedCount(a + b) == CompletedCount(a) + CompletedCount(b)
  {
    if a != [] {
      assert (a + b)[1..] == a[1..] + b;
      CountAppend(a[1..], b);
    } else {
      assert a + b == b;
    }
  }

  /** The count of a one-record collection is 1 exactly when that record is completed. */
  lemma CountSingle(t: Todo)
    ensures CompletedCount([t]) == if t.completed then 1 else 0
  {
    assert [t][1..] == [];
  }

  /** The completed count is the number of positions that hold a completed record. */
  lemma {:induction false} CountIsCompletedPositions(todos: seq<Todo>)
    ensures CompletedCount(todos) == |set i | 0 <= i < |todos| && todos[i].completed|
  {
    if todos != [] {
      var n := |todos| - 1;
      var front := todos[..n];
      CountIsCompletedPositions(front);
      assert todos == front + [todos[n]];
      CountAppend(front, [todos[n]]);
      CountSingle(todos[n]);
      var before := set i | 0 <= i < n && front[i].completed;
      var now := set i | 0 <= i < |todos| && todos[i].completed;
      if todos[n].completed {
        assert now == before + {n};
      } else {
        assert now == before;
      }
    }
  }

  /** When every record is completed, the completed count is the total. */
  lemma {:induction false} AllCompleted(todos: seq<Todo>)
    requires forall i :: 0 <= i < |todos| ==> todos[i].completed
    ensures CompletedCount(todos) == |todos|
  {
    if todos != [] {
      AllCompleted(todos[1..]);
    }
  }

  /** When no record is completed, the completed count is zero. */
  lemma {:induction false} NoneCompleted(todos: seq<Todo>)
    requires forall i :: 0 <= i < |todos| ==> !todos[i].completed
    ensures CompletedCount(todos) == 0
  {
    if todos != [] {
      NoneCompleted(todos[1..]);
    }
  }

  /** Completing one open record raises the completed count by one and keeps the total. */
  lemma CompleteOne(todos: seq<Todo>, i: int)
    requires 0 <= i < |todos| && !todos[i].completed
    ensures var after := todos[i := todos[i].(completed := true)];
      CompletedCount(after) == CompletedCount(todos) + 1 && |after| == |todos|
  {
    var after := todos[i := todos[i].(completed := true)];
    assert todos == todos[..i] + [todos[i]] + todos[i + 1..];
    assert after == todos[..i] + [after[i]] + todos[i + 1..];
    CountAppend(todos[..i] + [todos[i]], todos[i + 1..]);
    CountAppend(todos[..i], [todos[i]]);
    CountAppend(todos[..i] + [after[i]], todos[i + 1..]);
    CountAppend(todos[..i], [after[i]]);
    CountSingle(todos[i]);
    CountSingle(after[i]);
  }

  /** A collection of length `2k` whose records alternate completed, open, completed, ...
      has exactly `k` completed records. */
  lemma {:induction false} Alternating(todos: seq<Todo>, k: nat)
    requires |todos| == 2 * k
    requires forall i :: 0 <= i < |todos| ==> todos[i].completed == (i % 2 == 0)
    ensures CompletedCount(todos) == k
  {
    if k > 0 {
      var n := 2 * k - 2;
      var front := todos[..n];
      var x, y := todos[n], todos[n + 1];
      assert n % 2 == 0 && (n + 1) % 2 == 1;
      assert x.completed && !y.completed;
      assert forall i :: 0 <= i < n ==> front[i] == todos[i];
      Alternating(front, k - 1);
      assert todos == front + [x, y];
      CountAppend(front, [x, y]);
      assert [x, y][1..] == [y];
      CountSingle(y);
    }
  }

  /** The five-record example F, T, F, T, T shows 3 of 5. */
  lemma FiveRecordsExample(a: Todo, b: Todo, c: Todo, d: Todo, e: Todo)
    requires !a.completed && b.completed && !c.completed && d.completed && e.completed
    ensures StatsOf([a, b, c, d, e]) == Some(Stats(3, 5))
  {
    assert [a, b, c, d, e][1..] == [b, c, d, e];
    assert [b, c, d, e][1..] == [c, d, e];
    assert [c, d, e][1..] == [d, e];
    assert [d, e][1..] == [e];
    CountSingle(e);
    assert CompletedCount([d, e]) == 2;
    assert CompletedCount([c, d, e]) == 2;
    assert CompletedCount([b, c, d, e]) == 3;
    assert CompletedCount([a, b, c, d, e]) == 3;
  }

  /** One hundred records, completed exactly at the even positions, show 50 of 100. */
  lemma HundredRecordsExample(todos: seq<Todo>)
    requires |todos| == 100
    requires forall i :: 0 <= i < 100 ==> todos[i].completed == (i % 2 == 0)
    ensures StatsOf(todos) == Some(Stats(50, 100))
  {
    Alternating(todos, 50);
  }
}
