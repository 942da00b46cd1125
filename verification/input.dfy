/** The text box at the top of the page: one string of state, changed by typing and
    handed on, unaltered, when the user commits it with the button or the Enter key. */
module TodoInput {
  import opened Todos

  /** The only state of the input box: the text in the field. */
  datatype Input = Input(value: string)

  /** What the user can do to the box: edit the field to a new text, click the add
      button, or press a key while the field has focus. */
  datatype Event = Change(text: string) | ClickAdd | KeyPress(key: string)

  /** The state of a freshly rendered box: an empty field. */
  const Initial: Input := Input("")

  /** The one key that commits the field. */
  const EnterKey: string := "Enter"

  /** The outcome of one event: the next state and the text handed to `onAddTodo`, if any. */
  datatype Step = Step(next: Input, forwarded: Option<string>)

  /** Does this event commit the field? */
  predicate Commits(e: Event) {
    e.ClickAdd? || (e.KeyPress? && e.key == EnterKey)
  }

  /** `handleSubmit`: hand the field's text on as it is and empty the field. */
  function Submit(inp: Input): (r: Step)
    ensures r.forwarded == Some(inp.value)
    ensures r.next == Initial
  {
    Step(Input(""), Some(inp.value))
  }

  /** One event: a change replaces the text and forwards nothing; a commit forwards the
      current text, unaltered even when blank, and empties the field; any other key
      does nothing at all. */
  function Handle(inp: Input, e: Event): (r: Step)
    ensures e.Change? ==> r == Step(Input(e.text), None)
    ensures Commits(e) ==> r.forwarded == Some(inp.value) && r.next == Initial
    ensures !Commits(e) ==> r.forwarded == None
    ensures e.KeyPress? && e.key != EnterKey ==> r.next == inp
  {
    match e
    case Change(text) => Step(Input(text), None)
    case ClickAdd => Submit(inp)
    case KeyPress(key) => if key == EnterKey then Submit(inp) else Step(inp, None)
  }

  /** The number of committing events in a sequence. */
  function CommitCount(events: seq<Event>): nat {
    if events == [] then 0
    else (if Commits(events[0]) then 1 else 0) + CommitCount(events[1..])
  }

  /** The outcome of a run of events: the final state of the box and every text it
      handed to `onAddTodo`, in the order handed on. */
  datatype Trace = Trace(final: Input, forwarded: seq<string>)

  /** A run of events from `inp`: exactly one text is forwarded per committing event,
      and a run that ends in a commit leaves the field empty. */
  function Run(inp: Input, events: seq<Event>): (r: Trace)
    ensures |r.forwarded| == CommitCount(events)
    ensures events != [] && Commits(events[|events| - 1]) ==> r.final == Initial
    decreases |events|
  {
    if events == [] then Trace(inp, [])
    else
      var step := Handle(inp, events[0]);
      var rest := Run(step.next, events[1..]);
      assert events[1..] != [] ==> events[1..][|events[1..]| - 1] == events[|events| - 1];
      Trace(rest.final, (if step.forwarded.Some? then [step.forwarded.value] else []) + rest.forwarded)
  }

  /** Type a text, then click the add button, once per text. */
  function Rounds(texts: seq<string>): (events: seq<Event>)
    ensures |events| == 2 * |texts|
  {
    if texts == [] then [] else [Change(texts[0]), ClickAdd] + Rounds(texts[1..])
  }

  /** Pressing Enter does exactly what clicking the add button does. */
  lemma EnterIsClick(inp: Input)
    ensures Handle(inp, KeyPress(EnterKey)) == Handle(inp, ClickAdd)
  {
  }

  /** Committing an empty field forwards the empty text: the box filters nothing. */
  lemma EmptySubmitForwardsEmpty()
    ensures Handle(Initial, ClickAdd).forwarded == Some("")
  {
  }

  /** Repeated type-and-click rounds forward each typed text once, in order, and leave
      the field empty. */
  lemma {:induction false} RoundsForwardInOrder(inp: Input, texts: seq<string>)
    requires texts != [] || inp == Initial
    ensures Run(inp, Rounds(texts)) == Trace(Initial, texts)
    decreases |texts|
  {
    if texts != [] {
      var events := Rounds(texts);
      assert events[0] == Change(texts[0]);
      assert events[1..][0] == ClickAdd;
      assert events[1..][1..] == Rounds(texts[1..]);
      RoundsForwardInOrder(Initial, texts[1..]);
      var typed := Input(texts[0]);
      assert Handle(inp, events[0]) == Step(typed, None);
      assert Handle(typed, events[1..][0]) == Step(Initial, Some(texts[0]));
      assert Run(typed, events[1..]) == Trace(Initial, [texts[0]] + texts[1..]);
      assert Run(inp, events).forwarded == Run(typed, events[1..]).forwarded;
      assert [texts[0]] + texts[1..] == texts;
    }
  }
}
