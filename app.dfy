/**
 * App.tsx: the component that owns the list. Its state is `todos` and
 * `hasFirstTodo`; each handler replaces `todos` with one of the TodoList
 * transforms, and the effect then writes the list to storage and sets
 * `hasFirstTodo` the first time the list holds exactly one todo.
 */
module App {
  import opened Options
  import opened JsString
  import opened TodoList
  import TodoForm
  import TodoItem

  /** The effect's update of the flag for a list of the given length. */
  function FirstTodoStep(hasFirstTodo: bool, length: nat): (r: bool)
    ensures hasFirstTodo ==> r
    ensures !hasFirstTodo ==> (r <==> length == 1)
  {
    if length == 1 && !hasFirstTodo then true else hasFirstTodo
  }

  /** The flag after the effect has seen lists of these lengths, in order. */
  function FirstTodoAfter(hasFirstTodo: bool, lengths: seq<nat>): (r: bool)
    ensures hasFirstTodo ==> r
    decreases |lengths|
  {
    if lengths == [] then hasFirstTodo
    else FirstTodoAfter(FirstTodoStep(hasFirstTodo, lengths[0]), lengths[1..])
  }

  /**
   * Once set the flag stays set; from unset it is set after a run of
   * observations exactly when one of them saw a list of length one.
   */
  lemma {:induction false} FirstTodoOnce(hasFirstTodo: bool, lengths: seq<nat>)
    ensures FirstTodoAfter(hasFirstTodo, lengths) <==> hasFirstTodo || 1 in lengths
    decreases |lengths|
  {
    if lengths != [] {
      FirstTodoOnce(FirstTodoStep(hasFirstTodo, lengths[0]), lengths[1..]);
      assert lengths == [lengths[0]] + lengths[1..];
    }
  }

  /** Every stored text has a non-whitespace character. */
  predicate NoBlankTexts(s: seq<Todo>) {
    forall i :: 0 <= i < |s| ==> !AllWhiteSpace(s[i].text)
  }

  /**
   * The form feeds addTodo: what it appends has a non-empty text with no
   * whitespace at its ends, so no blank text enters through it.
   */
  lemma FormAddIsClean(s: seq<Todo>, id: int, input: string)
    requires TodoForm.Submission(input).Some?
    ensures var r := TodoList.AddTodo(s, id, TodoForm.Submission(input).value);
      && r[|s|].text != [] && IsTrimmed(r[|s|].text) && Trim(r[|s|].text) == r[|s|].text
      && (NoBlankTexts(s) ==> NoBlankTexts(r))
  {
    var a := TodoForm.Submission(input).value;
    TodoForm.SubmittedIsClean(input);
    var r := TodoList.AddTodo(s, id, a);
    assert r[|s|].text == a;
    assert NoBlankTexts(s) ==> NoBlankTexts(r) by {
      if NoBlankTexts(s) {
        forall i | 0 <= i < |r|
          ensures !AllWhiteSpace(r[i].text)
        {
          if i < |s| {
            assert r[i] == s[i];
          }
        }
      }
    }
  }

  /**
   * A row feeds editTodo: the stored text is exactly what was typed, which
   * is never blank but may keep whitespace at its ends.
   */
  lemma ItemEditIsNonBlank(s: seq<Todo>, id: int, editText: string)
    requires TodoItem.EditSubmission(id, editText).Some?
    ensures var c := TodoItem.EditSubmission(id, editText).value;
      var r := TodoList.EditTodo(s, c.id, c.newText);
      && (forall i :: 0 <= i < |r| && r[i].id == id ==> r[i].text == editText && !AllWhiteSpace(r[i].text))
      && (NoBlankTexts(s) ==> NoBlankTexts(r))
  {
  }

  /** An edit to "  milk " through a row is stored with its spaces. */
  lemma ItemEditKeepsPadding(done: bool)
    ensures var c := TodoItem.EditSubmission(1, "  milk ");
      && c.Some?
      && TodoList.EditTodo([Todo(1, "milk", done)], c.value.id, c.value.newText) == [Todo(1, "  milk ", done)]
      && !IsTrimmed("  milk ")
  {
    var c := TodoItem.EditSubmission(1, "  milk ");
    assert !IsWhiteSpace("  milk "[2]);
    var r := TodoList.EditTodo([Todo(1, "milk", done)], 1, "  milk ");
    assert r[0] == Todo(1, "  milk ", done);
  }

  /** Toggle, delete and a drag never touch a text, so they keep the texts non-blank. */
  lemma OtherHandlersKeepNoBlankTexts(s: seq<Todo>, id: int, active: int, over: Option<int>)
    requires NoBlankTexts(s)
    requires DragMoves(active, over) ==> HasId(s, active) && HasId(s, over.value)
    ensures NoBlankTexts(ToggleTodo(s, id))
    ensures NoBlankTexts(DeleteTodo(s, id))
    ensures NoBlankTexts(DragEnd(s, active, over))
  {
    assert NoBlankTexts(ToggleTodo(s, id)) by {
      var t := ToggleTodo(s, id);
      assert forall i :: 0 <= i < |t| ==> t[i].text == s[i].text;
    }
    assert NoBlankTexts(DeleteTodo(s, id)) by {
      var d := DeleteTodo(s, id);
      forall i | 0 <= i < |d|
        ensures !AllWhiteSpace(d[i].text)
      {
        assert d[i] in s;
      }
    }
    assert NoBlankTexts(DragEnd(s, active, over)) by {
      var m := DragEnd(s, active, over);
      forall i | 0 <= i < |m|
        ensures !AllWhiteSpace(m[i].text)
      {
        assert m[i] in multiset(s);
      }
    }
  }

  class TodoApp {
    var todos: seq<Todo>
    var hasFirstTodo: bool
    /** What the effect last wrote to localStorage under the key 'todos'. */
    ghost var stored: seq<Todo>

    /** The state between two events: the effect has run on the current list. */
    ghost predicate Valid()
      reads this
    {
      stored == todos && (|todos| == 1 ==> hasFirstTodo)
    }

    /** The first render with the list read from storage, then the effect. */
    constructor (saved: seq<Todo>)
      ensures Valid()
      ensures todos == saved && hasFirstTodo == (|saved| == 1)
    {
      todos := saved;
      hasFirstTodo := false;
      stored := [];
      new;
      SaveAndReveal();
    }

    /** The effect on [todos, hasFirstTodo]: save, then set the flag on a one-todo list. */
    method SaveAndReveal()
      modifies this
      ensures todos == old(todos) && stored == todos
      ensures hasFirstTodo == FirstTodoStep(old(hasFirstTodo), |todos|)
    {
      stored := todos;
      if |todos| == 1 && !hasFirstTodo {
        hasFirstTodo := true;
      }
    }

    method AddTodo(id: int, text: string)
      requires Valid()
      modifies this
      ensures Valid()
      ensures todos == TodoList.AddTodo(old(todos), id, text)
      ensures hasFirstTodo == FirstTodoStep(old(hasFirstTodo), |todos|)
    {
      todos := TodoList.AddTodo(todos, id, text);
      SaveAndReveal();
    }

    method ToggleTodo(id: int)
      requires Valid()
      modifies this
      ensures Valid()
      ensures todos == TodoList.ToggleTodo(old(todos), id)
      ensures hasFirstTodo == FirstTodoStep(old(hasFirstTodo), |todos|)
    {
      todos := TodoList.ToggleTodo(todos, id);
      SaveAndReveal();
    }

    method DeleteTodo(id: int)
      requires Valid()
      modifies this
      ensures Valid()
      ensures todos == TodoList.DeleteTodo(old(todos), id)
      ensures hasFirstTodo == FirstTodoStep(old(hasFirstTodo), |todos|)
    {
      todos := TodoList.DeleteTodo(todos, id);
      SaveAndReveal();
    }

    method EditTodo(id: int, newText: string)
      requires Valid()
      modifies this
      ensures Valid()
      ensures todos == TodoList.EditTodo(old(todos), id, newText)
      ensures hasFirstTodo == FirstTodoStep(old(hasFirstTodo), |todos|)
    {
      todos := TodoList.EditTodo(todos, id, newText);
      SaveAndReveal();
    }

    /**
     * handleDragEnd. When the guard fails setTodos is not called and the
     * effect does not run; the state is then left exactly as it was.
     */
    method HandleDragEnd(active: int, over: Option<int>)
      requires Valid()
      requires DragMoves(active, over) ==> HasId(todos, active) && HasId(todos, over.value)
      modifies this
      ensures Valid()
      ensures todos == DragEnd(old(todos), active, over)
      ensures hasFirstTodo == FirstTodoStep(old(hasFirstTodo), |todos|)
      ensures !DragMoves(active, over) ==> unchanged(this)
    {
      if DragMoves(active, over) {
        todos := DragEnd(todos, active, over);
        SaveAndReveal();
      }
    }

    /** <TodoForm onAdd={addTodo} />: a submit of the form, with the id addTodo would draw. */
    method SubmitForm(form: TodoForm.Form, id: int)
      requires Valid()
      modifies this, form
      ensures Valid()
      ensures todos == match TodoForm.Submission(old(form.text))
        case None => old(todos)
        case Some(text) => TodoList.AddTodo(old(todos), id, text)
      ensures form.text == if AllWhiteSpace(old(form.text)) then old(form.text) else []
      ensures hasFirstTodo == FirstTodoStep(old(hasFirstTodo), |todos|)
    {
      var added := form.HandleSubmit();
      if added.Some? {
        AddTodo(id, added.value);
      }
    }

    /** onEdit={editTodo}: a submit of a row's edit form. */
    method SubmitEdit(item: TodoItem.Item)
      requires Valid()
      modifies this, item`isEditing
      ensures Valid()
      ensures todos == match TodoItem.EditSubmission(item.todo.id, item.editText)
        case None => old(todos)
        case Some(c) => TodoList.EditTodo(old(todos), c.id, c.newText)
      ensures item.isEditing == (old(item.isEditing) && AllWhiteSpace(item.editText))
      ensures hasFirstTodo == FirstTodoStep(old(hasFirstTodo), |todos|)
    {
      var call := item.HandleSubmit();
      if call.Some? {
        EditTodo(call.value.id, call.value.newText);
      }
    }

    /** onToggle={toggleTodo}: a click on a row's checkbox. */
    method ClickCheckbox(item: TodoItem.Item)
      requires Valid()
      modifies this
      ensures Valid()
      ensures todos == TodoList.ToggleTodo(old(todos), item.todo.id)
      ensures hasFirstTodo == FirstTodoStep(old(hasFirstTodo), |todos|)
    {
      var id := item.ToggleClicked();
      ToggleTodo(id);
    }

    /** onDelete={deleteTodo}: a click on a row's Delete button. */
    method ClickDelete(item: TodoItem.Item)
      requires Valid()
      modifies this
      ensures Valid()
      ensures todos == TodoList.DeleteTodo(old(todos), item.todo.id)
      ensures hasFirstTodo == FirstTodoStep(old(hasFirstTodo), |todos|)
    {
      var id := item.DeleteClicked();
      DeleteTodo(id);
    }
  }

  /** "buy milk" has no whitespace at its ends, so the form submits it as it is. */
  lemma BuyMilkSubmits()
    ensures TodoForm.Submission("buy milk") == Some("buy milk")
  {
    var milk := "buy milk";
    assert milk[0] == 'b' && milk[|milk| - 1] == 'k';
    assert IsTrimmed(milk) && !AllWhiteSpace(milk);
    TrimFixedPoint(milk);
  }

  /** Start empty, add "buy milk": one todo, and the flag is set. */
  method AddFirstScenario(id: int) returns (app: TodoApp)
    ensures app.Valid() && app.todos == [Todo(id, "buy milk", false)] && app.hasFirstTodo
  {
    BuyMilkSubmits();
    app := new TodoApp([]);
    var form := new TodoForm.Form();
    form.Change("buy milk");
    app.SubmitForm(form, id);
    assert app.todos == TodoList.AddTodo([], id, "buy milk");
  }
}
