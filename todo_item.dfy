/**
 * TodoItem.tsx: one row of the list. Its own state is the pair (isEditing,
 * editText); its events either change that pair or call one of the callbacks
 * the list gave it, always with this row's own id.
 */
module TodoItem {
  import opened Options
  import opened JsString
  import opened TodoList

  /** A call onEdit(id, newText). */
  datatype EditCall = EditCall(id: int, newText: string)

  /**
   * The onEdit call handleSubmit makes for editText, or None when it makes
   * none. Blank text is refused, but accepted text is passed on untrimmed.
   */
  function EditSubmission(id: int, editText: string): (call: Option<EditCall>)
    ensures call.None? <==> AllWhiteSpace(editText)
    ensures call.Some? ==> call.value.id == id && call.value.newText == editText
  {
    TrimBlank(editText);
    if Trim(editText) == [] then None else Some(EditCall(id, editText))
  }

  class Item {
    /** The todo prop. */
    var todo: Todo
    var isEditing: bool
    var editText: string

    /** useState(false) and useState(todo.text). */
    constructor (todo: Todo)
      ensures this.todo == todo && !isEditing && editText == todo.text
    {
      this.todo := todo;
      isEditing := false;
      editText := todo.text;
    }

    /**
     * A re-render with a new todo prop. The initializer of editText runs
     * only on mount, so editText keeps its value.
     */
    method ReceiveProps(todo: Todo)
      modifies this`todo
      ensures this.todo == todo
    {
      this.todo := todo;
    }

    /** The edit field's onChange: setEditText(e.target.value). */
    method ChangeEditText(value: string)
      modifies this`editText
      ensures editText == value
    {
      editText := value;
    }

    /**
     * The edit form's onSubmit. The result is the onEdit call made, if any;
     * only an accepted edit leaves editing mode. editText is not touched.
     */
    method HandleSubmit() returns (call: Option<EditCall>)
      modifies this`isEditing
      ensures call == EditSubmission(todo.id, editText)
      ensures isEditing == (old(isEditing) && call.None?)
    {
      call := EditSubmission(todo.id, editText);
      if call.Some? {
        isEditing := false;
      }
    }

    /** Cancel: leave editing mode and throw the typed text away. */
    method Cancel()
      modifies this`isEditing, this`editText
      ensures !isEditing && editText == todo.text
    {
      isEditing := false;
      editText := todo.text;
    }

    /** The Edit button and a double-click on the text: enter editing mode, editText as it was. */
    method StartEditing()
      modifies this`isEditing
      ensures isEditing
    {
      isEditing := true;
    }

    /** The checkbox's onChange: the id passed to onToggle. */
    method ToggleClicked() returns (id: int)
      ensures id == todo.id
    {
      id := todo.id;
    }

    /** The Delete button: the id passed to onDelete. */
    method DeleteClicked() returns (id: int)
      ensures id == todo.id
    {
      id := todo.id;
    }
  }
}
