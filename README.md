# Todo list state engine, in Dafny

This project models the state logic of a single-list todo application written in
React and TypeScript. It covers three components:

- `App`. It owns the ordered list of todos. Its add, toggle, delete and edit
  handlers each build a new list. A drag that ends over another row moves one
  todo to that row's index (`findIndex` + `arrayMove`). An effect saves the list
  after each change and sets a one-way `hasFirstTodo` flag.
- `TodoForm`. Its input field trims the text, refuses blank text, passes the
  trimmed text to `onAdd` and then clears itself.
- `TodoItem`. Each row has a small editing state (`isEditing`, `editText`). It
  refuses blank edits but passes accepted text on untrimmed. Its checkbox and
  Delete button call back with the row's own id.

Modules:

- `Options`: the `Option` type. `None` means no callback was called.
- `JsString`: JavaScript's `String.prototype.trim`, over the code points that
  ECMA-262 (sections 12.2 and 12.3) counts as WhiteSpace or LineTerminator.
- `TodoList`: the `Todo` record and the transforms of `App.tsx`, as total
  functions on `seq<Todo>`. Also `FindIndex`, `Move` (arrayMove) and `DragEnd`.
- `TodoForm`, `TodoItem`: one class per component. The fields are the
  component's `useState` variables. There is one method per event. Each
  callback call is returned as a value.
- `App`: the class `TodoApp` (`todos`, `hasFirstTodo`, and a ghost `stored`
  copy of what was last saved). Each handler method is specified by the
  matching `TodoList` function. The module also holds the wiring between the
  components and the end-to-end lemmas: text added through the form is trimmed
  and non-blank; text edited through a row is non-blank but may keep
  surrounding whitespace.

The model follows what the code does, including where a stricter store might be expected:

- `addTodo` stores the text exactly as given. Trimming and the blank check
  happen only in `TodoForm`.
- `deleteTodo` removes every element with the id. The lemma
  `TodoList.DeleteOne` shows that this is exactly one element when ids are
  unique.
- The code never makes ids unique. `Date.now()` can repeat. So uniqueness is a
  precondition of the lemmas that preserve it.
- `hasFirstTodo` is set whenever the effect sees a list of length one while the
  flag is false. This is not only a 0→1 transition: it also fires on a load of
  one saved todo, or a delete from two to one.
- Loading does not validate. An absent or empty slot gives `[]`. Malformed
  content makes `JSON.parse` throw. There is no fallback to an empty list.

## Model

| member | source | states |
|---|---|---|
| `TodoList.AddTodo` | src/App.tsx:49-57 | the result is one longer; the old elements keep their places; the new last element has the given id and text and `completed == false` |
| `TodoList.AddKeepsUniqueIds` | src/App.tsx:49-57 | adding with an id not yet in the list keeps every id unique |
| `TodoList.DeleteUndoesAdd` | src/App.tsx:49-68 | deleting the id just added (one not there before) gives back the original list |
| `TodoList.ToggleTodo` | src/App.tsx:60-64 | length, order, every id and every text are kept; `completed` is negated exactly on the elements whose id matches |
| `TodoList.ToggleInvolution` | src/App.tsx:60-64 | toggling the same id twice gives back the input |
| `TodoList.EditTodo` | src/App.tsx:70-74 | length, order, ids and `completed` are kept; the text becomes `newText` exactly on the matching elements |
| `TodoList.EditIdempotent` | src/App.tsx:70-74 | editing twice with the same text equals editing once |
| `TodoList.CountId` | src/App.tsx:66-68 | the number of elements with an id is zero exactly when no element has it |
| `TodoList.DeleteTodo` | src/App.tsx:66-68 | the length drops by the number of matching elements; a todo remains exactly when it was there and its id differs; no element with the id remains |
| `TodoList.DeleteConcat` | src/App.tsx:66-68 | delete distributes over concatenation, so the kept elements stay in their relative order |
| `TodoList.DeleteOne` | src/App.tsx:66-68 | with unique ids, deleting a present id removes exactly one element |
| `TodoList.UniqueIdsCount` | src/App.tsx:66-68 | with unique ids, an id occurs at most once |
| `TodoList.DeleteKeepsUniqueIds` | src/App.tsx:66-68 | deleting keeps the ids unique |
| `TodoList.DeleteAbsent` | src/App.tsx:66-68 | deleting an id that no element has returns the input |
| `TodoList.AbsentIdIsNoOp` | src/App.tsx:60-74 | for an id that no element has, toggle, edit and delete each return the input |
| `TodoList.DeleteThenToggleExample` | src/App.tsx:60-68 | `[A(1), B(2)]`, delete 1, then toggle 2, gives `[B]` with `completed == true` |
| `TodoList.FindIndex` | src/App.tsx:81-82 | -1 exactly when no element has the id; otherwise the first index whose element has it |
| `TodoList.Move` | src/App.tsx:84 | arrayMove keeps the length, puts the moved element at the target index, and is a permutation of its input |
| `TodoList.MoveAt` | src/App.tsx:84 | position k of the result holds the input element at `MoveSource(from, to, k)` |
| `TodoList.MoveShifts` | src/App.tsx:84 | elements strictly between the two indices shift one place toward the vacated slot; elements outside that range stay put |
| `TodoList.MoveInverse` | src/App.tsx:84 | moving back from the target to the source index undoes a move |
| `TodoList.MoveSame` | src/App.tsx:84 | a move onto the same index changes nothing |
| `TodoList.MoveKeepsUniqueIds` | src/App.tsx:84 | a move keeps the ids unique |
| `TodoList.DragMoves` | src/App.tsx:79 | the guard `over && active.id !== over.id`: there is a target and its id differs from the dragged id |
| `TodoList.DragEnd` | src/App.tsx:76-87 | a drag gives a permutation of equal length; with no target, or a target with the dragged id, the list is unchanged; otherwise the dragged todo sits at the target's first index |
| `TodoList.DragEndMoves` | src/App.tsx:79-84 | for distinct present ids, the elements between the two first indices shift by one, the others stay put, and unique ids stay unique |
| `TodoList.DragEndExample` | src/App.tsx:79-84 | `[A(1), B(2), C(3)]`, dragging 1 over 3, becomes `[B, C, A]` |
| `JsString.TrimStartSpec` | src/components/TodoForm.tsx:12-13 | what `TrimStart` keeps is a suffix of the input that does not start with whitespace; what it drops is all whitespace |
| `JsString.TrimEndSpec` | src/components/TodoForm.tsx:12-13 | what `TrimEnd` keeps is a prefix of the input that does not end with whitespace; what it drops is all whitespace |
| `JsString.IsWhiteSpace` | src/components/TodoForm.tsx:12-13 | the characters `trim()` strips: the ECMAScript WhiteSpace and LineTerminator code points |
| `JsString.TrimStart` | src/components/TodoForm.tsx:12-13 | the result is no longer than the input and does not start with whitespace |
| `JsString.TrimEnd` | src/components/TodoForm.tsx:12-13 | the result is no longer than the input and does not end with whitespace |
| `JsString.Trim` | src/components/TodoForm.tsx:12-13 | `trim()`, used by both submit handlers (also src/components/TodoItem.tsx:18): the result is no longer than the input and has no whitespace at either end |
| `JsString.TrimSplit` | src/components/TodoForm.tsx:12-13 | the input is leading whitespace, then the trimmed text, then trailing whitespace |
| `JsString.TrimStartPadded` | src/components/TodoForm.tsx:12-13 | stripping the start of whitespace followed by a text that does not start with whitespace gives that text |
| `JsString.TrimEndPadded` | src/components/TodoForm.tsx:12-13 | stripping the end of a text that does not end with whitespace, followed by whitespace, gives that text |
| `JsString.TrimUnique` | src/components/TodoForm.tsx:12-13 | whitespace, then a text with no whitespace at its ends, then whitespace, trims to that text |
| `JsString.TrimIgnoresPadding` | src/components/TodoForm.tsx:12-13 | extra whitespace around a text does not change its trim |
| `JsString.TrimBlank` | src/components/TodoForm.tsx:12 | trim gives the empty string exactly when the text is all whitespace |
| `JsString.TrimFixedPoint` | src/components/TodoForm.tsx:12-13 | trim returns its argument exactly when neither end is whitespace |
| `JsString.TrimIdempotent` | src/components/TodoForm.tsx:12-13 | trimming twice is trimming once |
| `TodoForm.Submission` | src/components/TodoForm.tsx:10-16 | `onAdd` is not called exactly when the text is all whitespace; otherwise it is called with the trimmed text |
| `TodoForm.SubmittedIsClean` | src/components/TodoForm.tsx:12-13 | the `onAdd` argument is non-empty, not all whitespace, has no whitespace at its ends, and is its own trim |
| `TodoForm.SubmissionIgnoresPadding` | src/components/TodoForm.tsx:12-13 | extra whitespace around the typed text does not change what is submitted |
| `TodoForm.Form.constructor` | src/components/TodoForm.tsx:8 | the field starts as `""` |
| `TodoForm.Form.Change` | src/components/TodoForm.tsx:23 | typing replaces the field's text |
| `TodoForm.Form.HandleSubmit` | src/components/TodoForm.tsx:10-16 | returns the one `onAdd` call, if any; the field is reset to `""` after a call and left as it was after a refusal |
| `TodoItem.EditSubmission` | src/components/TodoItem.tsx:16-22 | `onEdit` is not called exactly when `editText` is all whitespace; otherwise it is called with the row's id and the untrimmed `editText` |
| `TodoItem.Item.constructor` | src/components/TodoItem.tsx:12-14 | not editing, and `editText` starts as the todo's text |
| `TodoItem.Item.ReceiveProps` | src/components/TodoItem.tsx:12-14 | a new todo prop replaces the old one; `editText` is not re-initialised |
| `TodoItem.Item.ChangeEditText` | src/components/TodoItem.tsx:44 | typing replaces `editText` |
| `TodoItem.Item.HandleSubmit` | src/components/TodoItem.tsx:16-22 | returns the `onEdit` call, if any; an accepted edit leaves editing mode, a refused one stays in it; `editText` is untouched |
| `TodoItem.Item.Cancel` | src/components/TodoItem.tsx:59-63 | leaves editing mode and restores `editText` to the todo's text |
| `TodoItem.Item.StartEditing` | src/components/TodoItem.tsx:71-81 | the Edit button and a double-click enter editing mode and leave `editText` as it was |
| `TodoItem.Item.ToggleClicked` | src/components/TodoItem.tsx:35 | the checkbox calls `onToggle` with this row's id |
| `TodoItem.Item.DeleteClicked` | src/components/TodoItem.tsx:86-90 | the Delete button calls `onDelete` with this row's id |
| `App.FirstTodoStep` | src/App.tsx:36-37 | a set flag stays set; an unset flag becomes set exactly when the list has length one |
| `App.FirstTodoAfter` | src/App.tsx:32-40 | the flag after the effect has run over a sequence of list lengths; a set flag stays set |
| `App.FirstTodoOnce` | src/App.tsx:32-40 | over any run of observed lengths, a set flag stays set, and an unset flag ends set exactly when some observed length was one |
| `App.FormAddIsClean` | src/components/TodoForm.tsx:12-13 | a todo appended through the form has non-empty, trimmed text, so no blank text enters the list this way |
| `App.ItemEditIsNonBlank` | src/components/TodoItem.tsx:18-19 | an edit through a row stores exactly the typed text, which is never all whitespace, so the list keeps no blank texts |
| `App.ItemEditKeepsPadding` | src/components/TodoItem.tsx:18-19 | an edit to `"  milk "` is stored with its spaces |
| `App.OtherHandlersKeepNoBlankTexts` | src/App.tsx:60-87 | toggle, delete and a drag keep every text non-blank |
| `App.TodoApp.constructor` | src/App.tsx:24-40 | the list starts as the loaded list; after the first effect the flag is set exactly when that list has one todo |
| `App.TodoApp.SaveAndReveal` | src/App.tsx:32-40 | the effect stores the current list and advances the flag by `FirstTodoStep` |
| `App.TodoApp.AddTodo` | src/App.tsx:49-57 | the list becomes `TodoList.AddTodo` of the old list; it is saved; the flag advances |
| `App.TodoApp.ToggleTodo` | src/App.tsx:60-64 | the list becomes `TodoList.ToggleTodo` of the old list; it is saved; the flag advances |
| `App.TodoApp.DeleteTodo` | src/App.tsx:66-68 | the list becomes `TodoList.DeleteTodo` of the old list; it is saved; the flag advances |
| `App.TodoApp.EditTodo` | src/App.tsx:70-74 | the list becomes `TodoList.EditTodo` of the old list; it is saved; the flag advances |
| `App.TodoApp.HandleDragEnd` | src/App.tsx:76-87 | the list becomes `TodoList.DragEnd` of the old list; with no move nothing changes at all |
| `App.TodoApp.SubmitForm` | src/App.tsx:98 | a form submit appends the trimmed text or leaves the list as it was; the field is cleared only on an append |
| `App.TodoApp.SubmitEdit` | src/App.tsx:115 | a row's submit edits the row's todo to the typed text, or leaves the list as it was when the text is blank |
| `App.TodoApp.ClickCheckbox` | src/App.tsx:113 | a checkbox click toggles the todos with the row's id |
| `App.TodoApp.ClickDelete` | src/App.tsx:114 | a Delete click removes the todos with the row's id |
| `App.BuyMilkSubmits` | src/components/TodoForm.tsx:12-13 | the form submits `"buy milk"` unchanged |
| `App.AddFirstScenario` | src/App.tsx:32-57 | start empty and add `"buy milk"` through the form: the list is that one todo with `completed == false`, and the flag is set |

## Left out

- Storage I/O and JSON. The `localStorage` reads and writes and `JSON.parse`/`JSON.stringify` are foreign calls (src/App.tsx:25-26, 33). The loaded list is a constructor parameter. The ghost field `stored` stands for the last value written. A malformed slot makes `JSON.parse` throw, and that is not modelled.
- Id generation. `Date.now()` (src/App.tsx:53) is a clock, so the new id is a parameter. The code does not make ids unique, so uniqueness is a precondition where a lemma needs it.
- `TodoList.DragEnd`, `App.TodoApp.HandleDragEnd`: both require that both ids are present when a move happens. With a missing id, `findIndex` returns -1, and `arrayMove` then moves the last element (a missing dragged id) or moves the dragged element to the end (a missing target id). The source of `arrayMove` is not part of this model, so that behaviour is not modelled.
- The drag library. Sensors, collision detection, `DndContext`/`SortableContext` and `SortableTodoItem.tsx` (which only forwards props to `useSortable`) are outside the model. The model receives only the resolved dragged id and target id.
- The scroll into view (src/App.tsx:38), all JSX markup, CSS and the class names driven by `hasFirstTodo` or `completed`.
- React scheduling. Effect timing, batching and stale closures are not modelled. Each handler, followed by the effect it triggers, is one atomic step. The second run of the effect after `setHasFirstTodo(true)` saves the same list and changes nothing, so it is folded into the first.
- `e.preventDefault()` and `e.stopPropagation()` are browser event plumbing.
- Callbacks are return values. `Form.HandleSubmit` returns the `onAdd` argument. `Item.HandleSubmit` returns the `onEdit` call. The click methods return the id they pass on. The `App` methods `SubmitForm`, `SubmitEdit`, `ClickCheckbox` and `ClickDelete` connect them to the list.
- Strings are sequences of Unicode scalar values, not UTF-16 code units. A lone surrogate cannot appear. Every whitespace code point is in the Basic Multilingual Plane, so trim is the same on both views.
- `JsString.IsWhiteSpace` lists the Unicode category Zs as of Unicode 15. A later Unicode version could add code points.
