/**
 * The list transforms of App.tsx. Each handler there builds a new Todo[]
 * from the current one with spread, map, filter or findIndex + arrayMove;
 * here each is a total function on seq<Todo>.
 */
module TodoList {
  import opened Options

  datatype Todo = Todo(id: int, text: string, completed: bool)

  predicate HasId(s: seq<Todo>, id: int) {
    exists i :: 0 <= i < |s| && s[i].id == id
  }

  /** No two elements share an id (the code does not enforce it). */
  predicate UniqueIds(s: seq<Todo>) {
    forall i, j :: 0 <= i < |s| && 0 <= j < |s| && i != j ==> s[i].id != s[j].id
  }

  /** The number of elements whose id is id. */
  function CountId(s: seq<Todo>, id: int): (n: nat)
    ensures n <= |s|
    ensures n == 0 <==> !HasId(s, id)
  {
    if s == [] then 0
    else
      assert forall i :: 0 < i < |s| ==> s[i] == s[1..][i - 1];
      (if s[0].id == id then 1 else 0) + CountId(s[1..], id)
  }

  // ---------------------------------------------------------------------
  // addTodo: [...todos, {id, text, completed: false}]

  function AddTodo(s: seq<Todo>, id: int, text: string): (r: seq<Todo>)
    ensures |r| == |s| + 1
    ensures r[..|s|] == s
    ensures r[|s|] == Todo(id, text, false)
  {
    s + [Todo(id, text, false)]
  }

  /** With an id not yet in the list, adding keeps the ids unique. */
  lemma AddKeepsUniqueIds(s: seq<Todo>, id: int, text: string)
    requires UniqueIds(s) && !HasId(s, id)
    ensures UniqueIds(AddTodo(s, id, text))
  {
    var r := AddTodo(s, id, text);
    forall i, j | 0 <= i < |r| && 0 <= j < |r| && i != j
      ensures r[i].id != r[j].id
    {
      if i < |s| && j < |s| {
        assert r[i] == s[i] && r[j] == s[j];
      } else if i < |s| {
        assert r[i] == s[i];
      } else {
        assert r[j] == s[j];
      }
    }
  }

  // ---------------------------------------------------------------------
  // toggleTodo: todos.map(t => t.id === id ? {...t, completed: !t.completed} : t)

  function ToggleTodo(s: seq<Todo>, id: int): (r: seq<Todo>)
    ensures |r| == |s|
    ensures forall i :: 0 <= i < |s| ==> r[i].id == s[i].id && r[i].text == s[i].text
    ensures forall i :: 0 <= i < |s| ==> r[i].completed == (s[i].completed != (s[i].id == id))
  {
    if s == [] then []
    else
      var t, rest := s[0], ToggleTodo(s[1..], id);
      var r := [if t.id == id then t.(completed := !t.completed) else t] + rest;
      assert forall i :: 0 < i < |s| ==> r[i] == rest[i - 1] && s[i] == s[1..][i - 1];
      r
  }

  /** Toggling the same id twice gives back the list. */
  lemma ToggleInvolution(s: seq<Todo>, id: int)
    ensures ToggleTodo(ToggleTodo(s, id), id) == s
  {
    var r := ToggleTodo(ToggleTodo(s, id), id);
    assert forall i :: 0 <= i < |s| ==> r[i] == Todo(s[i].id, s[i].text, s[i].completed);
  }

  // ---------------------------------------------------------------------
  // editTodo: todos.map(t => t.id === id ? {...t, text: newText} : t)

  function EditTodo(s: seq<Todo>, id: int, newText: string): (r: seq<Todo>)
    ensures |r| == |s|
    ensures forall i :: 0 <= i < |s| ==> r[i].id == s[i].id && r[i].completed == s[i].completed
    ensures forall i :: 0 <= i < |s| ==> r[i].text == (if s[i].id == id then newText else s[i].text)
  {
    if s == [] then []
    else
      var t, rest := s[0], EditTodo(s[1..], id, newText);
      var r := [if t.id == id then t.(text := newText) else t] + rest;
      assert forall i :: 0 < i < |s| ==> r[i] == rest[i - 1] && s[i] == s[1..][i - 1];
      r
  }

  /** Editing twice with the same text is editing once. */
  lemma EditIdempotent(s: seq<Todo>, id: int, newText: string)
    ensures EditTodo(EditTodo(s, id, newText), id, newText) == EditTodo(s, id, newText)
  {
    var once := EditTodo(s, id, newText);
    var twice := EditTodo(once, id, newText);
    assert forall i :: 0 <= i < |s| ==> twice[i] == Todo(once[i].id, once[i].text, once[i].completed);
  }

  // ---------------------------------------------------------------------
  // deleteTodo: todos.filter(t => t.id !== id)

  function DeleteTodo(s: seq<Todo>, id: int): (r: seq<Todo>)
    ensures |r| == |s| - CountId(s, id)
    ensures forall t :: t in r <==> t in s && t.id != id
    ensures !HasId(r, id)
  {
    if s == [] then []
    else if s[0].id == id then DeleteTodo(s[1..], id)
    else [s[0]] + DeleteTodo(s[1..], id)
  }

  /** Delete keeps the relative order: it distributes over concatenation. */
  lemma {:induction false} DeleteConcat(a: seq<Todo>, b: seq<Todo>, id: int)
    ensures DeleteTodo(a + b, id) == DeleteTodo(a, id) + DeleteTodo(b, id)
  {
    if a == [] {
      assert a + b == b;
    } else {
      var ab := a + b;
      assert ab[0] == a[0];
      assert ab[1..] == a[1..] + b;
      DeleteConcat(a[1..], b, id);
      if a[0].id != id {
        assert [a[0]] + DeleteTodo(a[1..], id) + DeleteTodo(b, id)
            == [a[0]] + (DeleteTodo(a[1..], id) + DeleteTodo(b, id));
      }
    }
  }

  /** With unique ids, deleting a present id removes exactly one element. */
  lemma {:induction false} DeleteOne(s: seq<Todo>, id: int)
    requires UniqueIds(s) && HasId(s, id)
    ensures |DeleteTodo(s, id)| == |s| - 1
  {
    UniqueIdsCount(s, id);
  }

  lemma UniqueIdsCons(s: seq<Todo>)
    requires s != []
    ensures UniqueIds(s) <==> UniqueIds(s[1..]) && !HasId(s[1..], s[0].id)
  {
    var rest := s[1..];
    assert forall i :: 0 <= i < |rest| ==> rest[i] == s[i + 1];
    if UniqueIds(rest) && !HasId(rest, s[0].id) {
      forall i, j | 0 <= i < |s| && 0 <= j < |s| && i != j
        ensures s[i].id != s[j].id
      {
        if i > 0 && j > 0 {
          assert s[i] == rest[i - 1] && s[j] == rest[j - 1];
        } else if i == 0 {
          assert s[j] == rest[j - 1];
        } else {
          assert s[i] == rest[i - 1];
        }
      }
    }
    if UniqueIds(s) {
      forall i | 0 <= i < |rest|
        ensures rest[i].id != s[0].id
      {
        assert rest[i] == s[i + 1];
      }
    }
  }

  lemma {:induction false} UniqueIdsCount(s: seq<Todo>, id: int)
    requires UniqueIds(s)
    ensures CountId(s, id) <= 1
  {
    if s != [] {
      UniqueIdsCons(s);
      UniqueIdsCount(s[1..], id);
    }
  }

  /** Deleting keeps the ids unique. */
  lemma {:induction false} DeleteKeepsUniqueIds(s: seq<Todo>, id: int)
    requires UniqueIds(s)
    ensures UniqueIds(DeleteTodo(s, id))
  {
    if s != [] {
      var rest := s[1..];
      UniqueIdsCons(s);
      DeleteKeepsUniqueIds(rest, id);
      if s[0].id != id {
        var d := DeleteTodo(rest, id);
        var r := [s[0]] + d;
        assert r[1..] == d;
        forall k | 0 <= k < |d|
          ensures d[k].id != s[0].id
        {
          assert d[k] in rest;
        }
        UniqueIdsCons(r);
      }
    }
  }

  /** Deleting the id of the todo just added gives back the list. */
  lemma DeleteUndoesAdd(s: seq<Todo>, id: int, text: string)
    requires !HasId(s, id)
    ensures DeleteTodo(AddTodo(s, id, text), id) == s
  {
    DeleteConcat(s, [Todo(id, text, false)], id);
    AbsentIdIsNoOp(s, id, text);
  }

  /** An id no element carries leaves toggle, edit and delete without effect. */
  lemma AbsentIdIsNoOp(s: seq<Todo>, id: int, newText: string)
    requires !HasId(s, id)
    ensures ToggleTodo(s, id) == s
    ensures EditTodo(s, id, newText) == s
    ensures DeleteTodo(s, id) == s
  {
    var t := ToggleTodo(s, id);
    assert forall i :: 0 <= i < |s| ==> t[i] == Todo(s[i].id, s[i].text, s[i].completed);
    var e := EditTodo(s, id, newText);
    assert forall i :: 0 <= i < |s| ==> e[i] == Todo(s[i].id, s[i].text, s[i].completed);
    DeleteAbsent(s, id);
  }

  lemma {:induction false} DeleteAbsent(s: seq<Todo>, id: int)
    requires !HasId(s, id)
    ensures DeleteTodo(s, id) == s
  {
    if s != [] {
      var rest := s[1..];
      assert !HasId(rest, id) by {
        forall i | 0 <= i < |rest|
          ensures rest[i].id != id
        {
          assert rest[i] == s[i + 1];
        }
      }
      DeleteAbsent(rest, id);
      assert s[0].id != id;
      assert s == [s[0]] + rest;
    }
  }

  /** [A, B], delete A, then toggle B: the list is B alone, completed. */
  lemma DeleteThenToggleExample(a: string, b: string)
    ensures ToggleTodo(DeleteTodo([Todo(1, a, false), Todo(2, b, false)], 1), 2) == [Todo(2, b, true)]
  {
    var s := [Todo(1, a, false), Todo(2, b, false)];
    assert s[1..] == [Todo(2, b, false)];
    assert DeleteTodo(s, 1) == [Todo(2, b, false)];
    var t := ToggleTodo([Todo(2, b, false)], 2);
    assert t[0] == Todo(2, b, true);
  }

  // ---------------------------------------------------------------------
  // handleDragEnd: findIndex + arrayMove

  /** Array.prototype.findIndex with the predicate item.id === id: -1 when absent. */
  function FindIndex(s: seq<Todo>, id: int): (r: int)
    ensures -1 <= r < |s|
    ensures r == -1 <==> !HasId(s, id)
    ensures 0 <= r ==> s[r].id == id && forall j :: 0 <= j < r ==> s[j].id != id
  {
    if s == [] then -1
    else if s[0].id == id then 0
    else
      var k := FindIndex(s[1..], id);
      assert forall i :: 0 < i < |s| ==> s[i] == s[1..][i - 1];
      if k == -1 then -1 else k + 1
  }

  /**
   * arrayMove(items, from, to): take the element at from out, then put it
   * back in so that it sits at to. A single-element move, not a swap.
   */
  function Move<T>(s: seq<T>, from: nat, to: nat): (r: seq<T>)
    requires from < |s| && to < |s|
    ensures |r| == |s|
    ensures r[to] == s[from]
    ensures multiset(r) == multiset(s)
  {
    var rest := s[..from] + s[from + 1..];
    assert s == s[..from] + [s[from]] + s[from + 1..];
    assert multiset(s) == multiset(rest) + multiset{s[from]};
    assert rest == rest[..to] + rest[to..];
    assert multiset(rest) == multiset(rest[..to]) + multiset(rest[to..]);
    rest[..to] + [s[from]] + rest[to..]
  }

  /** The index of the input element that a move from from to to puts at k. */
  function MoveSource(from: nat, to: nat, k: nat): nat {
    if k == to then from
    else if from < to && from <= k < to then k + 1
    else if to < from && to < k <= from then k - 1
    else k
  }

  lemma MoveSourceInverse(from: nat, to: nat, k: nat)
    ensures MoveSource(from, to, MoveSource(to, from, k)) == k
  {
  }

  lemma MoveSourceInjective(from: nat, to: nat, i: nat, j: nat)
    requires i != j
    ensures MoveSource(from, to, i) != MoveSource(from, to, j)
  {
  }

  lemma MoveAt<T>(s: seq<T>, from: nat, to: nat, k: nat)
    requires from < |s| && to < |s| && k < |s|
    ensures MoveSource(from, to, k) < |s|
    ensures Move(s, from, to)[k] == s[MoveSource(from, to, k)]
  {
    var rest := s[..from] + s[from + 1..];
    var r := rest[..to] + [s[from]] + rest[to..];
    assert Move(s, from, to) == r;
    assert forall j :: 0 <= j < |rest| ==> rest[j] == if j < from then s[j] else s[j + 1];
    if k < to {
      assert r[k] == rest[k];
    } else if k > to {
      assert r[k] == rest[k - 1];
    }
  }

  /**
   * The moved element lands at to; the elements strictly between the two
   * indices shift one place toward the vacated slot; the others stay put.
   */
  lemma MoveShifts<T>(s: seq<T>, from: nat, to: nat)
    requires from < |s| && to < |s|
    ensures Move(s, from, to)[to] == s[from]
    ensures forall k :: 0 <= k < |s| && k < from && k < to ==> Move(s, from, to)[k] == s[k]
    ensures forall k :: 0 <= k < |s| && k > from && k > to ==> Move(s, from, to)[k] == s[k]
    ensures forall k :: from <= k < to ==> Move(s, from, to)[k] == s[k + 1]
    ensures forall k :: to < k <= from ==> Move(s, from, to)[k] == s[k - 1]
  {
    forall k | 0 <= k < |s| {
      MoveAt(s, from, to, k);
    }
  }

  /** Moving back from to to from undoes a move. */
  lemma MoveInverse<T>(s: seq<T>, from: nat, to: nat)
    requires from < |s| && to < |s|
    ensures Move(Move(s, from, to), to, from) == s
  {
    var m := Move(s, from, to);
    var back := Move(m, to, from);
    forall k | 0 <= k < |s|
      ensures back[k] == s[k]
    {
      var j := MoveSource(to, from, k);
      MoveAt(m, to, from, k);
      MoveAt(s, from, to, j);
      MoveSourceInverse(from, to, k);
    }
  }

  /** A move onto its own index changes nothing. */
  lemma MoveSame<T>(s: seq<T>, i: nat)
    requires i < |s|
    ensures Move(s, i, i) == s
  {
    forall k | 0 <= k < |s|
      ensures Move(s, i, i)[k] == s[k]
    {
      MoveAt(s, i, i, k);
    }
  }

  /** A move keeps the ids unique. */
  lemma MoveKeepsUniqueIds(s: seq<Todo>, from: nat, to: nat)
    requires from < |s| && to < |s| && UniqueIds(s)
    ensures UniqueIds(Move(s, from, to))
  {
    var r := Move(s, from, to);
    forall i, j | 0 <= i < |r| && 0 <= j < |r| && i != j
      ensures r[i].id != r[j].id
    {
      MoveAt(s, from, to, i);
      MoveAt(s, from, to, j);
      MoveSourceInjective(from, to, i, j);
    }
  }

  /** Whether a drag ends in a move, as the guard of handleDragEnd decides. */
  predicate DragMoves(active: int, over: Option<int>) {
    over.Some? && active != over.value
  }

  /**
   * handleDragEnd: with a target whose id differs from the dragged one, move
   * the dragged todo to the target's index; otherwise leave the list alone.
   */
  function DragEnd(s: seq<Todo>, active: int, over: Option<int>): (r: seq<Todo>)
    requires DragMoves(active, over) ==> HasId(s, active) && HasId(s, over.value)
    ensures |r| == |s| && multiset(r) == multiset(s)
    ensures !DragMoves(active, over) ==> r == s
    ensures DragMoves(active, over) ==> r[FindIndex(s, over.value)].id == active
  {
    if DragMoves(active, over) then
      Move(s, FindIndex(s, active), FindIndex(s, over.value))
    else s
  }

  /**
   * Between the first index of the dragged id and the first index of the
   * target id, the elements shift by one; the rest stay put; ids stay unique.
   */
  lemma DragEndMoves(s: seq<Todo>, active: int, over: int)
    requires active != over && HasId(s, active) && HasId(s, over)
    ensures var from, to, r := FindIndex(s, active), FindIndex(s, over), DragEnd(s, active, Some(over));
      && r[to] == s[from]
      && (forall k :: 0 <= k < |s| && k < from && k < to ==> r[k] == s[k])
      && (forall k :: 0 <= k < |s| && k > from && k > to ==> r[k] == s[k])
      && (forall k :: from <= k < to ==> r[k] == s[k + 1])
      && (forall k :: to < k <= from ==> r[k] == s[k - 1])
      && (UniqueIds(s) ==> UniqueIds(r))
  {
    var from, to := FindIndex(s, active), FindIndex(s, over);
    assert DragEnd(s, active, Some(over)) == Move(s, from, to);
    MoveShifts(s, from, to);
    if UniqueIds(s) {
      MoveKeepsUniqueIds(s, from, to);
    }
  }

  /** [A(1), B(2), C(3)], dragging 1 over 3, becomes [B, C, A]. */
  lemma DragEndExample(a: string, b: string, c: string)
    ensures var s := [Todo(1, a, false), Todo(2, b, false), Todo(3, c, false)];
      FindIndex(s, 1) == 0 && FindIndex(s, 3) == 2 &&
      DragEnd(s, 1, Some(3)) == [Todo(2, b, false), Todo(3, c, false), Todo(1, a, false)]
  {
    var s := [Todo(1, a, false), Todo(2, b, false), Todo(3, c, false)];
    assert s[0].id == 1 && s[2].id == 3;
    assert FindIndex(s, 1) == 0;
    assert FindIndex(s, 3) == 2;
    assert DragEnd(s, 1, Some(3)) == Move(s, 0, 2);
    MoveShifts(s, 0, 2);
  }
}
