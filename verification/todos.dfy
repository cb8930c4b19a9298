/** The task record and the pure list transforms that every mutating
    operation of the task service applies between loading and saving
    the whole list. Ids come from a millisecond clock with no collision
    check, so nothing here assumes they are unique: every statement about
    "the task with this id" speaks of every task carrying that id. */
module Todos {

  datatype Todo = Todo(id: string, text: string, completed: bool)

  predicate HasId(ts: seq<Todo>, id: string) {
    exists i :: 0 <= i < |ts| && ts[i].id == id
  }

  /** The number of tasks carrying `id`. */
  function CountId(ts: seq<Todo>, id: string): (n: nat)
    ensures n <= |ts|
    ensures n == 0 <==> !HasId(ts, id)
  {
    if ts == [] then 0
    else
      var rest := CountId(ts[1..], id);
      assert forall i :: 1 <= i < |ts| ==> ts[i] == ts[1..][i - 1];
      (if ts[0].id == id then 1 else 0) + rest
  }

  /** The invariant the service hopes for but does not enforce. */
  ghost predicate UniqueIds(ts: seq<Todo>) {
    forall i, j :: 0 <= i < j < |ts| ==> ts[i].id != ts[j].id
  }

  /** `xs` is `ys` with some elements dropped, the rest kept in order. */
  ghost predicate IsSubsequence(xs: seq<Todo>, ys: seq<Todo>)
    decreases |ys|
  {
    if xs == [] then true
    else if ys == [] then false
    else if xs[0] == ys[0] then IsSubsequence(xs[1..], ys[1..])
    else IsSubsequence(xs, ys[1..])
  }

  /** `todos.map(t => t.id === u.id ? u : t)`: every task carrying `u`'s id
      is replaced by `u`, every other task is kept where it is. */
  function Update(ts: seq<Todo>, u: Todo): (r: seq<Todo>)
    ensures |r| == |ts|
    ensures forall i :: 0 <= i < |ts| && ts[i].id == u.id ==> r[i] == u
    ensures forall i :: 0 <= i < |ts| && ts[i].id != u.id ==> r[i] == ts[i]
    ensures forall i :: 0 <= i < |ts| ==> r[i].id == ts[i].id
    ensures !HasId(ts, u.id) ==> r == ts
  {
    if ts == [] then []
    else
      var rest := Update(ts[1..], u);
      assert forall i :: 1 <= i < |ts| ==> ts[i] == ts[1..][i - 1];
      [if ts[0].id == u.id then u else ts[0]] + rest
  }

  /** `todos.filter(t => t.id !== id)`: exactly the tasks not carrying `id`,
      in their original order. */
  function Delete(ts: seq<Todo>, id: string): (r: seq<Todo>)
    ensures forall t :: t in r <==> t in ts && t.id != id
    ensures !HasId(r, id)
    ensures |r| == |ts| - CountId(ts, id)
    ensures !HasId(ts, id) ==> r == ts
  {
    if ts == [] then []
    else
      var rest := Delete(ts[1..], id);
      assert forall i :: 1 <= i < |ts| ==> ts[i] == ts[1..][i - 1];
      assert ts == [ts[0]] + ts[1..];
      if ts[0].id == id then rest
      else
        var r := [ts[0]] + rest;
        assert r[1..] == rest;
        r
  }

  /** The tasks that survive a delete keep their relative order. */
  lemma {:induction false} DeleteKeepsOrder(ts: seq<Todo>, id: string)
    ensures IsSubsequence(Delete(ts, id), ts)
  {
    if ts != [] {
      DeleteKeepsOrder(ts[1..], id);
      var rest := Delete(ts[1..], id);
      if ts[0].id != id {
        assert Delete(ts, id) == [ts[0]] + rest;
        assert ([ts[0]] + rest)[1..] == rest;
      } else if rest != [] {
        assert rest[0] in ts[1..];
        assert rest[0] != ts[0];
      }
    }
  }

  /** `todos.map(t => t.id === id ? {...t, completed: !t.completed} : t)`:
      the completion flag flips exactly on the tasks carrying `id`; ids,
      texts and positions never change. */
  function Toggle(ts: seq<Todo>, id: string): (r: seq<Todo>)
    ensures |r| == |ts|
    ensures forall i :: 0 <= i < |ts| ==> r[i].id == ts[i].id && r[i].text == ts[i].text
    ensures forall i :: 0 <= i < |ts| ==> (r[i].completed != ts[i].completed <==> ts[i].id == id)
    ensures !HasId(ts, id) ==> r == ts
  {
    if ts == [] then []
    else
      var rest := Toggle(ts[1..], id);
      assert forall i :: 1 <= i < |ts| ==> ts[i] == ts[1..][i - 1];
      [if ts[0].id == id then ts[0].(completed := !ts[0].completed) else ts[0]] + rest
  }

  /** Toggling the same id twice gives back the original list. */
  lemma ToggleInvolution(ts: seq<Todo>, id: string)
    ensures Toggle(Toggle(ts, id), id) == ts
  {
  }

  /** Toggles of two ids commute. */
  lemma ToggleCommutes(ts: seq<Todo>, a: string, b: string)
    ensures Toggle(Toggle(ts, a), b) == Toggle(Toggle(ts, b), a)
  {
  }

  /** Deleting twice removes nothing more. */
  lemma DeleteIdempotent(ts: seq<Todo>, id: string)
    ensures Delete(Delete(ts, id), id) == Delete(ts, id)
  {
  }

  /** Updating twice with the same record changes nothing more. */
  lemma UpdateIdempotent(ts: seq<Todo>, u: Todo)
    ensures Update(Update(ts, u), u) == Update(ts, u)
  {
  }

  /** Deleting an id discards whatever an earlier toggle of it did. */
  lemma {:induction false} DeleteAfterToggle(ts: seq<Todo>, id: string)
    ensures Delete(Toggle(ts, id), id) == Delete(ts, id)
  {
    if ts != [] {
      DeleteAfterToggle(ts[1..], id);
      assert Toggle(ts, id)[1..] == Toggle(ts[1..], id);
    }
  }

  /** Deleting an id discards whatever an earlier update of it did. */
  lemma {:induction false} DeleteAfterUpdate(ts: seq<Todo>, u: Todo)
    ensures Delete(Update(ts, u), u.id) == Delete(ts, u.id)
  {
    if ts != [] {
      DeleteAfterUpdate(ts[1..], u);
      assert Update(ts, u)[1..] == Update(ts[1..], u);
    }
  }

  /** Update and toggle keep every id in place, so unique ids stay unique. */
  lemma UpdateTogglePreserveUniqueIds(ts: seq<Todo>, u: Todo, id: string)
    requires UniqueIds(ts)
    ensures UniqueIds(Update(ts, u))
    ensures UniqueIds(Toggle(ts, id))
  {
  }

  /** Dropping tasks cannot create a duplicate id. */
  lemma {:induction false} DeletePreservesUniqueIds(ts: seq<Todo>, id: string)
    requires UniqueIds(ts)
    ensures UniqueIds(Delete(ts, id))
  {
    if ts != [] {
      assert UniqueIds(ts[1..]);
      DeletePreservesUniqueIds(ts[1..], id);
      var rest := Delete(ts[1..], id);
      if ts[0].id != id {
        var r := [ts[0]] + rest;
        forall j | 0 < j < |r| ensures r[0].id != r[j].id {
          assert r[j] in rest;
          assert r[j] in ts[1..];
        }
      }
    }
  }

  /** Appending a task whose id is not yet used keeps ids unique. */
  lemma AppendFreshPreservesUniqueIds(ts: seq<Todo>, t: Todo)
    requires UniqueIds(ts)
    requires !HasId(ts, t.id)
    ensures UniqueIds(ts + [t])
  {
  }
}
