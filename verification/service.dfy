/** The task service: every operation loads the whole list from one storage
    key, transforms it with a pure list operation, and writes the whole list
    back. Storage is a single cell holding what a successful read of that
    key would yield; serialisation is abstracted away. Both storage calls
    can reject on any one call, and the service catches both:
    - `read` says whether this call's read went through; when it did not,
      the call works on the empty list, while the cell keeps its contents;
    - `written` says whether this call's write went through; when it did
      not, the cell keeps its old contents while the operation still
      completes normally. */
module TodoService {
  import opened Text
  import opened Todos

  /** The contents of the storage key. */
  datatype Snapshot =
    | Absent                  // nothing stored yet (also an empty stored string)
    | Unparsable              // the stored text is not valid JSON
    | Saved(todos: seq<Todo>)

  /** The list a successful read of the cell yields. */
  function StoredList(s: Snapshot): (ts: seq<Todo>)
    ensures s.Saved? ==> ts == s.todos
    ensures !s.Saved? ==> ts == []
  {
    match s
    case Saved(todos) => todos
    case _ => []
  }

  /** getTodos: the stored list when the read goes through and the text
      parses; the empty list when the read rejects, the key is empty, or
      the text does not parse. */
  function GetTodos(s: Snapshot, read: bool): (ts: seq<Todo>)
    ensures read && s.Saved? ==> ts == s.todos
    ensures !read || !s.Saved? ==> ts == []
  {
    if read then StoredList(s) else []
  }

  /** saveTodos: overwrite the cell when the write goes through; otherwise
      the failure is swallowed and the cell keeps what it had. */
  function SaveTodos(s: Snapshot, ts: seq<Todo>, written: bool): (s': Snapshot)
    ensures written ==> GetTodos(s', true) == ts && s'.Saved?
    ensures !written ==> s' == s
  {
    if written then Saved(ts) else s
  }

  /** What addTodo leaves in storage, and the record it hands back. */
  datatype Added = Added(store: Snapshot, todo: Todo)

  /** addTodo: append a fresh, not completed task with the trimmed text.
      `id` stands for the clock reading the source turns into the id. */
  function AddTodo(s: Snapshot, id: string, text: string, read: bool, written: bool): (res: Added)
    ensures res.todo.id == id && res.todo.text == Trim(text) && !res.todo.completed
    ensures Tight(res.todo.text)
    ensures written ==>
      var before, after := GetTodos(s, read), StoredList(res.store);
      && |after| == |before| + 1
      && after[..|before|] == before
      && after[|before|] == res.todo
    ensures written && (!read || s.Unparsable?) ==> res.store == Saved([res.todo])
    ensures !written ==> res.store == s
  {
    var t := Todo(id, Trim(text), false);
    Added(SaveTodos(s, GetTodos(s, read) + [t], written), t)
  }

  /** updateTodo: every loaded task carrying `u`'s id becomes `u`. */
  function UpdateTodo(s: Snapshot, u: Todo, read: bool, written: bool): (s': Snapshot)
    ensures written ==> StoredList(s') == Update(GetTodos(s, read), u)
    ensures written && read && !HasId(StoredList(s), u.id) ==> StoredList(s') == StoredList(s)
    ensures written && (!read || s.Unparsable?) ==> s' == Saved([])
    ensures !written ==> s' == s
  {
    SaveTodos(s, Update(GetTodos(s, read), u), written)
  }

  /** deleteTodo: every loaded task carrying `id` is dropped. */
  function DeleteTodo(s: Snapshot, id: string, read: bool, written: bool): (s': Snapshot)
    ensures written ==> StoredList(s') == Delete(GetTodos(s, read), id)
    ensures written ==> !HasId(StoredList(s'), id) && |StoredList(s')| <= |StoredList(s)|
    ensures written && read && !HasId(StoredList(s), id) ==> StoredList(s') == StoredList(s)
    ensures written && (!read || s.Unparsable?) ==> s' == Saved([])
    ensures !written ==> s' == s
  {
    SaveTodos(s, Delete(GetTodos(s, read), id), written)
  }

  /** toggleTodo: every loaded task carrying `id` has its flag flipped. */
  function ToggleTodo(s: Snapshot, id: string, read: bool, written: bool): (s': Snapshot)
    ensures written ==> StoredList(s') == Toggle(GetTodos(s, read), id)
    ensures written && read && !HasId(StoredList(s), id) ==> StoredList(s') == StoredList(s)
    ensures written && (!read || s.Unparsable?) ==> s' == Saved([])
    ensures !written ==> s' == s
  {
    SaveTodos(s, Toggle(GetTodos(s, read), id), written)
  }

  /** Two toggles of one id whose loaded and writes go through leave the
      stored list as it was. */
  lemma ToggleTodoTwice(s: Snapshot, id: string)
    ensures StoredList(ToggleTodo(ToggleTodo(s, id, true, true), id, true, true)) == StoredList(s)
  {
  }

  /** A rejected read followed by a successful write replaces the whole
      stored list: an update, delete or toggle leaves nothing, and an add
      leaves only the new task, whatever was stored before. */
  lemma RejectedReadDropsStoredList(ts: seq<Todo>, u: Todo, id: string, text: string)
    ensures StoredList(UpdateTodo(Saved(ts), u, false, true)) == []
    ensures StoredList(DeleteTodo(Saved(ts), id, false, true)) == []
    ensures StoredList(ToggleTodo(Saved(ts), id, false, true)) == []
    ensures StoredList(AddTodo(Saved(ts), id, text, false, true).store) == [Todo(id, Trim(text), false)]
  {
  }

  /** Adding "Buy milk" to an empty store gives a one-task list holding it,
      not completed. */
  lemma AddToEmptyStore(id: string)
    ensures StoredList(AddTodo(Absent, id, "Buy milk", true, true).store) == [Todo(id, "Buy milk", false)]
  {
    TrimTight("Buy milk");
  }

  /** The blanks around the text of a new task are trimmed away. */
  lemma AddTrimsText(id: string)
    ensures AddTodo(Absent, id, "  Buy milk\n", true, true).todo.text == "Buy milk"
  {
    var padded := "  Buy milk\n";
    assert padded[2..10] == "Buy milk";
    assert IsWhitespace(padded[0]) && IsWhitespace(padded[1]) && IsWhitespace(padded[10]);
    TrimUnique(padded, 2, "Buy milk");
  }

  /** One call of the service, as issued by the task screen. */
  datatype Command =
    | AddTask(id: string, text: string)
    | UpdateTask(todo: Todo)
    | DeleteTask(id: string)
    | ToggleTask(id: string)

  /** The effect a command has on an in-memory list: the reference the
      stored list is compared against. */
  function Apply(ts: seq<Todo>, c: Command): seq<Todo> {
    match c
    case AddTask(id, text) => ts + [Todo(id, Trim(text), false)]
    case UpdateTask(u) => Update(ts, u)
    case DeleteTask(id) => Delete(ts, id)
    case ToggleTask(id) => Toggle(ts, id)
  }

  /** The list obtained by applying `cmds` in order to `ts`. */
  function Replay(ts: seq<Todo>, cmds: seq<Command>): seq<Todo>
    decreases |cmds|
  {
    if cmds == [] then ts
    else Apply(Replay(ts, cmds[..|cmds| - 1]), cmds[|cmds| - 1])
  }

  /** The commands whose write went through, in order. */
  function Kept(cmds: seq<Command>, written: seq<bool>): (ks: seq<Command>)
    requires |written| == |cmds|
    ensures |ks| <= |cmds|
    ensures false !in written ==> ks == cmds
    ensures ks == [] <==> true !in written
    decreases |cmds|
  {
    if cmds == [] then []
    else
      var n := |cmds| - 1;
      var ks := Kept(cmds[..n], written[..n]);
      assert cmds == cmds[..n] + [cmds[n]];
      assert written == written[..n] + [written[n]];
      if written[n] then ks + [cmds[n]] else ks
  }

  /** No call from index `from` on both had its read rejected and its write
      go through: none of them replaced the stored list by working on an
      empty one. */
  predicate NoBlindWriteFrom(loaded: seq<bool>, written: seq<bool>, from: nat)
    requires |loaded| == |written|
  {
    forall i :: from <= i < |loaded| ==> loaded[i] || !written[i]
  }

  /** Issues one command to the service. */
  function Perform(s: Snapshot, c: Command, read: bool, written: bool): (s': Snapshot)
    ensures written ==> StoredList(s') == Apply(GetTodos(s, read), c)
    ensures written ==> s'.Saved?
    ensures !written ==> s' == s
  {
    match c
    case AddTask(id, text) => AddTodo(s, id, text, read, written).store
    case UpdateTask(u) => UpdateTodo(s, u, read, written)
    case DeleteTask(id) => DeleteTodo(s, id, read, written)
    case ToggleTask(id) => ToggleTodo(s, id, read, written)
  }

  /** The snapshot left by issuing `cmds` in order, where `loaded[i]` and
      `written[i]` say whether the read and the write of the i-th call
      went through. */
  function Session(s: Snapshot, cmds: seq<Command>, loaded: seq<bool>, written: seq<bool>): Snapshot
    requires |loaded| == |cmds| && |written| == |cmds|
    decreases |cmds|
  {
    if cmds == [] then s
    else
      var n := |cmds| - 1;
      Perform(Session(s, cmds[..n], loaded[..n], written[..n]), cmds[n], loaded[n], written[n])
  }

  /** Since every call reloads the list, a session in which no call wrote
      after a rejected read leaves the stored list as if exactly the
      commands whose write went through had been applied. Whatever the
      reads did, a session with no successful write leaves storage
      untouched, and one with any successful write leaves a parsed list. */
  lemma {:induction false} SessionReplaysKept(s: Snapshot, cmds: seq<Command>, loaded: seq<bool>, written: seq<bool>)
    requires |loaded| == |cmds| && |written| == |cmds|
    ensures NoBlindWriteFrom(loaded, written, 0) ==>
      StoredList(Session(s, cmds, loaded, written)) == Replay(StoredList(s), Kept(cmds, written))
    ensures Kept(cmds, written) != [] ==> Session(s, cmds, loaded, written).Saved?
    ensures Kept(cmds, written) == [] ==> Session(s, cmds, loaded, written) == s
    decreases |cmds|
  {
    if cmds != [] {
      var n := |cmds| - 1;
      SessionReplaysKept(s, cmds[..n], loaded[..n], written[..n]);
      var prior := Kept(cmds[..n], written[..n]);
      var mid := Session(s, cmds[..n], loaded[..n], written[..n]);
      assert Session(s, cmds, loaded, written) == Perform(mid, cmds[n], loaded[n], written[n]);
      if NoBlindWriteFrom(loaded, written, 0) {
        assert NoBlindWriteFrom(loaded[..n], written[..n], 0);
        assert loaded[n] || !written[n];
      }
      if written[n] {
        assert Kept(cmds, written) == prior + [cmds[n]];
        ReplaySnoc(StoredList(s), prior, cmds[n]);
      } else {
        assert Kept(cmds, written) == prior;
      }
    }
  }

  /** Replaying one more command applies it to the replay so far. */
  lemma ReplaySnoc(ts: seq<Todo>, ks: seq<Command>, c: Command)
    ensures Replay(ts, ks + [c]) == Apply(Replay(ts, ks), c)
  {
    assert (ks + [c])[..|ks|] == ks;
  }

  /** The commands kept from position `k` on are those kept from `k` up to
      the last call, followed by the last call when its write went through. */
  lemma KeptSuffixSplit(cmds: seq<Command>, written: seq<bool>, k: nat)
    requires |written| == |cmds| && k < |cmds| - 1
    ensures
      var n := |cmds| - 1;
      var prior := Kept(cmds[..n][k..], written[..n][k..]);
      Kept(cmds[k..], written[k..]) == if written[n] then prior + [cmds[n]] else prior
  {
    var n := |cmds| - 1;
    var tail, tailW := cmds[k..], written[k..];
    var m := |tail| - 1;
    assert tail[..m] == cmds[..n][k..] && tailW[..m] == written[..n][k..];
    assert tail[m] == cmds[n] && tailW[m] == written[n];
  }

  /** After the last call that wrote following a rejected read, the stored
      list is rebuilt from nothing: it is the replay, on the empty list, of
      the commands from that call on whose write went through. */
  lemma {:induction false} SessionAfterBlindWrite(s: Snapshot, cmds: seq<Command>, loaded: seq<bool>, written: seq<bool>, k: nat)
    requires |loaded| == |cmds| && |written| == |cmds|
    requires k < |cmds| && !loaded[k] && written[k]
    requires NoBlindWriteFrom(loaded, written, k + 1)
    ensures StoredList(Session(s, cmds, loaded, written)) == Replay([], Kept(cmds[k..], written[k..]))
    decreases |cmds|
  {
    var n := |cmds| - 1;
    var mid := Session(s, cmds[..n], loaded[..n], written[..n]);
    assert Session(s, cmds, loaded, written) == Perform(mid, cmds[n], loaded[n], written[n]);
    if n == k {
      assert cmds[k..] == [cmds[n]] && written[k..] == [true];
      assert Kept([cmds[n]], [true]) == [cmds[n]];
      ReplaySnoc([], [], cmds[n]);
    } else {
      assert NoBlindWriteFrom(loaded[..n], written[..n], k + 1);
      SessionAfterBlindWrite(s, cmds[..n], loaded[..n], written[..n], k);
      KeptSuffixSplit(cmds, written, k);
      assert loaded[n] || !written[n];
      if written[n] {
        ReplaySnoc([], Kept(cmds[..n][k..], written[..n][k..]), cmds[n]);
      }
    }
  }

  /** `SessionAfterBlindWrite`, for whichever call was the last to write
      after a rejected read. */
  lemma SessionRebuiltAfterBlindWrite(s: Snapshot, cmds: seq<Command>, loaded: seq<bool>, written: seq<bool>)
    requires |loaded| == |cmds| && |written| == |cmds|
    ensures forall k :: 0 <= k < |cmds| && !loaded[k] && written[k] && NoBlindWriteFrom(loaded, written, k + 1) ==>
      StoredList(Session(s, cmds, loaded, written)) == Replay([], Kept(cmds[k..], written[k..]))
  {
    forall k | 0 <= k < |cmds| && !loaded[k] && written[k] && NoBlindWriteFrom(loaded, written, k + 1)
      ensures StoredList(Session(s, cmds, loaded, written)) == Replay([], Kept(cmds[k..], written[k..]))
    {
      SessionAfterBlindWrite(s, cmds, loaded, written, k);
    }
  }

  /** Issues `cmds` one after another, each awaited before the next, where
      `loaded[i]` and `written[i]` say whether the read and the write of the
      i-th call went through. */
  method RunSession(s: Snapshot, cmds: seq<Command>, loaded: seq<bool>, written: seq<bool>) returns (s': Snapshot)
    requires |loaded| == |cmds| && |written| == |cmds|
    ensures NoBlindWriteFrom(loaded, written, 0) ==>
      StoredList(s') == Replay(StoredList(s), Kept(cmds, written))
    ensures false !in loaded && false !in written ==> StoredList(s') == Replay(StoredList(s), cmds)
    ensures forall k :: 0 <= k < |cmds| && !loaded[k] && written[k] && NoBlindWriteFrom(loaded, written, k + 1) ==>
      StoredList(s') == Replay([], Kept(cmds[k..], written[k..]))
    ensures true in written ==> s'.Saved?
    ensures true !in written ==> s' == s
  {
    s' := s;
    var i := 0;
    while i < |cmds|
      invariant 0 <= i <= |cmds|
      invariant s' == Session(s, cmds[..i], loaded[..i], written[..i])
    {
      assert cmds[..i + 1][..i] == cmds[..i];
      assert loaded[..i + 1][..i] == loaded[..i] && written[..i + 1][..i] == written[..i];
      s' := Perform(s', cmds[i], loaded[i], written[i]);
      i := i + 1;
    }
    assert cmds[..i] == cmds && loaded[..i] == loaded && written[..i] == written;
    SessionReplaysKept(s, cmds, loaded, written);
    SessionRebuiltAfterBlindWrite(s, cmds, loaded, written);
  }
}
