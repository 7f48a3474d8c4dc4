/** The task records and the pure meaning of the three operations of the to-do list
    on the `tasks` sequence: filtering out an id (`deleteTask`), finding the first task
    with an id and flipping its completion flag (`toggleTask`). */
module TaskList {

  datatype Option<T> = None | Some(value: T)

  /** One to-do entry. `id` is the creation time in milliseconds and serves as the key;
      two tasks created in the same millisecond share it. */
  datatype Task = Task(id: int, text: string, completed: bool)

  /** The task with its completion flag inverted. */
  function Flip(t: Task): Task
  {
    t.(completed := !t.completed)
  }

  predicate HasId(ts: seq<Task>, id: int)
  {
    exists i :: 0 <= i < |ts| && ts[i].id == id
  }

  /** `i` is the position of the first task in `ts` whose id is `id`. */
  predicate IsFirstWithId(ts: seq<Task>, id: int, i: int)
  {
    0 <= i < |ts| && ts[i].id == id && forall j :: 0 <= j < i ==> ts[j].id != id
  }

  /** `a` occurs in `b` in order, possibly with gaps (matched greedily from the left). */
  predicate IsSubsequence<T(==)>(a: seq<T>, b: seq<T>)
  {
    a == [] || (b != [] && if a[0] == b[0] then IsSubsequence(a[1..], b[1..]) else IsSubsequence(a, b[1..]))
  }

  // ---------------------------------------------------------------- deleteTask

  /** The tasks of `ts` whose id differs from `id`, in their order: the new array that
      `deleteTask` builds by keeping every task with another id (script.js:44). */
  function Without(ts: seq<Task>, id: int): (r: seq<Task>)
    ensures |r| <= |ts|
    ensures !HasId(r, id)
    ensures forall t :: t in r ==> t in ts
  {
    if ts == [] then []
    else if ts[0].id == id then Without(ts[1..], id)
    else [ts[0]] + Without(ts[1..], id)
  }

  /** Filtering keeps every other task, as often as it occurred, and drops every task
      with the id. */
  lemma {:induction false} WithoutCounts(ts: seq<Task>, id: int)
    ensures forall t :: multiset(Without(ts, id))[t] == if t.id == id then 0 else multiset(ts)[t]
  {
    if ts != [] {
      WithoutCounts(ts[1..], id);
      assert ts == [ts[0]] + ts[1..];
    }
  }

  /** Filtering keeps the relative order of the tasks it keeps. */
  lemma {:induction false} WithoutPreservesOrder(ts: seq<Task>, id: int)
    ensures IsSubsequence(Without(ts, id), ts)
  {
    if ts != [] {
      WithoutPreservesOrder(ts[1..], id);
      var rest := Without(ts[1..], id);
      if ts[0].id != id {
        assert ([ts[0]] + rest)[1..] == rest;
      } else if rest != [] {
        assert rest[0] in rest;
      }
    }
  }

  lemma {:induction false} SubsequenceCounts<T>(a: seq<T>, b: seq<T>)
    requires IsSubsequence(a, b)
    ensures multiset(a) <= multiset(b)
  {
    if a != [] {
      assert b == [b[0]] + b[1..];
      if a[0] == b[0] {
        SubsequenceCounts(a[1..], b[1..]);
        assert a == [a[0]] + a[1..];
      } else {
        SubsequenceCounts(a, b[1..]);
      }
    }
  }

  /** `Without` is the only order-preserving selection from `ts` that holds exactly the
      tasks whose id differs from `id`, with their multiplicities. */
  lemma {:induction false} WithoutIsTheFilter(ts: seq<Task>, id: int, r: seq<Task>)
    requires IsSubsequence(r, ts)
    requires forall t :: multiset(r)[t] == if t.id == id then 0 else multiset(ts)[t]
    ensures r == Without(ts, id)
  {
    if ts == [] {
      assert multiset(r) == multiset{};
    } else {
      var x := ts[0];
      assert ts == [x] + ts[1..];
      if r != [] && r[0] == x {
        assert r == [x] + r[1..];
        assert multiset(r)[x] > 0;
        WithoutIsTheFilter(ts[1..], id, r[1..]);
      } else {
        assert IsSubsequence(r, ts[1..]);
        if x.id != id {
          SubsequenceCounts(r, ts[1..]);
          assert false;
        }
        WithoutIsTheFilter(ts[1..], id, r);
      }
    }
  }

  /** Filtering changes nothing exactly when no task has the id. */
  lemma {:induction false} WithoutUnchangedIff(ts: seq<Task>, id: int)
    ensures Without(ts, id) == ts <==> !HasId(ts, id)
  {
    if ts != [] && !HasId(ts, id) {
      assert !HasId(ts[1..], id) by {
        forall i | 0 <= i < |ts[1..]| ensures ts[1..][i].id != id {
          assert ts[1..][i] == ts[i + 1];
        }
      }
      WithoutUnchangedIff(ts[1..], id);
      assert ts == [ts[0]] + ts[1..];
    }
  }

  /** Deleting an id twice is deleting it once. */
  lemma WithoutIdempotent(ts: seq<Task>, id: int)
    ensures Without(Without(ts, id), id) == Without(ts, id)
  {
    WithoutUnchangedIff(Without(ts, id), id);
  }

  lemma {:induction false} WithoutConcat(a: seq<Task>, b: seq<Task>, id: int)
    ensures Without(a + b, id) == Without(a, id) + Without(b, id)
  {
    if a != [] {
      assert (a + b)[0] == a[0] && (a + b)[1..] == a[1..] + b;
      WithoutConcat(a[1..], b, id);
    } else {
      assert a + b == b;
    }
  }

  // ---------------------------------------------------------------- toggleTask

  /** The position of the first task with the id, or `None` when there is none: the
      task that `toggleTask` looks up (script.js:51), given by its position. */
  function FindFirst(ts: seq<Task>, id: int): (r: Option<nat>)
    ensures r.None? <==> !HasId(ts, id)
    ensures r.Some? ==> IsFirstWithId(ts, id, r.value)
  {
    if ts == [] then None
    else if ts[0].id == id then Some(0)
    else match FindFirst(ts[1..], id)
      case None => None
      case Some(k) => Some(k + 1)
  }

  /** `ts` after `toggleTask(id)`: the first task with the id has its flag flipped,
      every other task, and the length, stay as they were; without such a task
      nothing changes. */
  function Toggled(ts: seq<Task>, id: int): (r: seq<Task>)
    ensures |r| == |ts|
    ensures forall i :: 0 <= i < |ts| ==> r[i].id == ts[i].id && r[i].text == ts[i].text
    ensures !HasId(ts, id) ==> r == ts
    ensures forall i :: IsFirstWithId(ts, id, i) ==>
              r[i].completed == !ts[i].completed &&
              forall j :: 0 <= j < |ts| && j != i ==> r[j] == ts[j]
  {
    match FindFirst(ts, id)
    case None => ts
    case Some(i) => ts[i := Flip(ts[i])]
  }

  /** Toggling changes something exactly when some task has the id. */
  lemma ToggledUnchangedIff(ts: seq<Task>, id: int)
    ensures Toggled(ts, id) == ts <==> !HasId(ts, id)
  {
    if HasId(ts, id) {
      var i := FindFirst(ts, id).value;
      assert Toggled(ts, id)[i] != ts[i];
    }
  }

  /** Toggling the same id twice restores the sequence. */
  lemma ToggledTwice(ts: seq<Task>, id: int)
    ensures Toggled(Toggled(ts, id), id) == ts
  {
    var once := Toggled(ts, id);
    match FindFirst(ts, id)
    case None =>
    case Some(i) =>
      assert IsFirstWithId(once, id, i);
  }

  // ---------------------------------------------------------------- the three together

  /** Deleting the id of a task just appended, when no earlier task has that id,
      gives back the sequence before the append. */
  lemma DeleteUndoesAppend(ts: seq<Task>, t: Task)
    requires !HasId(ts, t.id)
    ensures Without(ts + [t], t.id) == ts
  {
    WithoutConcat(ts, [t], t.id);
    WithoutUnchangedIff(ts, t.id);
    assert Without([t], t.id) == [];
  }

  /** Toggling the id of a task just appended, when no earlier task has that id,
      flips that task and nothing else. */
  lemma ToggleFindsAppended(ts: seq<Task>, t: Task)
    requires !HasId(ts, t.id)
    ensures Toggled(ts + [t], t.id) == ts + [Flip(t)]
  {
    assert IsFirstWithId(ts + [t], t.id, |ts|);
  }

  /** When two tasks share an id, deleting that id removes both, while toggling it
      flips only the earlier one and leaves the later one as it was. */
  lemma CollidingIds(ts: seq<Task>, i: int, j: int)
    requires 0 <= i < j < |ts| && ts[i].id == ts[j].id
    ensures ts[i] !in Without(ts, ts[i].id) && ts[j] !in Without(ts, ts[i].id)
    ensures Toggled(ts, ts[i].id)[j] == ts[j]
  {
    var id := ts[i].id;
    var k := FindFirst(ts, id).value;
    assert k <= i;
    WithoutCounts(ts, id);
  }
}
