/** The task record as the store returns it, the requests the component
    sends, and the two list rebuilds applied after an update or a delete. */
module Tasks {
  import opened Outcomes

  datatype Priority = Low | Medium | High

  /** One task as the store returns it. `id` is the store's `_id`;
      `dueDate` is the JSON string or null. */
  datatype Task = Task(id: string, text: string, priority: Priority, completed: bool, dueDate: Option<string>)

  /** The body of each request the component sends to the store. The due
      date of a new task is the raw form buffer, possibly "". */
  datatype Request =
    | List
    | Create(text: string, priority: Priority, dueDate: string)
    | Update(id: string, completed: bool)
    | Delete(id: string)

  /** `xs` is obtained from `ys` by deleting elements, keeping the order of
      the rest. */
  predicate IsSubsequence<T(==)>(xs: seq<T>, ys: seq<T>)
    decreases |ys|
  {
    xs == [] ||
    (ys != [] &&
      ((xs[0] == ys[0] && IsSubsequence(xs[1..], ys[1..])) || IsSubsequence(xs, ys[1..])))
  }

  /** `xs.filter(keep)`: the elements of `xs` that satisfy `keep`, in
      order, each as often as in `xs`; it is all of `xs` exactly when every
      element is kept. */
  function Select<T(==,!new)>(xs: seq<T>, keep: T -> bool): (out: seq<T>)
    ensures |out| <= |xs|
    ensures IsSubsequence(out, xs)
    ensures forall x :: x in out <==> x in xs && keep(x)
    ensures forall x :: keep(x) ==> multiset(out)[x] == multiset(xs)[x]
  {
    if xs == [] then []
    else
      var rest := Select(xs[1..], keep);
      assert xs == [xs[0]] + xs[1..];
      if keep(xs[0]) then [xs[0]] + rest else rest
  }

  /** The selection is as long as the sequence exactly when every element
      is kept. */
  lemma {:induction false} SelectLengthIffAll<T(!new)>(xs: seq<T>, keep: T -> bool)
    ensures |Select(xs, keep)| == |xs| <==> forall i :: 0 <= i < |xs| ==> keep(xs[i])
  {
    if xs != [] {
      SelectLengthIffAll(xs[1..], keep);
      SelectLengthCons(xs, keep);
      assert |Select(xs[1..], keep)| <= |xs| - 1;
      assert (forall i :: 0 <= i < |xs| ==> keep(xs[i])) <==>
        keep(xs[0]) && forall i :: 0 <= i < |xs[1..]| ==> keep(xs[1..][i]) by {
        assert forall i :: 1 <= i < |xs| ==> xs[i] == xs[1..][i - 1];
      }
    }
  }

  /** Keeping every element gives back the whole sequence. */
  lemma {:induction false} SelectKeepsAll<T(!new)>(xs: seq<T>, keep: T -> bool)
    requires forall i :: 0 <= i < |xs| ==> keep(xs[i])
    ensures Select(xs, keep) == xs
  {
    if xs != [] {
      SelectKeepsAll(xs[1..], keep);
    }
  }

  /** Two tests that agree on every element select the same elements. */
  lemma {:induction false} SelectCongruent<T(!new)>(xs: seq<T>, p: T -> bool, q: T -> bool)
    requires forall i :: 0 <= i < |xs| ==> p(xs[i]) == q(xs[i])
    ensures Select(xs, p) == Select(xs, q)
  {
    if xs != [] {
      SelectCongruent(xs[1..], p, q);
    }
  }

  /** Selecting twice with the same test selects nothing more. */
  lemma {:induction false} SelectIdempotent<T(!new)>(xs: seq<T>, p: T -> bool)
    ensures Select(Select(xs, p), p) == Select(xs, p)
  {
    if xs != [] {
      SelectIdempotent(xs[1..], p);
      var rest := Select(xs[1..], p);
      if p(xs[0]) {
        assert ([xs[0]] + rest)[1..] == rest;
      }
    }
  }

  /** Two selections give the same result in either order. */
  lemma {:induction false} SelectCommute<T(!new)>(xs: seq<T>, p: T -> bool, q: T -> bool)
    ensures Select(Select(xs, p), q) == Select(Select(xs, q), p)
  {
    if xs != [] {
      SelectCommute(xs[1..], p, q);
      var x, pr, qr := xs[0], Select(xs[1..], p), Select(xs[1..], q);
      if p(x) {
        assert ([x] + pr)[1..] == pr;
      }
      if q(x) {
        assert ([x] + qr)[1..] == qr;
      }
    }
  }

  /** When `r` holds of an element exactly when one of `p` and `q` does,
      and never both, the two selections split the third. */
  lemma {:induction false} SelectSplit<T(!new)>(xs: seq<T>, p: T -> bool, q: T -> bool, r: T -> bool)
    requires forall i :: 0 <= i < |xs| ==> (r(xs[i]) <==> p(xs[i]) || q(xs[i]))
    requires forall i :: 0 <= i < |xs| ==> !(p(xs[i]) && q(xs[i]))
    ensures |Select(xs, p)| + |Select(xs, q)| == |Select(xs, r)|
  {
    if xs != [] {
      assert forall i :: 1 <= i < |xs| ==> xs[i] == xs[1..][i - 1];
      SelectSplit(xs[1..], p, q, r);
    }
  }

  /** Changing the element at index `k` changes the number selected by
      whether the old and the new element are kept. */
  lemma {:induction false} SelectUpdate<T(!new)>(xs: seq<T>, k: nat, v: T, p: T -> bool)
    requires k < |xs|
    ensures |Select(xs[k := v], p)| ==
      |Select(xs, p)| - (if p(xs[k]) then 1 else 0) + (if p(v) then 1 else 0)
  {
    var ys := xs[k := v];
    SelectLengthCons(xs, p);
    SelectLengthCons(ys, p);
    if k > 0 {
      assert ys[1..] == xs[1..][k - 1 := v];
      SelectUpdate(xs[1..], k - 1, v, p);
    } else {
      assert ys[1..] == xs[1..];
    }
  }

  /** The length of a selection, one element at a time. */
  lemma SelectLengthCons<T(!new)>(xs: seq<T>, p: T -> bool)
    requires xs != []
    ensures |Select(xs, p)| == (if p(xs[0]) then 1 else 0) + |Select(xs[1..], p)|
  {
  }

  /** No two tasks in the list share an id. The store assigns ids; the
      component never checks this. */
  ghost predicate UniqueIds(ts: seq<Task>)
  {
    forall i, j :: 0 <= i < j < |ts| ==> ts[i].id != ts[j].id
  }

  /** The number of tasks in `ts` whose id is `id`. */
  function CountId(ts: seq<Task>, id: string): nat
  {
    if ts == [] then 0 else (if ts[0].id == id then 1 else 0) + CountId(ts[1..], id)
  }

  /** `tasks.map(t => t._id === id ? r : t)`: the list after a successful
      toggle. */
  function ReplaceById(ts: seq<Task>, id: string, r: Task): (out: seq<Task>)
    ensures |out| == |ts|
    ensures forall i :: 0 <= i < |ts| && ts[i].id != id ==> out[i] == ts[i]
    ensures forall i :: 0 <= i < |ts| && ts[i].id == id ==> out[i] == r
  {
    if ts == [] then [] else [if ts[0].id == id then r else ts[0]] + ReplaceById(ts[1..], id, r)
  }

  /** The test `t => t._id !== id`. */
  function OtherId(id: string): Task -> bool
  {
    (t: Task) => t.id != id
  }

  /** `tasks.filter(t => t._id !== id)`: the list after a successful
      delete. No task with that id is left, every other task stays in its
      order, and the list shrinks by the number of tasks that had the id. */
  function RemoveById(ts: seq<Task>, id: string): (out: seq<Task>)
    ensures forall t :: t in out <==> t in ts && t.id != id
    ensures IsSubsequence(out, ts)
    ensures |out| == |ts| - CountId(ts, id)
  {
    RemovedCount(ts, id);
    Select(ts, OtherId(id))
  }

  lemma {:induction false} RemovedCount(ts: seq<Task>, id: string)
    ensures |Select(ts, OtherId(id))| == |ts| - CountId(ts, id)
  {
    if ts != [] {
      RemovedCount(ts[1..], id);
    }
  }

  /** With unique ids, an id occurs once in the list or not at all. */
  lemma {:induction false} CountIdUnique(ts: seq<Task>, id: string)
    requires UniqueIds(ts)
    ensures CountId(ts, id) == (if exists k :: 0 <= k < |ts| && ts[k].id == id then 1 else 0)
  {
    if ts != [] {
      assert UniqueIds(ts[1..]);
      CountIdUnique(ts[1..], id);
      if ts[0].id == id {
        assert forall k :: 0 <= k < |ts[1..]| ==> ts[1..][k].id != id by {
          forall k | 0 <= k < |ts[1..]| ensures ts[1..][k].id != id {
            assert ts[1..][k] == ts[k + 1];
          }
        }
      } else {
        if exists k :: 0 <= k < |ts| && ts[k].id == id {
          var k :| 0 <= k < |ts| && ts[k].id == id;
          assert ts[1..][k - 1].id == id;
        }
      }
    }
  }

  /** Deleting the id of a listed task from a list with unique ids removes
      exactly one task; deleting an id that is not listed changes nothing. */
  lemma DeleteRemovesOne(ts: seq<Task>, id: string)
    requires UniqueIds(ts)
    ensures (exists k :: 0 <= k < |ts| && ts[k].id == id) ==> |RemoveById(ts, id)| == |ts| - 1
    ensures (forall k :: 0 <= k < |ts| ==> ts[k].id != id) ==> RemoveById(ts, id) == ts
  {
    CountIdUnique(ts, id);
    if forall k :: 0 <= k < |ts| ==> ts[k].id != id {
      NothingToRemove(ts, id);
    }
  }

  lemma NothingToRemove(ts: seq<Task>, id: string)
    requires forall k :: 0 <= k < |ts| ==> ts[k].id != id
    ensures RemoveById(ts, id) == ts
  {
    SelectKeepsAll(ts, OtherId(id));
  }

  /** Putting a task with a new id at the head keeps ids unique. */
  lemma PrependKeepsUniqueIds(ts: seq<Task>, t: Task)
    requires UniqueIds(ts)
    requires forall k :: 0 <= k < |ts| ==> ts[k].id != t.id
    ensures UniqueIds([t] + ts)
  {
    var out := [t] + ts;
    forall i, j | 0 <= i < j < |out| ensures out[i].id != out[j].id {
      if i > 0 {
        assert out[i] == ts[i - 1] && out[j] == ts[j - 1];
      }
    }
  }

  /** Deleting the id of a task just put at the head, when no other task
      has that id, gives back the list as it was. */
  lemma DeleteUndoesAdd(ts: seq<Task>, t: Task)
    requires forall k :: 0 <= k < |ts| ==> ts[k].id != t.id
    ensures RemoveById([t] + ts, t.id) == ts
  {
    assert ([t] + ts)[1..] == ts;
    NothingToRemove(ts, t.id);
  }

  /** Replacing the tasks with a given id by a response that carries the
      same id keeps ids unique. */
  lemma ReplaceKeepsUniqueIds(ts: seq<Task>, id: string, r: Task)
    requires UniqueIds(ts)
    requires r.id == id
    ensures UniqueIds(ReplaceById(ts, id, r))
  {
  }

  /** Removing tasks keeps ids unique. */
  lemma {:induction false} RemoveKeepsUniqueIds(ts: seq<Task>, id: string)
    requires UniqueIds(ts)
    ensures UniqueIds(RemoveById(ts, id))
  {
    if ts != [] {
      assert UniqueIds(ts[1..]);
      RemoveKeepsUniqueIds(ts[1..], id);
      if ts[0].id != id {
        var rest := RemoveById(ts[1..], id);
        forall k | 0 <= k < |rest| ensures rest[k].id != ts[0].id {
          assert rest[k] in ts[1..];
          var m :| 0 <= m < |ts[1..]| && ts[1..][m] == rest[k];
          assert ts[m + 1] == rest[k];
        }
        PrependKeepsUniqueIds(rest, ts[0]);
      }
    }
  }

  /** When the store answers a toggle of the task at index `k` of a list
      with unique ids by that task with `completed` flipped, exactly that
      one task changes, and only in its `completed` flag. */
  lemma ToggleFlipsOne(ts: seq<Task>, k: nat, r: Task)
    requires UniqueIds(ts)
    requires k < |ts|
    requires r == ts[k].(completed := !ts[k].completed)
    ensures ReplaceById(ts, ts[k].id, r) == ts[k := r]
    ensures ReplaceById(ts, ts[k].id, r)[k].completed != ts[k].completed
  {
    var out := ReplaceById(ts, ts[k].id, r);
    forall i | 0 <= i < |ts| ensures out[i] == ts[k := r][i] {
      if i != k {
        assert ts[i].id != ts[k].id;
      }
    }
  }
}
