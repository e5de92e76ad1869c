/** What the component derives from its state on every render: the
    visible tasks (search and filter tab combined) and the header counts. */
module View {
  import opened Outcomes
  import opened Text
  import opened Tasks

  /** The filter tabs. The component stores the tab as a string, but only
      ever sets it to one of these three names. */
  datatype Filter = All | Pending | Completed

  /** The task's text, lower-cased, includes the lower-cased search term.
      An empty search box matches every task, and a term longer than the
      text matches none. */
  predicate MatchesSearch(t: Task, term: string)
    ensures term == "" ==> MatchesSearch(t, term)
    ensures MatchesSearch(t, term) ==> |term| <= |t.text|
  {
    IncludesEmpty(Lower(t.text));
    Includes(Lower(t.text), Lower(term))
  }

  /** 'All' matches every task, 'Completed' the completed ones and
      'Pending' the rest. */
  predicate MatchesFilter(t: Task, f: Filter)
    ensures MatchesFilter(t, f) <==> f == All || (f == Completed) == t.completed
  {
    match f
    case All => true
    case Completed => t.completed
    case Pending => !t.completed
  }

  predicate Shown(t: Task, term: string, f: Filter)
  {
    MatchesSearch(t, term) && MatchesFilter(t, f)
  }

  /** The test of `filteredTasks` as a value. */
  function ShownBy(term: string, f: Filter): Task -> bool
  {
    t => Shown(t, term, f)
  }

  /** `filteredTasks`: the tasks that match both the search term and the
      filter tab, in list order, each as often as in the list, and no
      other. */
  function Visible(ts: seq<Task>, term: string, f: Filter): (out: seq<Task>)
    ensures IsSubsequence(out, ts)
    ensures forall i :: 0 <= i < |out| ==> Shown(out[i], term, f)
    ensures forall t :: t in ts && Shown(t, term, f) ==> t in out
    ensures forall t :: Shown(t, term, f) ==> multiset(out)[t] == multiset(ts)[t]
  {
    var out := Select(ts, ShownBy(term, f));
    assert forall i :: 0 <= i < |out| ==> out[i] in out;
    out
  }

  /** With the 'All' tab and an empty search box every task is visible. */
  lemma VisibleAllEmptySearch(ts: seq<Task>)
    ensures Visible(ts, "", All) == ts
  {
    forall i | 0 <= i < |ts| ensures ShownBy("", All)(ts[i]) {
      IncludesEmpty(Lower(ts[i].text));
    }
    SelectKeepsAll(ts, ShownBy("", All));
  }

  /** For one search term, the 'Completed' and 'Pending' tabs split the
      'All' tab: no task is on both, and together they hold as many tasks. */
  lemma CompletedPendingSplitAll(ts: seq<Task>, term: string)
    ensures forall t :: t in Visible(ts, term, Completed) ==> t !in Visible(ts, term, Pending)
    ensures |Visible(ts, term, Completed)| + |Visible(ts, term, Pending)| == |Visible(ts, term, All)|
  {
    SelectSplit(ts, ShownBy(term, Completed), ShownBy(term, Pending), ShownBy(term, All));
  }

  /** Filtering the visible tasks again with the same search term and tab
      gives the same list. */
  lemma VisibleIdempotent(ts: seq<Task>, term: string, f: Filter)
    ensures Visible(Visible(ts, term, f), term, f) == Visible(ts, term, f)
  {
    SelectIdempotent(ts, ShownBy(term, f));
  }

  /** The search ignores the case of the term: searching for its
      lower-cased form shows the same tasks. */
  lemma SearchIgnoresCase(ts: seq<Task>, term: string, f: Filter)
    ensures Visible(ts, Lower(term), f) == Visible(ts, term, f)
  {
    LowerIsLower(term);
    SelectCongruent(ts, ShownBy(Lower(term), f), ShownBy(term, f));
  }

  /** After a delete, the visible list is the old visible list without the
      deleted id, whatever the search term and tab. */
  lemma VisibleAfterDelete(ts: seq<Task>, term: string, f: Filter, id: string)
    ensures Visible(RemoveById(ts, id), term, f) == RemoveById(Visible(ts, term, f), id)
  {
    SelectCommute(ts, OtherId(id), ShownBy(term, f));
  }

  /** `tasks.filter(t => t.completed).length`: the "Done" count. It never
      exceeds the list length, is zero exactly when no task is completed,
      and is the whole length exactly when every task is. */
  function DoneCount(ts: seq<Task>): (n: nat)
    ensures n <= |ts|
    ensures n == 0 <==> forall i :: 0 <= i < |ts| ==> !ts[i].completed
    ensures n == |ts| <==> forall i :: 0 <= i < |ts| ==> ts[i].completed
  {
    var done := Select(ts, IsDone);
    SelectLengthIffAll(ts, IsDone);
    DoneZeroIff(ts);
    |done|
  }

  /** No task is done exactly when no completed task is listed. */
  lemma DoneZeroIff(ts: seq<Task>)
    ensures |Select(ts, IsDone)| == 0 <==> forall i :: 0 <= i < |ts| ==> !ts[i].completed
  {
    var done := Select(ts, IsDone);
    if |done| == 0 {
      forall i | 0 <= i < |ts| ensures !ts[i].completed {
        assert ts[i] in ts;
      }
    } else {
      assert done[0] in done;
    }
  }

  predicate IsDone(t: Task)
  {
    t.completed
  }

  /** The header's two figures. */
  datatype HeaderStats = HeaderStats(total: nat, done: nat)

  /** The header: "Total" counts the whole list, "Done" its completed
      tasks, both ignoring the search term and the tab. */
  function Header(ts: seq<Task>): (h: HeaderStats)
    ensures h.done <= h.total
    ensures h.total == |Visible(ts, "", All)|
    ensures h.done == |Visible(ts, "", Completed)|
  {
    VisibleAllEmptySearch(ts);
    DoneIsCompletedTab(ts);
    HeaderStats(|ts|, DoneCount(ts))
  }

  /** The "Done" count is the length of the 'Completed' tab with an empty
      search box. */
  lemma DoneIsCompletedTab(ts: seq<Task>)
    ensures DoneCount(ts) == |Visible(ts, "", Completed)|
  {
    forall i | 0 <= i < |ts| ensures IsDone(ts[i]) == ShownBy("", Completed)(ts[i]) {
      IncludesEmpty(Lower(ts[i].text));
    }
    SelectCongruent(ts, IsDone, ShownBy("", Completed));
  }

  /** Changing the task at index `k` changes the "Done" count by the
      difference of the two completed flags. */
  lemma DoneCountUpdate(ts: seq<Task>, k: nat, v: Task)
    requires k < |ts|
    ensures DoneCount(ts[k := v]) ==
      DoneCount(ts) - (if ts[k].completed then 1 else 0) + (if v.completed then 1 else 0)
  {
    SelectUpdate(ts, k, v, IsDone);
  }

  /** A successful toggle answered with the flipped task moves the "Done"
      count by exactly one, up or down, in a list with unique ids. */
  lemma ToggleMovesDoneByOne(ts: seq<Task>, k: nat, r: Task)
    requires UniqueIds(ts)
    requires k < |ts|
    requires r == ts[k].(completed := !ts[k].completed)
    ensures DoneCount(ReplaceById(ts, ts[k].id, r)) ==
      if r.completed then DoneCount(ts) + 1 else DoneCount(ts) - 1
  {
    ToggleFlipsOne(ts, k, r);
    DoneCountUpdate(ts, k, r);
  }

  /** The scenario of a single pending task "Buy milk" under the
      'Completed' tab: nothing is visible. */
  lemma PendingTaskHiddenUnderCompleted(id: string)
    ensures Visible([Task(id, "Buy milk", Low, false, None)], "", Completed) == []
  {
  }

  /** The scenario of searching "MILK" among "Buy milk" and "Walk dog":
      only "Buy milk" is visible. */
  lemma SearchMilkScenario(a: Task, b: Task)
    requires a.text == "Buy milk" && b.text == "Walk dog"
    ensures Visible([a, b], "MILK", All) == [a]
  {
    MilkFound(a);
    MilkNotFound(b);
    assert [a, b][1..] == [b];
  }

  lemma MilkFound(a: Task)
    requires a.text == "Buy milk"
    ensures MatchesSearch(a, "MILK")
  {
    var text, term := Lower(a.text), Lower("MILK");
    assert text[4..8] == term by {
      assert |text| == 8 && |term| == 4;
      forall i | 0 <= i < 4 ensures text[4 + i] == term[i] {
        assert text[4 + i] == LowerChar(a.text[4 + i]);
        assert term[i] == LowerChar("MILK"[i]);
      }
    }
    assert OccursAt(text, term, 4);
    IncludesIffOccurs(text, term);
  }

  lemma MilkNotFound(b: Task)
    requires b.text == "Walk dog"
    ensures !MatchesSearch(b, "MILK")
  {
    var text, term := Lower(b.text), Lower("MILK");
    assert term[0] == 'm';
    assert 'm' !in text by {
      forall i | 0 <= i < |text| ensures text[i] != 'm' {
        assert text[i] == LowerChar(b.text[i]);
      }
    }
    IncludesFirstChar(text, term);
  }
}
