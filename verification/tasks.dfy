/** A task record, its completion toggle, and the two sections ("未完成",
    uncompleted, and "已完成", completed) into which the main pane splits
    the current category's list. */
module Tasks {

  datatype Option<T> = None | Some(value: T)

  /** One task record. `created` is `created_date`; `completedAt` is
      `completed_date`, with `None` for JSON null. Timestamps are opaque
      "YYYY-MM-DD HH:MM" strings supplied by the caller. */
  datatype Task = Task(text: string, completed: bool, created: string, completedAt: Option<string>)

  /** A task carries a completion date exactly when it is completed. */
  predicate Consistent(t: Task)
  {
    t.completed <==> t.completedAt.Some?
  }

  predicate AllConsistent(ts: seq<Task>)
  {
    forall t :: t in ts ==> Consistent(t)
  }

  /** The record `add_task` appends: not completed, no completion date. */
  function NewTask(text: string, now: string): Task
  {
    Task(text, false, now, None)
  }

  /** `toggle_task` on one record: completion flips, and the completion
      date is stamped with `now` on completion and cleared otherwise. */
  function Toggle(t: Task, now: string): (r: Task)
    ensures r.completed == !t.completed
    ensures Consistent(r)
    ensures r.text == t.text && r.created == t.created
    ensures r.completed ==> r.completedAt == Some(now)
  {
    if t.completed then t.(completed := false, completedAt := None)
    else t.(completed := true, completedAt := Some(now))
  }

  /** Toggling twice restores the completion flag; the completion date is
      then absent for a task that started uncompleted and carries the second
      timestamp for one that started completed. An uncompleted consistent
      task comes back unchanged. */
  lemma ToggleTwice(t: Task, first: string, second: string)
    ensures Toggle(Toggle(t, first), second).completed == t.completed
    ensures Toggle(Toggle(t, first), second).completedAt
            == (if t.completed then Some(second) else None)
    ensures Consistent(t) && !t.completed ==> Toggle(Toggle(t, first), second) == t
  {
  }

  /** The section of `ts` whose completion flag is `done`, in list order:
      `[t for t in tasks if t["completed"]]` and its negation. */
  function Section(ts: seq<Task>, done: bool): (r: seq<Task>)
    ensures |r| <= |ts|
    ensures forall k :: 0 <= k < |r| ==> r[k].completed == done
  {
    if ts == [] then []
    else
      var rest := Section(ts[1..], done);
      if ts[0].completed == done then [ts[0]] + rest else rest
  }

  /** A section holds exactly the tasks of the list with that flag. */
  lemma {:induction false} SectionMembers(ts: seq<Task>, done: bool)
    ensures forall t :: t in Section(ts, done) <==> t in ts && t.completed == done
  {
    if ts != [] {
      SectionMembers(ts[1..], done);
      assert forall t :: t in ts <==> t == ts[0] || t in ts[1..];
    }
  }

  /** Sections are taken piecewise, so a section keeps the list's order. */
  lemma {:induction false} SectionAppend(a: seq<Task>, b: seq<Task>, done: bool)
    ensures Section(a + b, done) == Section(a, done) + Section(b, done)
  {
    if a == [] {
      assert a + b == b;
    } else {
      var ab := a + b;
      assert ab[0] == a[0] && ab[1..] == a[1..] + b;
      SectionAppend(a[1..], b, done);
      var head := if a[0].completed == done then [a[0]] else [];
      var x, y := Section(a[1..], done), Section(b, done);
      calc {
        Section(ab, done);
        head + Section(a[1..] + b, done);
        head + (x + y);
        (head + x) + y;
        Section(a, done) + y;
      }
    }
  }

  /** A list whose tasks all have flag `done` is its own section. */
  lemma {:induction false} SectionOfUniform(ts: seq<Task>, done: bool)
    requires forall t :: t in ts ==> t.completed == done
    ensures Section(ts, done) == ts
    ensures Section(ts, !done) == []
  {
    if ts != [] {
      SectionOfUniform(ts[1..], done);
    }
  }

  /** Taking a section twice changes nothing. */
  lemma SectionIdempotent(ts: seq<Task>, done: bool)
    ensures Section(Section(ts, done), done) == Section(ts, done)
  {
    SectionOfUniform(Section(ts, done), done);
  }

  /** The two sections split the list: together they hold exactly its tasks,
      so their lengths add up to the list's. */
  lemma {:induction false} Partition(ts: seq<Task>)
    ensures multiset(Section(ts, true)) + multiset(Section(ts, false)) == multiset(ts)
    ensures |Section(ts, true)| + |Section(ts, false)| == |ts|
  {
    if ts != [] {
      Partition(ts[1..]);
      assert ts == [ts[0]] + ts[1..];
    }
  }

  /** The pair `update_category_list` shows as "(completed/total)". */
  function Tally(ts: seq<Task>): (r: (nat, nat))
    ensures r.0 <= r.1 == |ts|
    ensures r.0 + |Section(ts, false)| == |ts|
  {
    Partition(ts);
    (|Section(ts, true)|, |ts|)
  }

  /** Python's `list.index`: the first position holding a record equal to `t`. */
  function IndexOf(ts: seq<Task>, t: Task): (i: nat)
    requires t in ts
    ensures i < |ts| && ts[i] == t
    ensures forall k :: 0 <= k < i ==> ts[k] != t
  {
    if ts[0] == t then 0 else 1 + IndexOf(ts[1..], t)
  }

  /** `get_task_index`: maps position `k` of a section back to a position of
      the whole list holding that very record, and so a task of the same
      completion state. */
  function TaskIndex(ts: seq<Task>, k: nat, done: bool): (i: nat)
    requires k < |Section(ts, done)|
    ensures i < |ts| && ts[i].completed == done
    ensures ts[i] == Section(ts, done)[k]
  {
    SectionMembers(ts, done);
    IndexOf(ts, Section(ts, done)[k])
  }

  predicate Distinct(ts: seq<Task>)
  {
    forall i, j :: 0 <= i < j < |ts| ==> ts[i] != ts[j]
  }

  lemma {:induction false} SectionDistinct(ts: seq<Task>, done: bool)
    requires Distinct(ts)
    ensures Distinct(Section(ts, done))
  {
    if ts != [] {
      SectionDistinct(ts[1..], done);
      SectionMembers(ts[1..], done);
    }
  }

  /** The task at position `i` of the list sits in its section after exactly
      the tasks of that section that come before it in the list. */
  lemma SectionPosition(ts: seq<Task>, i: nat)
    requires i < |ts|
    ensures |Section(ts[..i], ts[i].completed)| < |Section(ts, ts[i].completed)|
    ensures Section(ts, ts[i].completed)[|Section(ts[..i], ts[i].completed)|] == ts[i]
  {
    var done := ts[i].completed;
    assert ts == ts[..i] + ([ts[i]] + ts[i + 1..]);
    SectionAppend(ts[..i], [ts[i]] + ts[i + 1..], done);
    SectionAppend([ts[i]], ts[i + 1..], done);
    assert Section([ts[i]], done) == [ts[i]] by {
      assert [ts[i]][1..] == [];
    }
  }

  /** Two tasks of the same state keep their relative order in their section. */
  lemma SectionKeepsOrder(ts: seq<Task>, j1: nat, j2: nat, done: bool) returns (k1: nat, k2: nat)
    requires j1 < j2 < |ts|
    requires ts[j1].completed == done && ts[j2].completed == done
    ensures k1 < k2 < |Section(ts, done)|
    ensures Section(ts, done)[k1] == ts[j1] && Section(ts, done)[k2] == ts[j2]
  {
    SectionPosition(ts, j1);
    SectionPosition(ts, j2);
    k1, k2 := |Section(ts[..j1], done)|, |Section(ts[..j2], done)|;
    SectionGrows(ts, j1, j2, done);
  }

  lemma SectionGrows(ts: seq<Task>, j1: nat, j2: nat, done: bool)
    requires j1 < j2 <= |ts| && ts[j1].completed == done
    ensures |Section(ts[..j1], done)| < |Section(ts[..j2], done)|
  {
    var mid := ts[j1..j2];
    assert ts[..j2] == ts[..j1] + mid;
    SectionAppend(ts[..j1], mid, done);
    assert mid[0] == ts[j1];
    assert Section(mid, done) == [mid[0]] + Section(mid[1..], done);
  }

  /** When no two records are equal, `get_task_index` finds the `k`-th task
      of the section: exactly `k` tasks of that section precede it. */
  lemma TaskIndexCountsSection(ts: seq<Task>, k: nat, done: bool)
    requires Distinct(ts)
    requires k < |Section(ts, done)|
    ensures |Section(ts[..TaskIndex(ts, k, done)], done)| == k
  {
    var i := TaskIndex(ts, k, done);
    SectionPosition(ts, i);
    SectionDistinct(ts, done);
  }
}
