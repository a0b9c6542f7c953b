/** The insertion-ordered dict `self.categories`, as a sequence of entries
    with distinct names, and the dict operations the store applies to it:
    lookup, in-place value update, key removal, the pop/insert reorder, and
    `dict.update`. */
module Categories {
  import opened Lists
  import opened Tasks

  /** One dict entry: a category name and its task list. */
  datatype Category = Category(name: string, tasks: seq<Task>)

  /** The dict's keys in iteration order. */
  function Names(cs: seq<Category>): (ns: seq<string>)
    ensures |ns| == |cs|
    ensures forall i :: 0 <= i < |cs| ==> ns[i] == cs[i].name
  {
    seq(|cs|, i requires 0 <= i < |cs| => cs[i].name)
  }

  /** A dict holds each key once. */
  predicate DistinctNames(cs: seq<Category>)
  {
    forall i, j :: 0 <= i < j < |cs| ==> cs[i].name != cs[j].name
  }

  /** Where key `name` sits in iteration order (the first match, as the
      `next(i for i, (cat, _) in enumerate(...) if cat == ...)` idiom finds). */
  function Position(cs: seq<Category>, name: string): (p: nat)
    requires name in Names(cs)
    ensures p < |cs| && cs[p].name == name
    ensures forall k :: 0 <= k < p ==> cs[k].name != name
  {
    if cs[0].name == name then 0
    else
      assert name in Names(cs[1..]) by {
        var k :| 0 <= k < |cs| && Names(cs)[k] == name;
        assert Names(cs[1..])[k - 1] == name;
      }
      1 + Position(cs[1..], name)
  }

  /** In a dict, the entry holding a key is the one `Position` finds. */
  lemma PositionOf(cs: seq<Category>, p: nat)
    requires DistinctNames(cs) && p < |cs|
    ensures cs[p].name in Names(cs) && Position(cs, cs[p].name) == p
  {
    assert Names(cs)[p] == cs[p].name;
  }

  /** `self.categories[name]`. */
  function Get(cs: seq<Category>, name: string): seq<Task>
    requires name in Names(cs)
  {
    cs[Position(cs, name)].tasks
  }

  /** `d[key] = tasks` for a key already present at position `p`: the entry
      keeps its place and its name, and every other entry is untouched. */
  function SetTasks(cs: seq<Category>, p: nat, ts: seq<Task>): (r: seq<Category>)
    requires p < |cs|
    ensures |r| == |cs|
    ensures forall i :: 0 <= i < |cs| ==> r[i].name == cs[i].name
    ensures r[p].tasks == ts
    ensures forall i :: 0 <= i < |cs| && i != p ==> r[i] == cs[i]
  {
    cs[p := Category(cs[p].name, ts)]
  }

  /** Updating a value in place keeps the keys, so keeps a dict a dict. */
  lemma SetTasksKeys(cs: seq<Category>, p: nat, ts: seq<Task>)
    requires p < |cs|
    ensures Names(SetTasks(cs, p, ts)) == Names(cs)
    ensures DistinctNames(cs) ==> DistinctNames(SetTasks(cs, p, ts))
  {
  }

  /** Popping an entry from a dict leaves a dict without that key and with
      every other key. */
  lemma RemoveAtDistinct(cs: seq<Category>, p: nat)
    requires p < |cs| && DistinctNames(cs)
    ensures DistinctNames(RemoveAt(cs, p))
    ensures cs[p].name !in Names(RemoveAt(cs, p))
    ensures forall n :: n in Names(cs) <==> n in Names(RemoveAt(cs, p)) || n == cs[p].name
  {
    var r := RemoveAt(cs, p);
    forall i, j | 0 <= i < j < |r| ensures r[i].name != r[j].name {
      var i' := if i < p then i else i + 1;
      var j' := if j < p then j else j + 1;
      assert r[i] == cs[i'] && r[j] == cs[j'];
    }
    forall n | n in Names(cs) && n != cs[p].name ensures n in Names(r) {
      var k :| 0 <= k < |cs| && Names(cs)[k] == n;
      var k' := if k < p then k else k - 1;
      assert Names(r)[k'] == n;
    }
  }

  /** Inserting an entry under a new key into a dict gives a dict with
      exactly one more key. */
  lemma InsertAtDistinct(cs: seq<Category>, i: nat, c: Category)
    requires DistinctNames(cs) && c.name !in Names(cs)
    ensures DistinctNames(InsertAt(cs, i, c))
    ensures forall n :: n in Names(InsertAt(cs, i, c)) <==> n in Names(cs) || n == c.name
  {
    InsertAtKeys(cs, i, c);
    var r := InsertAt(cs, i, c);
    var m := Min(i, |cs|);
    forall a, b | 0 <= a < b < |r| ensures r[a].name != r[b].name {
      if a == m {
        assert Names(cs)[b - 1] == r[b].name;
      } else if b == m {
        assert Names(cs)[a] == r[a].name;
      } else {
        var a' := if a < m then a else a - 1;
        var b' := if b < m then b else b - 1;
        assert r[a] == cs[a'] && r[b] == cs[b'];
      }
    }
  }

  lemma InsertAtKeys(cs: seq<Category>, i: nat, c: Category)
    ensures forall n :: n in Names(InsertAt(cs, i, c)) <==> n in Names(cs) || n == c.name
  {
    var ns := Names(InsertAt(cs, i, c));
    NamesInsertAt(cs, i, c);
    assert multiset(ns) == multiset(Names(cs)) + multiset{c.name};
    forall n ensures n in ns <==> n in Names(cs) || n == c.name {
      assert n in ns <==> n in multiset(ns);
      assert n in Names(cs) <==> n in multiset(Names(cs));
    }
  }

  /** The keys after an insertion are the old keys with the new one
      inserted at the same place. */
  lemma NamesInsertAt(cs: seq<Category>, i: nat, c: Category)
    ensures Names(InsertAt(cs, i, c)) == InsertAt(Names(cs), i, c.name)
  {
    var a, b := Names(InsertAt(cs, i, c)), InsertAt(Names(cs), i, c.name);
    var m := Min(i, |cs|);
    assert |a| == |b| == |cs| + 1;
    forall k | 0 <= k < |a| ensures a[k] == b[k] {
      if k < m {
        assert a[k] == cs[k].name == Names(cs)[k] == b[k];
      } else if k > m {
        assert a[k] == cs[k - 1].name == Names(cs)[k - 1] == b[k];
      }
    }
  }

  /** The pop-then-insert of the drag-and-drop release handler: the entry at
      `from` is taken out and put back at list index `to`. */
  function Move(cs: seq<Category>, from: nat, to: nat): (r: seq<Category>)
    requires from < |cs|
    ensures |r| == |cs|
    ensures multiset(r) == multiset(cs)
    ensures r[Min(to, |cs| - 1)] == cs[from]
    ensures RemoveAt(r, Min(to, |cs| - 1)) == RemoveAt(cs, from)
  {
    InsertAt(RemoveAt(cs, from), to, cs[from])
  }

  /** A reordered dict is still a dict with the same keys. */
  lemma MoveDistinct(cs: seq<Category>, from: nat, to: nat)
    requires from < |cs| && DistinctNames(cs)
    ensures DistinctNames(Move(cs, from, to))
    ensures forall n :: n in Names(cs) <==> n in Names(Move(cs, from, to))
  {
    RemoveAtDistinct(cs, from);
    InsertAtDistinct(RemoveAt(cs, from), to, cs[from]);
  }

  /** Dragging the entry back from where it landed to where it came from
      restores the original order. */
  lemma MoveBack(cs: seq<Category>, from: nat, to: nat)
    requires from < |cs|
    ensures Move(Move(cs, from, to), Min(to, |cs| - 1), from) == cs
  {
    var r := Move(cs, from, to);
    var m := Min(to, |cs| - 1);
    assert RemoveAt(r, m) == RemoveAt(cs, from);
    InsertRemove(cs, from);
  }

  /** `d[c.name] = c.tasks`: replaces the value in place when the key is
      present, appends a new entry otherwise. */
  function Upsert(cs: seq<Category>, c: Category): (r: seq<Category>)
    requires DistinctNames(cs)
    ensures DistinctNames(r)
    ensures forall n :: n in Names(r) <==> n in Names(cs) || n == c.name
  {
    if c.name in Names(cs) then
      var r := SetTasks(cs, Position(cs, c.name), c.tasks);
      SetTasksKeys(cs, Position(cs, c.name), c.tasks);
      assert forall n :: n in Names(r) <==> n in Names(cs);
      r
    else
      var r := cs + [c];
      assert Names(r) == Names(cs) + [c.name];
      r
  }

  /** `self.categories.update(data)`, applying the entries of `data` in order. */
  function Merge(cs: seq<Category>, data: seq<Category>): (r: seq<Category>)
    requires DistinctNames(cs)
    decreases |data|
    ensures DistinctNames(r)
    ensures |r| >= |cs|
    ensures forall n :: n in Names(r) <==> n in Names(cs) || n in Names(data)
  {
    if data == [] then cs
    else
      assert Names(data) == [data[0].name] + Names(data[1..]);
      Merge(Upsert(cs, data[0]), data[1..])
  }

  /** The entries of `data` whose key `cs` lacks, in order: the ones that
      `dict.update` appends. */
  function Fresh(cs: seq<Category>, data: seq<Category>): (r: seq<Category>)
    ensures forall c :: c in r ==> c in data && c.name !in Names(cs)
  {
    if data == [] then []
    else (if data[0].name in Names(cs) then [] else [data[0]]) + Fresh(cs, data[1..])
  }

  /** Which entries count as fresh depends only on which of their keys are known. */
  lemma {:induction false} FreshSameKeys(cs: seq<Category>, cs': seq<Category>, data: seq<Category>)
    requires forall c :: c in data ==> (c.name in Names(cs) <==> c.name in Names(cs'))
    ensures Fresh(cs, data) == Fresh(cs', data)
  {
    if data != [] {
      assert data[0] in data;
      FreshSameKeys(cs, cs', data[1..]);
    }
  }

  /** What `dict.update` leaves at an old position: the incoming value for
      a key `data` also holds, the old entry otherwise. */
  function Updated(c: Category, data: seq<Category>): Category
  {
    if c.name in Names(data) then Category(c.name, Get(data, c.name)) else c
  }

  /** Looking a key up in `data` or in its tail agrees for every key but the head's. */
  lemma GetTail(data: seq<Category>, n: string)
    requires |data| > 0 && n != data[0].name
    ensures n in Names(data) <==> n in Names(data[1..])
    ensures n in Names(data) ==> Get(data, n) == Get(data[1..], n)
  {
    assert Names(data) == [data[0].name] + Names(data[1..]);
  }

  /** `r` is what `dict.update` promises for `cs` updated with `data`:
      every old key keeps its position and takes the incoming value when
      `data` holds the key, and the keys new to the dict follow, in the
      order `data` lists them. */
  ghost predicate MergeResult(cs: seq<Category>, data: seq<Category>, r: seq<Category>)
  {
    && |r| == |cs| + |Fresh(cs, data)|
    && (forall i :: 0 <= i < |cs| ==> r[i] == Updated(cs[i], data))
    && r[|cs|..] == Fresh(cs, data)
  }

  /** In a dict, the first key does not occur again in the rest. */
  lemma HeadNotInTail(data: seq<Category>)
    requires |data| > 0 && DistinctNames(data)
    ensures DistinctNames(data[1..])
    ensures data[0].name !in Names(data[1..])
    ensures Names(data) == [data[0].name] + Names(data[1..])
  {
  }

  /** One step of `update` for a key the dict already holds. */
  lemma MergeStepKnown(cs: seq<Category>, data: seq<Category>, r: seq<Category>)
    requires DistinctNames(cs) && |data| > 0 && DistinctNames(data)
    requires data[0].name in Names(cs)
    requires MergeResult(Upsert(cs, data[0]), data[1..], r)
    ensures MergeResult(cs, data, r)
  {
    var c, rest := data[0], data[1..];
    var p := Position(cs, c.name);
    var cs' := Upsert(cs, c);
    HeadNotInTail(data);
    assert cs' == SetTasks(cs, p, c.tasks);
    SetTasksKeys(cs, p, c.tasks);
    forall d | d in rest ensures d.name in Names(cs) <==> d.name in Names(cs') {
    }
    FreshSameKeys(cs, cs', rest);
    assert Fresh(cs, data) == Fresh(cs, rest);
    forall i | 0 <= i < |cs| ensures r[i] == Updated(cs[i], data) {
      if i == p {
        assert cs'[p] == c;
        assert c.name !in Names(rest);
        assert Updated(cs'[p], rest) == c;
      } else {
        assert cs'[i] == cs[i];
        GetTail(data, cs[i].name);
      }
    }
  }

  /** One step of `update` for a key new to the dict. */
  lemma MergeStepNew(cs: seq<Category>, data: seq<Category>, r: seq<Category>)
    requires DistinctNames(cs) && |data| > 0 && DistinctNames(data)
    requires data[0].name !in Names(cs)
    requires MergeResult(Upsert(cs, data[0]), data[1..], r)
    ensures MergeResult(cs, data, r)
  {
    var c, rest := data[0], data[1..];
    var cs' := Upsert(cs, c);
    HeadNotInTail(data);
    assert cs' == cs + [c];
    forall d | d in rest ensures d.name in Names(cs) <==> d.name in Names(cs') {
      assert d.name in Names(rest);
    }
    FreshSameKeys(cs, cs', rest);
    assert Fresh(cs, data) == [c] + Fresh(cs, rest);
    assert r[|cs|] == Updated(cs'[|cs|], rest) == c;
    assert r[|cs|..] == [r[|cs|]] + r[|cs'|..];
    forall i | 0 <= i < |cs| ensures r[i] == Updated(cs[i], data) {
      assert cs'[i] == cs[i];
      assert cs[i].name in Names(cs);
      GetTail(data, cs[i].name);
    }
  }

  /** `dict.update` does what `MergeResult` says. */
  lemma {:induction false} MergeSpec(cs: seq<Category>, data: seq<Category>)
    requires DistinctNames(cs) && DistinctNames(data)
    decreases |data|
    ensures MergeResult(cs, data, Merge(cs, data))
  {
    if data == [] {
      assert Merge(cs, data)[|cs|..] == [];
    } else {
      HeadNotInTail(data);
      MergeSpec(Upsert(cs, data[0]), data[1..]);
      if data[0].name in Names(cs) {
        MergeStepKnown(cs, data, Merge(cs, data));
      } else {
        MergeStepNew(cs, data, Merge(cs, data));
      }
    }
  }

  /** Every task of every category, in order. */
  function AllTasks(cs: seq<Category>): seq<Task>
  {
    if cs == [] then [] else cs[0].tasks + AllTasks(cs[1..])
  }

  /** Replacing one category's list replaces exactly its tasks in the
      collection of all tasks. */
  lemma {:induction false} AllTasksSetTasks(cs: seq<Category>, p: nat, ts: seq<Task>)
    requires p < |cs|
    ensures multiset(AllTasks(SetTasks(cs, p, ts))) + multiset(cs[p].tasks)
            == multiset(AllTasks(cs)) + multiset(ts)
  {
    var r := SetTasks(cs, p, ts);
    var tail := AllTasks(cs[1..]);
    var tail' := AllTasks(r[1..]);
    assert AllTasks(cs) == cs[0].tasks + tail;
    assert AllTasks(r) == r[0].tasks + tail';
    if p > 0 {
      assert r[0] == cs[0];
      assert r[1..] == SetTasks(cs[1..], p - 1, ts);
      AllTasksSetTasks(cs[1..], p - 1, ts);
      var head, old_, new_ := multiset(cs[0].tasks), multiset(cs[p].tasks), multiset(ts);
      calc {
        multiset(AllTasks(r)) + old_;
        (head + multiset(tail')) + old_;
        head + (multiset(tail') + old_);
        head + (multiset(tail) + new_);
        (head + multiset(tail)) + new_;
        multiset(AllTasks(cs)) + new_;
      }
    } else {
      assert r[1..] == cs[1..];
    }
  }

  /** `d[a].pop(index)` then `d[b].append(task)`, on the entries at
      positions `p` and `q`; the two may be the same entry. */
  function Transfer(cs: seq<Category>, p: nat, index: nat, q: nat): (r: seq<Category>)
    requires p < |cs| && q < |cs| && index < |cs[p].tasks|
    ensures |r| == |cs|
    ensures forall i :: 0 <= i < |cs| ==> r[i].name == cs[i].name
    ensures Names(r) == Names(cs)
    ensures p != q ==>
      && r[p].tasks == RemoveAt(cs[p].tasks, index)
      && r[q].tasks == cs[q].tasks + [cs[p].tasks[index]]
    ensures p == q ==> r[p].tasks == RemoveAt(cs[p].tasks, index) + [cs[p].tasks[index]]
    ensures forall i :: 0 <= i < |cs| && i != p && i != q ==> r[i] == cs[i]
  {
    var cs1 := SetTasks(cs, p, RemoveAt(cs[p].tasks, index));
    var r := SetTasks(cs1, q, cs1[q].tasks + [cs[p].tasks[index]]);
    assert Names(r) == Names(cs) by {
      assert forall i :: 0 <= i < |cs| ==> Names(r)[i] == cs[i].name;
    }
    r
  }

  /** A transfer neither creates nor loses a task. */
  lemma TransferConserves(cs: seq<Category>, p: nat, index: nat, q: nat)
    requires p < |cs| && q < |cs| && index < |cs[p].tasks|
    ensures multiset(AllTasks(Transfer(cs, p, index, q))) == multiset(AllTasks(cs))
  {
    var t := cs[p].tasks[index];
    var rest := RemoveAt(cs[p].tasks, index);
    var cs1 := SetTasks(cs, p, rest);
    var added := cs1[q].tasks + [t];
    AllTasksSetTasks(cs, p, rest);
    AllTasksSetTasks(cs1, q, added);
    var m, m1, m2 := multiset(AllTasks(cs)), multiset(AllTasks(cs1)), multiset(AllTasks(Transfer(cs, p, index, q)));
    var before, after := multiset(cs[p].tasks), multiset(cs1[q].tasks);
    assert m1 + before == m + multiset(rest);
    assert m2 + after == m1 + multiset(added);
    assert multiset(rest) + multiset{t} == before;
    assert multiset(added) == after + multiset{t};
    Cancel(m2, after, m1, multiset{t});
    assert m1 + multiset(rest) + multiset{t} == m1 + before;
    Cancel(m, multiset(rest), m1, multiset{t});
  }

  /** Popping a task from one list takes exactly that task out of the
      collection of all tasks. */
  lemma RemoveConserves(cs: seq<Category>, p: nat, index: nat)
    requires p < |cs| && index < |cs[p].tasks|
    ensures multiset(AllTasks(SetTasks(cs, p, RemoveAt(cs[p].tasks, index))))
            + multiset{cs[p].tasks[index]} == multiset(AllTasks(cs))
  {
    var ts := cs[p].tasks;
    var rest := RemoveAt(ts, index);
    AllTasksSetTasks(cs, p, rest);
    var m, m1 := multiset(AllTasks(cs)), multiset(AllTasks(SetTasks(cs, p, rest)));
    assert m1 + multiset(rest) + multiset{ts[index]} == m + multiset(rest);
    Cancel(m, multiset(rest), m1, multiset{ts[index]});
  }

  /** A transfer moves a consistent task between consistent lists, so every
      list stays consistent. */
  lemma TransferConsistent(cs: seq<Category>, p: nat, index: nat, q: nat)
    requires p < |cs| && q < |cs| && index < |cs[p].tasks|
    requires forall i :: 0 <= i < |cs| ==> AllConsistent(cs[i].tasks)
    ensures forall i :: 0 <= i < |cs| ==> AllConsistent(Transfer(cs, p, index, q)[i].tasks)
  {
    var r := Transfer(cs, p, index, q);
    var t := cs[p].tasks[index];
    var rest := RemoveAt(cs[p].tasks, index);
    assert Consistent(t) by { assert t in cs[p].tasks; }
    assert AllConsistent(rest) by {
      forall u | u in rest ensures Consistent(u) {
        assert u in multiset(rest);
      }
    }
    forall i | 0 <= i < |cs| ensures AllConsistent(r[i].tasks) {
      if i == p && p == q {
        assert r[i].tasks == rest + [t];
      } else if i == p {
        assert r[i].tasks == rest;
      } else if i == q {
        assert r[i].tasks == cs[q].tasks + [t];
      }
    }
  }

  /** Multiset union cancels: `a + c == b + c + d` gives `a == b + d`. */
  lemma Cancel<T>(a: multiset<T>, c: multiset<T>, b: multiset<T>, d: multiset<T>)
    requires a + c == b + c + d
    ensures a == b + d
  {
    forall x ensures a[x] == (b + d)[x] {
      assert (a + c)[x] == (b + c + d)[x];
    }
  }
}
