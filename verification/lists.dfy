/** Python's `list.pop(i)` and `list.insert(i, x)` on sequences, as the
    store uses them on task lists and on the list of category entries. */
module Lists {

  function Min(a: nat, b: nat): nat
  {
    if a <= b then a else b
  }

  /** The list left behind by `pop(i)`. */
  function RemoveAt<T>(s: seq<T>, i: nat): (r: seq<T>)
    requires i < |s|
    ensures |r| == |s| - 1
    ensures forall k :: 0 <= k < i ==> r[k] == s[k]
    ensures forall k :: i <= k < |r| ==> r[k] == s[k + 1]
    ensures multiset(r) + multiset{s[i]} == multiset(s)
  {
    assert s == s[..i] + [s[i]] + s[i + 1..];
    s[..i] + s[i + 1..]
  }

  /** `insert(i, x)`: an index past the end appends, as Python does. */
  function InsertAt<T>(s: seq<T>, i: nat, x: T): (r: seq<T>)
    ensures |r| == |s| + 1
    ensures r[Min(i, |s|)] == x
    ensures forall k :: 0 <= k < Min(i, |s|) ==> r[k] == s[k]
    ensures forall k :: Min(i, |s|) < k < |r| ==> r[k] == s[k - 1]
    ensures RemoveAt(r, Min(i, |s|)) == s
    ensures multiset(r) == multiset(s) + multiset{x}
  {
    if i >= |s| then
      assert (s + [x])[..|s|] == s;
      s + [x]
    else
      var r := s[..i] + [x] + s[i..];
      assert r[..i] == s[..i] && r[i + 1..] == s[i..];
      assert s == s[..i] + s[i..];
      r
  }

  /** Inserting a popped element back where it was restores the list. */
  lemma InsertRemove<T>(s: seq<T>, i: nat)
    requires i < |s|
    ensures InsertAt(RemoveAt(s, i), i, s[i]) == s
  {
    var t := RemoveAt(s, i);
    assert t[..i] == s[..i] && t[i..] == s[i + 1..];
    assert s == s[..i] + [s[i]] + s[i + 1..];
  }
}
