/** Sequence facts the model leans on: first occurrence, first-occurrence
    removal (Python's `list.remove`) and duplicate freedom. */
module Seqs {
  import opened Wrappers

  /** The index of the first `x` in `s`, or `|s|` when `x` does not occur. */
  function Find<T(==)>(s: seq<T>, x: T): (i: nat)
    ensures i <= |s|
    ensures i < |s| <==> x in s
    ensures i < |s| ==> s[i] == x
    ensures x !in s[..i]
  {
    if |s| == 0 then 0
    else if s[0] == x then 0
    else
      var j := Find(s[1..], x);
      assert s[..1 + j] == [s[0]] + s[1..][..j];
      1 + j
  }

  /** Python's `s.remove(x)`: drop the first occurrence of `x`; `None` where Python raises `ValueError`. */
  function RemoveFirst<T(==)>(s: seq<T>, x: T): (r: Option<seq<T>>)
    ensures r.None? <==> x !in s
    ensures r.Some? ==> |r.value| == |s| - 1
    ensures r.Some? ==> multiset(r.value) == multiset(s) - multiset{x}
    ensures r.Some? ==> exists i :: 0 <= i < |s| && s[i] == x && x !in s[..i] && r.value == s[..i] + s[i + 1..]
  {
    var i := Find(s, x);
    if i == |s| then None
    else
      assert s == s[..i] + [s[i]] + s[i + 1..];
      Some(s[..i] + s[i + 1..])
  }

  /** No element occurs twice. */
  predicate NoDup<T(==)>(s: seq<T>) {
    forall i, j :: 0 <= i < j < |s| ==> s[i] != s[j]
  }

  /** Appending a new element keeps a duplicate-free sequence duplicate-free. */
  lemma NoDupAppend<T>(s: seq<T>, x: T)
    requires NoDup(s) && x !in s
    ensures NoDup(s + [x])
  {
    forall i, j | 0 <= i < j < |s + [x]| ensures (s + [x])[i] != (s + [x])[j] {
      if j == |s| { assert s[i] in s; }
    }
  }

  /** Removing one occurrence from a duplicate-free sequence removes the element
      entirely and keeps the rest duplicate-free. */
  lemma {:induction false} NoDupRemove<T>(s: seq<T>, x: T)
    requires NoDup(s) && x in s
    ensures RemoveFirst(s, x).Some?
    ensures x !in RemoveFirst(s, x).value
    ensures NoDup(RemoveFirst(s, x).value)
    ensures forall y :: y in RemoveFirst(s, x).value ==> y in s
  {
    var i := Find(s, x);
    var r := s[..i] + s[i + 1..];
    assert RemoveFirst(s, x).value == r;
    forall k | 0 <= k < |r| ensures r[k] != x && r[k] in s {
      if k < i { assert r[k] == s[k]; } else { assert r[k] == s[k + 1]; }
    }
    forall a, b | 0 <= a < b < |r| ensures r[a] != r[b] {
      var a' := if a < i then a else a + 1;
      var b' := if b < i then b else b + 1;
      assert r[a] == s[a'] && r[b] == s[b'];
    }
  }
}
