/** Sequence operations shared by the Vec/VecDeque based structures:
    `iter().position(..)` followed by `remove(pos)`, and `retain(..)`. */
module Seqs {
  import opened Optional

  /** No element occurs twice. */
  predicate NoDuplicates<T(==)>(s: seq<T>) {
    forall i, j | 0 <= i < j < |s| :: s[i] != s[j]
  }

  /** Index of the first occurrence of `x` in `s` (Rust's `position`). */
  function IndexOf<T(==)>(s: seq<T>, x: T): (r: Option<nat>)
    ensures r.None? <==> x !in s
    ensures r.Some? ==> r.value < |s| && s[r.value] == x && x !in s[..r.value]
  {
    if |s| == 0 then None
    else if s[0] == x then Some(0)
    else
      match IndexOf(s[1..], x)
      case None => None
      case Some(i) =>
        assert s[1..][..i] == s[1..i + 1];
        assert s[..i + 1] == [s[0]] + s[1..i + 1];
        Some(i + 1)
  }

  /** `Vec::remove(i)`: drops the element at `i` and keeps the order of the rest. */
  function RemoveAt<T>(s: seq<T>, i: nat): (r: seq<T>)
    requires i < |s|
    ensures |r| == |s| - 1
    ensures forall k | 0 <= k < i :: r[k] == s[k]
    ensures forall k | i <= k < |r| :: r[k] == s[k + 1]
    ensures multiset(r) + multiset{s[i]} == multiset(s)
  {
    assert s == s[..i] + [s[i]] + s[i + 1..];
    s[..i] + s[i + 1..]
  }

  /** Removes the first occurrence of `x`; the flag says whether one was found. */
  function RemoveFirst<T(==)>(s: seq<T>, x: T): (r: (seq<T>, bool))
    ensures r.1 <==> x in s
    ensures !r.1 ==> r.0 == s
    ensures r.1 ==> |r.0| == |s| - 1 && multiset(r.0) + multiset{x} == multiset(s)
    ensures r.1 ==> exists i | 0 <= i < |s| :: s[i] == x && x !in s[..i] && r.0 == s[..i] + s[i + 1..]
  {
    match IndexOf(s, x)
    case None => (s, false)
    case Some(i) =>
      assert s[..i] + s[i + 1..] == RemoveAt(s, i);
      (RemoveAt(s, i), true)
  }

  /** On a duplicate-free sequence, removing the first occurrence removes every occurrence
      and keeps the sequence duplicate-free. */
  lemma RemoveFirstNoDuplicates<T>(s: seq<T>, x: T)
    requires NoDuplicates(s)
    ensures x !in RemoveFirst(s, x).0
    ensures NoDuplicates(RemoveFirst(s, x).0)
    ensures forall y :: y in RemoveFirst(s, x).0 <==> y in s && y != x
  {
    var (r, found) := RemoveFirst(s, x);
    if found {
      var i := IndexOf(s, x).value;
      forall y
        ensures y in r <==> y in s && y != x
      {
        if y in r {
          var k :| 0 <= k < |r| && r[k] == y;
          if k < i { assert s[k] == y && k != i; } else { assert s[k + 1] == y && k + 1 != i; }
        }
        if y in s && y != x {
          var k :| 0 <= k < |s| && s[k] == y;
          if k < i { assert r[k] == y; } else { assert k != i; assert r[k - 1] == y; }
        }
      }
      forall a, b | 0 <= a < b < |r|
        ensures r[a] != r[b]
      {
        var a' := if a < i then a else a + 1;
        var b' := if b < i then b else b + 1;
        assert r[a] == s[a'] && r[b] == s[b'] && a' < b';
      }
    }
  }

  /** `VecDeque::retain(|p| p != x)`: drops every occurrence of `x`, keeps the order of the rest. */
  function RemoveAll<T(==)>(s: seq<T>, x: T): (r: seq<T>)
    ensures x !in r
    ensures multiset(r) == multiset(s)[x := 0]
    ensures |r| <= |s|
    ensures x !in s ==> r == s
  {
    if |s| == 0 then []
    else
      var rest := RemoveAll(s[1..], x);
      assert s == [s[0]] + s[1..];
      if s[0] == x then rest else [s[0]] + rest
  }

  /** `retain` works element by element: filtering a concatenation filters each part, and a
      single element survives exactly when it differs from `x`. So the survivors keep their
      original relative order. */
  lemma {:induction false} RemoveAllConcat<T>(a: seq<T>, b: seq<T>, x: T)
    ensures RemoveAll(a + b, x) == RemoveAll(a, x) + RemoveAll(b, x)
    ensures |a| == 1 ==> RemoveAll(a, x) == if a[0] == x then [] else a
    decreases |a|
  {
    if |a| == 0 {
      assert a + b == b;
    } else {
      assert (a + b)[1..] == a[1..] + b;
      assert (a + b)[0] == a[0];
      RemoveAllConcat(a[1..], b, x);
      if |a| == 1 {
        assert a[1..] == [];
      }
    }
  }
}
