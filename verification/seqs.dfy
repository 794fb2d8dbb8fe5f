/** Sequence operations the route-ordering engine uses on Python lists:
    `list.index`, `list.remove`, list comprehensions that filter or map. */
module Seqs {

  /** Strictly increasing; the shape of the `unvisited` list of the solver. */
  ghost predicate Ascending(s: seq<nat>)
  {
    forall i, j :: 0 <= i < j < |s| ==> s[i] < s[j]
  }

  /** No element occurs twice. */
  ghost predicate Distinct<T>(s: seq<T>)
  {
    forall i, j :: 0 <= i < j < |s| ==> s[i] != s[j]
  }

  /** The indices `0, 1, ..., n - 1` in ascending order, as Python's `range` yields them. */
  function Range(n: nat): (r: seq<nat>)
    ensures |r| == n
    ensures forall i :: 0 <= i < n ==> r[i] == i
  {
    seq(n, i => i)
  }

  /** Python's `list.index`: the position of the first occurrence of `x`. */
  function IndexOf<T(==)>(s: seq<T>, x: T): (i: nat)
    requires x in s
    ensures i < |s|
    ensures s[i] == x
    ensures x !in s[..i]
  {
    if s[0] == x then 0 else 1 + IndexOf(s[1..], x)
  }

  /** Python's `list.remove`: drops the first occurrence of `x` and keeps the rest in order. */
  function RemoveFirst<T(==)>(s: seq<T>, x: T): (r: seq<T>)
    requires x in s
    ensures |r| == |s| - 1
    ensures multiset(r) == multiset(s) - multiset{x}
    ensures forall y :: y in s && y != x ==> y in r
    ensures forall y :: y in r ==> y in s
  {
    assert s == [s[0]] + s[1..];
    if s[0] == x then s[1..] else [s[0]] + RemoveFirst(s[1..], x)
  }

  /** `remove` cuts out exactly the first occurrence: everything before it and
      everything after it stays, in order. */
  lemma {:induction false} RemoveFirstSplits<T>(s: seq<T>, x: T, i: nat)
    requires i < |s| && s[i] == x && x !in s[..i]
    ensures RemoveFirst(s, x) == s[..i] + s[i + 1..]
  {
    assert s == s[..i] + s[i..];
    RemoveFirstAppend(s[..i], s[i..], x);
    assert s[i..][1..] == s[i + 1..];
  }

  /** Removing a value absent from the front part removes it from the back. */
  lemma {:induction false} RemoveFirstAppend<T>(a: seq<T>, b: seq<T>, x: T)
    requires x !in a && x in b
    ensures RemoveFirst(a + b, x) == a + RemoveFirst(b, x)
  {
    if |a| == 0 {
      assert a + b == b;
    } else {
      assert (a + b)[1..] == a[1..] + b;
      RemoveFirstAppend(a[1..], b, x);
      assert a == [a[0]] + a[1..];
    }
  }

  /** On a strictly increasing list, `remove` keeps it increasing and the
      removed element is gone altogether. */
  lemma {:induction false} RemoveFirstAscending(s: seq<nat>, x: nat)
    requires x in s && Ascending(s)
    ensures Ascending(RemoveFirst(s, x))
    ensures x !in RemoveFirst(s, x)
  {
    if s[0] == x {
      assert forall k :: 0 <= k < |s| - 1 ==> s[1..][k] == s[k + 1] > x;
    } else {
      RemoveFirstAscending(s[1..], x);
      var r := RemoveFirst(s, x);
      assert r == [s[0]] + RemoveFirst(s[1..], x);
      forall k | 1 <= k < |r|
        ensures s[0] < r[k]
      {
        assert r[k] in s[1..];
      }
    }
  }

  /** The filtering comprehension: every element other than `x`, in order. */
  function RemoveAll<T(==)>(s: seq<T>, x: T): (r: seq<T>)
    ensures x !in r
    ensures multiset(r) == multiset(s)[x := 0]
    ensures |r| == |s| - multiset(s)[x]
  {
    if |s| == 0 then []
    else
      assert s == [s[0]] + s[1..];
      if s[0] == x then RemoveAll(s[1..], x) else [s[0]] + RemoveAll(s[1..], x)
  }

  /** Filtering keeps the relative order: it distributes over concatenation. */
  lemma {:induction false} RemoveAllAppend<T>(a: seq<T>, b: seq<T>, x: T)
    ensures RemoveAll(a + b, x) == RemoveAll(a, x) + RemoveAll(b, x)
  {
    if |a| == 0 {
      assert a + b == b;
    } else {
      assert (a + b)[1..] == a[1..] + b;
      RemoveAllAppend(a[1..], b, x);
    }
  }

  /** Filtering out a value that does not occur changes nothing. */
  lemma {:induction false} RemoveAllAbsent<T>(s: seq<T>, x: T)
    requires x !in s
    ensures RemoveAll(s, x) == s
  {
    if |s| > 0 {
      RemoveAllAbsent(s[1..], x);
      assert s == [s[0]] + s[1..];
    }
  }

  /** The mapping comprehension: the element of `s` at each position listed in `t`. */
  function Reorder<T>(s: seq<T>, t: seq<nat>): (r: seq<T>)
    requires forall k :: 0 <= k < |t| ==> t[k] < |s|
    ensures |r| == |t|
    ensures forall k :: 0 <= k < |t| ==> r[k] == s[t[k]]
  {
    seq(|t|, k requires 0 <= k < |t| => s[t[k]])
  }

  /** The elements of `s` at the positions in `S`, kept in order; the bridge
      used to prove `ReorderPermutes`. */
  ghost function Select<T>(s: seq<T>, S: set<nat>): seq<T>
  {
    if |s| == 0 then []
    else Select(s[..|s| - 1], S) + (if |s| - 1 in S then [s[|s| - 1]] else [])
  }

  /** `Select` looks only at positions below `|s|`. */
  lemma {:induction false} SelectAgrees<T>(s: seq<T>, S: set<nat>, S': set<nat>)
    requires forall i :: 0 <= i < |s| ==> (i in S <==> i in S')
    ensures Select(s, S) == Select(s, S')
  {
    if |s| > 0 {
      SelectAgrees(s[..|s| - 1], S, S');
    }
  }

  /** Selecting every position gives the whole list back. */
  lemma {:induction false} SelectAll<T>(s: seq<T>, S: set<nat>)
    requires forall i :: 0 <= i < |s| ==> i in S
    ensures Select(s, S) == s
  {
    if |s| > 0 {
      SelectAll(s[..|s| - 1], S);
      assert s == s[..|s| - 1] + [s[|s| - 1]];
    }
  }

  /** Dropping one selected position removes exactly that element's copy. */
  lemma {:induction false} SelectRemove<T>(s: seq<T>, S: set<nat>, j: nat)
    requires j < |s| && j in S
    ensures multiset(Select(s, S)) == multiset(Select(s, S - {j})) + multiset{s[j]}
  {
    var p := s[..|s| - 1];
    if j == |s| - 1 {
      SelectAgrees(p, S, S - {j});
    } else {
      SelectRemove(p, S, j);
      assert p[j] == s[j];
    }
  }

  /** Mapping distinct positions gives the selected elements, in some order. */
  lemma {:induction false} ReorderSelect<T>(s: seq<T>, t: seq<nat>)
    requires forall k :: 0 <= k < |t| ==> t[k] < |s|
    requires Distinct(t)
    ensures multiset(Reorder(s, t)) == multiset(Select(s, set k | 0 <= k < |t| :: t[k]))
  {
    var S := set k | 0 <= k < |t| :: t[k];
    if |t| == 0 {
      assert S == {};
      SelectAgrees(s, S, {});
      EmptySelect(s);
    } else {
      var t0 := t[..|t| - 1];
      var j := t[|t| - 1];
      var S0 := set k | 0 <= k < |t0| :: t0[k];
      ReorderSelect(s, t0);
      assert Reorder(s, t) == Reorder(s, t0) + [s[j]];
      assert S0 == S - {j} by {
        forall y | y in S0 ensures y in S && y != j {
          var k :| 0 <= k < |t0| && t0[k] == y;
          assert t[k] == y;
        }
        forall y | y in S && y != j ensures y in S0 {
          var k :| 0 <= k < |t| && t[k] == y;
          assert t0[k] == y;
        }
      }
      assert j in S;
      SelectRemove(s, S, j);
    }
  }

  /** Selecting no position gives the empty list. */
  lemma {:induction false} EmptySelect<T>(s: seq<T>)
    ensures Select(s, {}) == []
  {
    if |s| > 0 {
      EmptySelect(s[..|s| - 1]);
    }
  }

  /** Reordering a list by a permutation of its positions keeps every element
      with its multiplicity, duplicates included. */
  lemma ReorderPermutes<T>(s: seq<T>, t: seq<nat>)
    requires Distinct(t)
    requires forall k :: 0 <= k < |t| ==> t[k] < |s|
    requires forall i :: 0 <= i < |s| ==> i in t
    ensures multiset(Reorder(s, t)) == multiset(s)
  {
    var S := set k | 0 <= k < |t| :: t[k];
    ReorderSelect(s, t);
    forall i | 0 <= i < |s| ensures i in S {
      assert i in t;
      var k :| 0 <= k < |t| && t[k] == i;
    }
    SelectAll(s, S);
  }

  /** In a list without repeats every member occurs exactly once. */
  lemma {:induction false} DistinctOccursOnce<T>(s: seq<T>, x: T)
    requires Distinct(s) && x in s
    ensures multiset(s)[x] == 1
  {
    assert s == [s[0]] + s[1..];
    if s[0] == x {
      assert x !in s[1..];
    } else {
      DistinctOccursOnce(s[1..], x);
    }
  }
}
