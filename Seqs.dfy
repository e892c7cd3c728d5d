/** Sequence operations behind the array pipelines of the scorer and the job
    board: JavaScript's `filter`, `slice(0, n)` and `indexOf`, and the
    "keep the first occurrence" de-duplication idiom built from them. */
module Seqs {

  datatype Option<T> = None | Some(value: T)

  /** `s.filter(keep)`: the elements that pass, in their original order. */
  function Filter<T(==)>(s: seq<T>, keep: T -> bool): (r: seq<T>)
    ensures |r| <= |s|
    ensures forall x | x in r :: x in s && keep(x)
    ensures forall x | x in s && keep(x) :: x in r
  {
    if s == [] then [] else (if keep(s[0]) then [s[0]] else []) + Filter(s[1..], keep)
  }

  /** The elements that fail `keep`, in their original order. */
  function Reject<T(==)>(s: seq<T>, keep: T -> bool): (r: seq<T>)
    ensures |r| <= |s|
    ensures forall x | x in r :: x in s && !keep(x)
    ensures forall x | x in s && !keep(x) :: x in r
  {
    if s == [] then [] else (if keep(s[0]) then [] else [s[0]]) + Reject(s[1..], keep)
  }

  /** `s.slice(0, n)`. */
  function Take<T>(s: seq<T>, n: nat): (r: seq<T>)
    ensures |r| == if |s| <= n then |s| else n
    ensures r <= s
  {
    if |s| <= n then s else s[..n]
  }

  function Min(a: int, b: int): int { if a <= b then a else b }

  function Max(a: int, b: int): int { if a >= b then a else b }

  /** `s.indexOf(x)`: the first position holding `x`, or -1. */
  function IndexOf<T(==)>(s: seq<T>, x: T): (i: int)
    ensures -1 <= i < |s|
    ensures i < 0 <==> x !in s
    ensures 0 <= i ==> s[i] == x && x !in s[..i]
  {
    if s == [] then -1
    else if s[0] == x then 0
    else
      var j := IndexOf(s[1..], x);
      assert j >= 0 ==> s[..j + 1] == [s[0]] + s[1..][..j];
      if j < 0 then -1 else j + 1
  }

  predicate NoDuplicates<T(==)>(s: seq<T>) {
    forall i, j | 0 <= i < j < |s| :: s[i] != s[j]
  }

  /** Reference de-duplication: walking left to right, an element is kept
      exactly when it has not been seen before. */
  function Dedup<T(==)>(s: seq<T>): (r: seq<T>)
    ensures NoDuplicates(r)
    ensures forall x | x in r :: x in s
    ensures forall x | x in s :: x in r
  {
    if s == [] then []
    else
      var init := s[..|s| - 1];
      assert s == init + [s[|s| - 1]];
      Dedup(init) + (if s[|s| - 1] in init then [] else [s[|s| - 1]])
  }

  /** `arr.filter((x, index, arr) => arr.indexOf(x) === index)` restricted to
      the first `k` positions. */
  function KeepFirstUpTo<T(==)>(arr: seq<T>, k: nat): seq<T>
    requires k <= |arr|
  {
    if k == 0 then []
    else KeepFirstUpTo(arr, k - 1) + (if IndexOf(arr, arr[k - 1]) == k - 1 then [arr[k - 1]] else [])
  }

  /** `arr.filter((x, index, arr) => arr.indexOf(x) === index)`. */
  function KeepFirst<T(==)>(arr: seq<T>): seq<T> {
    KeepFirstUpTo(arr, |arr|)
  }

  /** The predicate "is not an element of `a`", as a first-class value. */
  function Absent<T(==)>(a: seq<T>): T -> bool {
    x => x !in a
  }

  /** `r` can be obtained from `s` by deleting elements. */
  ghost predicate IsSubsequence<T>(r: seq<T>, s: seq<T>)
    decreases |s|
  {
    r == [] ||
    (s != [] && ((r[0] == s[0] && IsSubsequence(r[1..], s[1..])) || IsSubsequence(r, s[1..])))
  }

  lemma {:induction false} FilterAppend<T>(s: seq<T>, t: seq<T>, keep: T -> bool)
    ensures Filter(s + t, keep) == Filter(s, keep) + Filter(t, keep)
  {
    if s == [] {
      assert s + t == t;
    } else {
      assert (s + t)[1..] == s[1..] + t;
      FilterAppend(s[1..], t, keep);
    }
  }

  lemma {:induction false} RejectAppend<T>(s: seq<T>, t: seq<T>, keep: T -> bool)
    ensures Reject(s + t, keep) == Reject(s, keep) + Reject(t, keep)
  {
    if s == [] {
      assert s + t == t;
    } else {
      assert (s + t)[1..] == s[1..] + t;
      RejectAppend(s[1..], t, keep);
    }
  }

  /** Every element lands in exactly one of `Filter` and `Reject`. */
  lemma {:induction false} FilterRejectPartition<T>(s: seq<T>, keep: T -> bool)
    ensures |Filter(s, keep)| + |Reject(s, keep)| == |s|
    ensures multiset(Filter(s, keep)) + multiset(Reject(s, keep)) == multiset(s)
  {
    if s != [] {
      FilterRejectPartition(s[1..], keep);
      assert s == [s[0]] + s[1..];
    }
  }

  /** A filter that every element passes changes nothing. */
  lemma {:induction false} FilterKeepsAll<T>(s: seq<T>, keep: T -> bool)
    requires forall x | x in s :: keep(x)
    ensures Filter(s, keep) == s
  {
    if s != [] {
      FilterKeepsAll(s[1..], keep);
      assert s == [s[0]] + s[1..];
    }
  }

  /** Filters that agree on every element keep the same elements. */
  lemma {:induction false} FilterAgree<T>(s: seq<T>, keep: T -> bool, keep': T -> bool)
    requires forall x | x in s :: keep(x) == keep'(x)
    ensures Filter(s, keep) == Filter(s, keep')
  {
    if s != [] {
      FilterAgree(s[1..], keep, keep');
    }
  }

  /** A filter keeps the original order. */
  lemma {:induction false} FilterIsSubsequence<T>(s: seq<T>, keep: T -> bool)
    ensures IsSubsequence(Filter(s, keep), s)
    decreases |s|
  {
    if s != [] {
      FilterIsSubsequence(s[1..], keep);
      var r := Filter(s, keep);
      if keep(s[0]) {
        assert r[0] == s[0] && r[1..] == Filter(s[1..], keep);
      } else {
        assert r == Filter(s[1..], keep);
      }
    }
  }

  /** `Reject` keeps the original order too. */
  lemma {:induction false} RejectIsSubsequence<T>(s: seq<T>, keep: T -> bool)
    ensures IsSubsequence(Reject(s, keep), s)
    decreases |s|
  {
    if s != [] {
      RejectIsSubsequence(s[1..], keep);
      var r := Reject(s, keep);
      if !keep(s[0]) {
        assert r[0] == s[0] && r[1..] == Reject(s[1..], keep);
      } else {
        assert r == Reject(s[1..], keep);
      }
    }
  }

  /** One step of `Dedup`, read from the right. */
  lemma DedupSnoc<T>(s: seq<T>, y: T)
    ensures Dedup(s + [y]) == Dedup(s) + (if y in s then [] else [y])
  {
    assert (s + [y])[..|s + [y]| - 1] == s;
  }

  /** First-occurrence order: de-duplicating `a + b` lists the distinct
      elements of `a`, then those of `b` that `a` does not already have. */
  lemma {:induction false} DedupAppend<T>(a: seq<T>, b: seq<T>)
    ensures Dedup(a + b) == Dedup(a) + Filter(Dedup(b), Absent(a))
    decreases |b|
  {
    if b == [] {
      assert a + b == a;
    } else {
      var b', y := b[..|b| - 1], b[|b| - 1];
      assert b == b' + [y];
      assert a + b == (a + b') + [y];
      var tail := if y in b' then [] else [y];
      var kept := if y in a + b' then [] else [y];
      calc {
        Dedup(a + b);
        { DedupSnoc(a + b', y); }
        Dedup(a + b') + kept;
        { DedupAppend(a, b'); }
        Dedup(a) + Filter(Dedup(b'), Absent(a)) + kept;
        { assert Filter(tail, Absent(a)) == kept; }
        Dedup(a) + (Filter(Dedup(b'), Absent(a)) + Filter(tail, Absent(a)));
        { FilterAppend(Dedup(b'), tail, Absent(a)); }
        Dedup(a) + Filter(Dedup(b') + tail, Absent(a));
        { DedupSnoc(b', y); }
        Dedup(a) + Filter(Dedup(b), Absent(a));
      }
    }
  }

  lemma {:induction false} KeepFirstUpToIsDedup<T>(arr: seq<T>, k: nat)
    requires k <= |arr|
    ensures KeepFirstUpTo(arr, k) == Dedup(arr[..k])
  {
    if k > 0 {
      KeepFirstUpToIsDedup(arr, k - 1);
      var x := arr[k - 1];
      assert arr[..k][..k - 1] == arr[..k - 1];
      var i := IndexOf(arr, x);
      if x !in arr[..k - 1] {
        assert arr[..i + 1][i] == x;
        assert arr[..k][k - 1] == x;
      }
    }
  }

  /** What `KeepFirst` of two lists joined keeps: no duplicates, nothing
      from outside them, everything from either. */
  lemma KeepFirstOfAppend<T>(a: seq<T>, b: seq<T>)
    ensures NoDuplicates(KeepFirst(a + b))
    ensures forall x | x in KeepFirst(a + b) :: x in a || x in b
    ensures forall x | x in a :: x in KeepFirst(a + b)
    ensures forall x | x in b :: x in KeepFirst(a + b)
  {
    KeepFirstIsDedup(a + b);
    assert forall x | x in a + b :: x in a || x in b;
    assert forall x | x in a || x in b :: x in a + b;
  }

  /** The `indexOf`-based filter is first-occurrence de-duplication. */
  lemma KeepFirstIsDedup<T>(arr: seq<T>)
    ensures KeepFirst(arr) == Dedup(arr)
  {
    KeepFirstUpToIsDedup(arr, |arr|);
    assert arr[..|arr|] == arr;
  }
}
