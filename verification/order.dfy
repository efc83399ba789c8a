/**
 * The key order used when `sort_keys` is set: `Array.prototype.sort` with
 * no comparator, i.e. strings compared character by character, a proper
 * prefix first.
 */
module Order {

  /** `a` sorts no later than `b`. */
  predicate LexLeq(a: string, b: string)
    decreases |a|
  {
    |a| == 0 || (|b| > 0 && (a[0] < b[0] || (a[0] == b[0] && LexLeq(a[1..], b[1..]))))
  }

  lemma {:induction false} LexLeqRefl(a: string)
    ensures LexLeq(a, a)
    decreases |a|
  {
    if |a| > 0 { LexLeqRefl(a[1..]); }
  }

  lemma {:induction false} LexLeqAntisym(a: string, b: string)
    requires LexLeq(a, b) && LexLeq(b, a)
    ensures a == b
    decreases |a|
  {
    if |a| > 0 {
      LexLeqAntisym(a[1..], b[1..]);
      assert a == [a[0]] + a[1..] && b == [b[0]] + b[1..];
    }
  }

  lemma {:induction false} LexLeqTrans(a: string, b: string, c: string)
    requires LexLeq(a, b) && LexLeq(b, c)
    ensures LexLeq(a, c)
    decreases |a|
  {
    if |a| > 0 && a[0] == b[0] && b[0] == c[0] {
      LexLeqTrans(a[1..], b[1..], c[1..]);
    }
  }

  lemma {:induction false} LexLeqTotal(a: string, b: string)
    ensures LexLeq(a, b) || LexLeq(b, a)
    decreases |a|
  {
    if |a| > 0 && |b| > 0 && a[0] == b[0] {
      LexLeqTotal(a[1..], b[1..]);
    }
  }

  /** Each key no later than the next. */
  predicate Sorted(s: seq<string>)
  {
    forall k :: 0 < k < |s| ==> LexLeq(s[k - 1], s[k])
  }

  lemma SortedTail(s: seq<string>)
    requires Sorted(s) && |s| > 0
    ensures Sorted(s[1..])
  {
    var t := s[1..];
    forall k | 0 < k < |t| ensures LexLeq(t[k - 1], t[k]) {
      assert t[k - 1] == s[k] && t[k] == s[k + 1];
    }
  }

  lemma {:induction false} SortedHeadFirst(s: seq<string>, k: nat)
    requires Sorted(s) && k < |s|
    ensures LexLeq(s[0], s[k])
    decreases k
  {
    if k == 0 {
      LexLeqRefl(s[0]);
    } else {
      SortedHeadFirst(s, k - 1);
      LexLeqTrans(s[0], s[k - 1], s[k]);
    }
  }

  /** Two sorted arrangements of the same keys are the same sequence, so
      any sorting procedure yields `SortStrings` of its input. */
  lemma {:induction false} SortedUnique(x: seq<string>, y: seq<string>)
    requires Sorted(x) && Sorted(y) && multiset(x) == multiset(y)
    ensures x == y
    decreases |x|
  {
    if |x| == 0 {
      assert |multiset(y)| == 0;
    } else {
      SameHead(x, y);
      SortedTail(x);
      SortedTail(y);
      SortedUnique(x[1..], y[1..]);
      assert x == [x[0]] + x[1..] && y == [y[0]] + y[1..];
    }
  }

  /** Two sorted arrangements of the same keys start with the same key,
      and the rest are again arrangements of the same keys. */
  lemma SameHead(x: seq<string>, y: seq<string>)
    requires Sorted(x) && Sorted(y) && multiset(x) == multiset(y) && |x| > 0
    ensures |y| > 0 && x[0] == y[0]
    ensures multiset(x[1..]) == multiset(y[1..])
  {
    assert x[0] in multiset(y);
    var j :| 0 <= j < |y| && y[j] == x[0];
    SortedHeadFirst(y, j);
    assert y[0] in multiset(x);
    var i :| 0 <= i < |x| && x[i] == y[0];
    SortedHeadFirst(x, i);
    LexLeqAntisym(x[0], y[0]);
    SplitHead(x);
    SplitHead(y);
  }

  lemma SplitHead(x: seq<string>)
    requires |x| > 0
    ensures multiset(x[1..]) == multiset(x) - multiset{x[0]}
  {
    assert x == [x[0]] + x[1..];
    assert multiset(x) == multiset{x[0]} + multiset(x[1..]);
  }

  /** Puts `x` before the first key it sorts no later than. */
  function Insert(x: string, s: seq<string>): seq<string>
  {
    if s == [] then [x]
    else if LexLeq(x, s[0]) then [x] + s
    else [s[0]] + Insert(x, s[1..])
  }

  /** Insertion sort: the reference definition of the sorted key order. */
  function SortStrings(s: seq<string>): seq<string>
  {
    if s == [] then [] else Insert(s[0], SortStrings(s[1..]))
  }

  lemma {:induction false} InsertKeeps(x: string, s: seq<string>)
    ensures multiset(Insert(x, s)) == multiset(s) + multiset{x}
    ensures |Insert(x, s)| > 0 && (Insert(x, s)[0] == x || (|s| > 0 && Insert(x, s)[0] == s[0]))
    decreases |s|
  {
    if s != [] && !LexLeq(x, s[0]) {
      InsertKeeps(x, s[1..]);
      assert s == [s[0]] + s[1..];
    }
  }

  lemma {:induction false} InsertSorted(x: string, s: seq<string>)
    requires Sorted(s)
    ensures Sorted(Insert(x, s))
    decreases |s|
  {
    if s == [] {
    } else if LexLeq(x, s[0]) {
      var r := [x] + s;
      forall k | 0 < k < |r| ensures LexLeq(r[k - 1], r[k]) {
        if k > 1 { assert r[k - 1] == s[k - 2] && r[k] == s[k - 1]; }
      }
    } else {
      var t := s[1..];
      SortedTail(s);
      InsertSorted(x, t);
      InsertKeeps(x, t);
      LexLeqTotal(x, s[0]);
      var ins := Insert(x, t);
      assert LexLeq(s[0], ins[0]) by {
        if ins[0] != x { assert |t| > 0 && ins[0] == t[0] == s[1]; }
      }
      var r := [s[0]] + ins;
      forall k | 0 < k < |r| ensures LexLeq(r[k - 1], r[k]) {
        if k > 1 { assert r[k - 1] == ins[k - 2] && r[k] == ins[k - 1]; }
      }
    }
  }

  /** `SortStrings` orders the keys and keeps every one of them. */
  lemma {:induction false} SortStringsSorted(s: seq<string>)
    ensures Sorted(SortStrings(s))
    ensures multiset(SortStrings(s)) == multiset(s)
    decreases |s|
  {
    if s != [] {
      SortStringsSorted(s[1..]);
      InsertSorted(s[0], SortStrings(s[1..]));
      InsertKeeps(s[0], SortStrings(s[1..]));
      assert s == [s[0]] + s[1..];
    }
  }

  /** No key occurs twice. */
  predicate Distinct(s: seq<string>)
  {
    forall i, j :: 0 <= i < j < |s| ==> s[i] != s[j]
  }

  lemma {:induction false} DistinctAtMostOnce(s: seq<string>, x: string)
    requires Distinct(s)
    ensures multiset(s)[x] <= 1
    decreases |s|
  {
    if s != [] {
      assert Distinct(s[1..]) by {
        forall i, j | 0 <= i < j < |s[1..]| ensures s[1..][i] != s[1..][j] {
          assert s[1..][i] == s[i + 1] && s[1..][j] == s[j + 1];
        }
      }
      DistinctAtMostOnce(s[1..], x);
      assert s == [s[0]] + s[1..];
      assert multiset(s) == multiset{s[0]} + multiset(s[1..]);
      if x == s[0] {
        assert x !in s[1..] by {
          forall j | 0 <= j < |s[1..]| ensures s[1..][j] != x {
            assert s[1..][j] == s[j + 1];
          }
        }
      }
    }
  }

  lemma TwiceCounted(s: seq<string>, i: nat, j: nat)
    requires i < j < |s| && s[i] == s[j]
    ensures multiset(s)[s[i]] >= 2
  {
    var front := s[..j];
    assert s == front + [s[j]] + s[j + 1..];
    assert front[i] == s[i];
    assert s[i] in multiset(front);
    assert multiset(s) == multiset(front) + multiset{s[j]} + multiset(s[j + 1..]);
  }

  /** A permutation of keys that occur once each has every key once. */
  lemma PermutationKeepsDistinct(a: seq<string>, b: seq<string>)
    requires multiset(a) == multiset(b) && Distinct(b)
    ensures Distinct(a)
  {
    forall i, j | 0 <= i < j < |a| ensures a[i] != a[j] {
      if a[i] == a[j] {
        TwiceCounted(a, i, j);
        DistinctAtMostOnce(b, a[i]);
      }
    }
  }

  /** Exchanges the neighbours at `j - 1` and `j`. */
  method SwapDown(a: array<string>, j: int)
    requires 0 < j < a.Length
    modifies a
    ensures a[j - 1] == old(a[j]) && a[j] == old(a[j - 1])
    ensures forall k :: 0 <= k < a.Length && k != j - 1 && k != j ==> a[k] == old(a[k])
    ensures multiset(a[..]) == multiset(old(a[..]))
  {
    ghost var before := a[..];
    a[j - 1], a[j] := a[j], a[j - 1];
    assert a[..] == before[j - 1 := before[j]][j := before[j - 1]];
  }

  /** One pass of the insertion: moves `a[i]` down past the keys that
      sort after it, so that `a[..i + 1]` is in order. */
  method SinkInto(a: array<string>, i: int)
    requires 0 <= i < a.Length
    requires forall k :: 0 < k < i ==> LexLeq(a[k - 1], a[k])
    modifies a
    ensures forall k :: 0 < k <= i ==> LexLeq(a[k - 1], a[k])
    ensures multiset(a[..]) == multiset(old(a[..]))
  {
    var j := i;
    while j > 0 && !LexLeq(a[j - 1], a[j])
      invariant 0 <= j <= i
      invariant forall k :: 0 < k <= i && k != j ==> LexLeq(a[k - 1], a[k])
      invariant 0 < j < i ==> LexLeq(a[j - 1], a[j + 1])
      invariant multiset(a[..]) == multiset(old(a[..]))
    {
      LexLeqTotal(a[j - 1], a[j]);
      SwapDown(a, j);
      j := j - 1;
    }
  }

  /** `keys.sort()`: sorts the array in place. */
  method SortInPlace(a: array<string>)
    modifies a
    ensures Sorted(a[..])
    ensures multiset(a[..]) == multiset(old(a[..]))
  {
    var i := 0;
    while i < a.Length
      invariant 0 <= i <= a.Length
      invariant forall k :: 0 < k < i ==> LexLeq(a[k - 1], a[k])
      invariant multiset(a[..]) == multiset(old(a[..]))
    {
      SinkInto(a, i);
      i := i + 1;
    }
  }
}
