/**
  Key sequences as a node holds them: the two linear scans over a node's
  keys, the array primitives the source uses (`splice` to insert one element,
  `slice` with JavaScript's clamping), and facts about sorted sequences.
 */
module Seqs {

  /** Ascending, equal neighbours allowed: duplicates are kept side by side. */
  predicate Sorted(s: seq<int>)
  {
    forall i, j :: 0 <= i < j < |s| ==> s[i] <= s[j]
  }

  /** Where the search scan stops: the first key that is not less than `k`. */
  function LowerIndex(s: seq<int>, k: int): (i: nat)
    ensures i <= |s|
    ensures forall j :: 0 <= j < i ==> s[j] < k
    ensures i < |s| ==> k <= s[i]
  {
    if s == [] || k <= s[0] then 0 else 1 + LowerIndex(s[1..], k)
  }

  /** Where the insertion scan stops: the first key greater than `k`. */
  function UpperIndex(s: seq<int>, k: int): (i: nat)
    ensures i <= |s|
    ensures forall j :: 0 <= j < i ==> s[j] <= k
    ensures i < |s| ==> k < s[i]
  {
    if s == [] || k < s[0] then 0 else 1 + UpperIndex(s[1..], k)
  }

  /** `s.splice(i, 0, x)`. */
  function InsertAt<T>(s: seq<T>, i: nat, x: T): seq<T>
    requires i <= |s|
  {
    s[..i] + [x] + s[i..]
  }

  /** `s.slice(0, n)`: the first `n` elements, or all of them when there are fewer. */
  function Take<T>(s: seq<T>, n: nat): seq<T>
  {
    if n <= |s| then s[..n] else s
  }

  /** `s.slice(n)`: what follows the first `n` elements, empty when there are fewer. */
  function Drop<T>(s: seq<T>, n: nat): seq<T>
  {
    if n <= |s| then s[n..] else []
  }

  /** Concatenation of a sequence of sequences. */
  function Flatten(ss: seq<seq<int>>): seq<int>
  {
    if ss == [] then [] else ss[0] + Flatten(ss[1..])
  }

  lemma FlattenCons(h: seq<int>, rest: seq<seq<int>>)
    ensures Flatten([h] + rest) == h + Flatten(rest)
  {
    assert ([h] + rest)[1..] == rest;
  }

  lemma {:induction false} FlattenConcat(a: seq<seq<int>>, b: seq<seq<int>>)
    ensures Flatten(a + b) == Flatten(a) + Flatten(b)
  {
    if a != [] {
      assert (a + b)[1..] == a[1..] + b;
      FlattenConcat(a[1..], b);
    } else {
      assert a + b == b;
    }
  }

  /** Flattening a sequence with two segments spliced into it. */
  lemma FlattenSplice(pre: seq<seq<int>>, x: seq<int>, y: seq<int>, rest: seq<seq<int>>)
    ensures Flatten(pre + ([x, y] + rest)) == Flatten(pre) + (x + (y + Flatten(rest)))
  {
    FlattenConcat(pre, [x, y] + rest);
    assert [x, y] + rest == [x] + ([y] + rest);
    FlattenCons(x, [y] + rest);
    FlattenCons(y, rest);
  }

  /** Regrouping the concatenation that a split child's walk leaves behind. */
  lemma Regroup(p: seq<int>, a: seq<int>, m: int, b: seq<int>, s: seq<int>, f: seq<int>)
    ensures p + ((a + [m]) + ((b + s) + f)) == p + (a + [m] + b) + (s + f)
  {
  }

  /** Regrouping a four-part concatenation. */
  lemma Assoc(a: seq<int>, b: seq<int>, c: seq<int>, d: seq<int>)
    ensures a + (b + c + d) == a + b + (c + d)
  {
  }

  /** A sequence is sorted exactly when both halves are and nothing in the first exceeds anything in the second. */
  lemma SortedConcat(p: seq<int>, q: seq<int>)
    ensures Sorted(p + q) <==>
            Sorted(p) && Sorted(q) && forall x, y :: x in p && y in q ==> x <= y
  {
    if Sorted(p + q) {
      assert p == (p + q)[..|p|];
      assert q == (p + q)[|p|..];
      forall x, y | x in p && y in q ensures x <= y {
        var i :| 0 <= i < |p| && p[i] == x;
        var j :| 0 <= j < |q| && q[j] == y;
        assert (p + q)[i] == x && (p + q)[|p| + j] == y;
      }
    }
    if Sorted(p) && Sorted(q) && forall x, y :: x in p && y in q ==> x <= y {
      forall i, j | 0 <= i < j < |p + q| ensures (p + q)[i] <= (p + q)[j] {
        if j < |p| {
        } else if i >= |p| {
          assert (p + q)[i] == q[i - |p|] && (p + q)[j] == q[j - |p|];
        } else {
          assert (p + q)[i] in p && (p + q)[j] in q;
        }
      }
    }
  }

  /**
    Inserting `k` just after every key not greater than it (the leaf case of
    `insertNonfull`) keeps a sorted sequence sorted.
   */
  lemma InsertAtUpperSorted(s: seq<int>, k: int)
    requires Sorted(s)
    ensures Sorted(InsertAt(s, UpperIndex(s, k), k))
  {
    var i := UpperIndex(s, k);
    var r := InsertAt(s, i, k);
    forall a, b | 0 <= a < b < |r| ensures r[a] <= r[b] {
      if b < i {
      } else if a > i {
        assert r[a] == s[a - 1] && r[b] == s[b - 1];
      } else if a == i {
        assert r[b] == s[b - 1] && s[i] <= s[b - 1];
      } else if b == i {
      } else {
        assert r[b] == s[b - 1] && s[a] <= s[b - 1];
      }
    }
  }

  /** Two sorted sequences holding the same multiset of keys are the same sequence. */
  lemma {:induction false} SortedUnique(a: seq<int>, b: seq<int>)
    requires Sorted(a) && Sorted(b) && multiset(a) == multiset(b)
    ensures a == b
  {
    if a != [] {
      assert a[0] in multiset(b) && b[0] in multiset(a);
      assert b[0] in a && a[0] in b;
      assert a[0] == b[0];
      assert a == [a[0]] + a[1..] && b == [b[0]] + b[1..];
      assert multiset(a) == multiset{a[0]} + multiset(a[1..]);
      assert multiset(b) == multiset{b[0]} + multiset(b[1..]);
      assert multiset(a[1..]) == multiset(a) - multiset{a[0]};
      assert multiset(b[1..]) == multiset(b) - multiset{b[0]};
      SortedUnique(a[1..], b[1..]);
    } else {
      assert |multiset(b)| == 0;
    }
  }

  /**
    A sorted sequence that holds the keys of a sorted `s` and one more `k` is
    `s` with `k` inserted after every key not greater than it.
   */
  lemma SortedWithOneMore(s: seq<int>, s2: seq<int>, k: int)
    requires Sorted(s) && Sorted(s2) && multiset(s2) == multiset(s) + multiset{k}
    ensures s2 == InsertAt(s, UpperIndex(s, k), k)
  {
    var i := UpperIndex(s, k);
    InsertAtUpperSorted(s, k);
    assert s == s[..i] + s[i..];
    assert multiset(InsertAt(s, i, k)) == multiset(s) + multiset{k};
    SortedUnique(s2, InsertAt(s, i, k));
  }

  /** Every element of a non-empty sorted sequence is at most its last one. */
  lemma AtMostLast(s: seq<int>, x: int)
    requires Sorted(s) && x in s
    ensures x <= s[|s| - 1]
  {
  }

  /** Every element of a non-empty sorted sequence is at least its first one. */
  lemma AtLeastFirst(s: seq<int>, x: int)
    requires Sorted(s) && x in s
    ensures s[0] <= x
  {
  }

  /**
    Replacing the middle part `x` of a sorted sequence by a sorted `x2` that
    holds one more key `k`, where `k` fits between the outer parts, keeps the
    whole sorted.
   */
  lemma SortedReplaceMiddle(p: seq<int>, x: seq<int>, x2: seq<int>, q: seq<int>, k: int)
    requires Sorted(p + x + q) && Sorted(x2)
    requires multiset(x2) == multiset(x) + multiset{k}
    requires forall a :: a in p ==> a <= k
    requires forall b :: b in q ==> k <= b
    ensures Sorted(p + x2 + q)
  {
    SortedConcat(p + x, q);
    SortedConcat(p, x);
    forall y | y in x2 ensures y in x || y == k {
      assert y in multiset(x2);
    }
    SortedConcat(p, x2);
    forall a, b | a in p + x2 && b in q ensures a <= b {
      if a in p {
        assert a in p + x;
      } else if a in x {
        assert a in p + x;
      } else {
        assert a == k;
      }
    }
    SortedConcat(p + x2, q);
  }
}
