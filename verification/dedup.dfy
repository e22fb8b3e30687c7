/**
  First-occurrence deduplication by a key, the algorithm shared by the
  aggregator's title dedup and storage's arXiv-id dedup: walk the list
  left to right with a set of keys already seen, keep an element exactly
  when its key is new.
 */
module Dedup {

  /** Keep each element whose key is neither in `seen` nor carried by an earlier element. */
  function FirstByKey<T, K(==)>(xs: seq<T>, key: T -> K, seen: set<K>): (r: seq<T>)
    ensures |r| <= |xs|
    decreases |xs|
  {
    if |xs| == 0 then []
    else if key(xs[0]) in seen then FirstByKey(xs[1..], key, seen)
    else [xs[0]] + FirstByKey(xs[1..], key, seen + {key(xs[0])})
  }

  lemma AppendAssoc<T>(a: seq<T>, b: seq<T>, c: seq<T>)
    ensures a + (b + c) == (a + b) + c
  {
  }

  /** One step of the walk from position `i`: the element there is kept exactly when its key is new. */
  lemma FirstByKeyStep<T, K>(xs: seq<T>, i: int, key: T -> K, seen: set<K>)
    requires 0 <= i < |xs|
    ensures FirstByKey(xs[i..], key, seen) ==
      if key(xs[i]) in seen then FirstByKey(xs[i + 1..], key, seen)
      else [xs[i]] + FirstByKey(xs[i + 1..], key, seen + {key(xs[i])})
  {
    assert xs[i..][0] == xs[i] && xs[i..][1..] == xs[i + 1..];
  }

  /** `[x for x in xs if p(x)]` */
  function Filter<T>(xs: seq<T>, p: T -> bool): (r: seq<T>)
    ensures |r| <= |xs|
    ensures forall i :: 0 <= i < |r| ==> p(r[i])
    decreases |xs|
  {
    if |xs| == 0 then []
    else if p(xs[0]) then [xs[0]] + Filter(xs[1..], p)
    else Filter(xs[1..], p)
  }

  /** `a` can be obtained from `b` by deleting elements. */
  ghost predicate IsSubsequence<T>(a: seq<T>, b: seq<T>)
    decreases |b|
  {
    if |a| == 0 then true
    else if |b| == 0 then false
    else (a[0] == b[0] && IsSubsequence(a[1..], b[1..])) || IsSubsequence(a, b[1..])
  }

  function KeysOf<T, K(==)>(xs: seq<T>, key: T -> K): set<K> {
    set i | 0 <= i < |xs| :: key(xs[i])
  }

  predicate DistinctKeys<T, K(==)>(xs: seq<T>, key: T -> K) {
    forall i, j :: 0 <= i < j < |xs| ==> key(xs[i]) != key(xs[j])
  }

  /** Element `i` is the first one carrying its key. */
  predicate IsFirst<T, K(==)>(xs: seq<T>, key: T -> K, i: int)
    requires 0 <= i < |xs|
  {
    forall j :: 0 <= j < i ==> key(xs[j]) != key(xs[i])
  }

  /**
    Reference definition, built from the right: the elements that are the
    first carriers of their key, in input order.
   */
  function Firsts<T, K(==)>(xs: seq<T>, key: T -> K): seq<T>
    decreases |xs|
  {
    if |xs| == 0 then []
    else Firsts(xs[..|xs| - 1], key) + (if IsFirst(xs, key, |xs| - 1) then [xs[|xs| - 1]] else [])
  }

  // ---------------------------------------------------------------------------
  // Subsequences
  // ---------------------------------------------------------------------------

  lemma {:induction false} SubsequenceRefl<T>(a: seq<T>)
    ensures IsSubsequence(a, a)
    decreases |a|
  {
    if |a| > 0 {
      SubsequenceRefl(a[1..]);
    }
  }

  lemma {:induction false} SubsequenceDropFront<T>(a: seq<T>, b: seq<T>)
    requires |a| > 0 && IsSubsequence(a, b)
    ensures IsSubsequence(a[1..], b)
    decreases |b|
  {
    if a[0] == b[0] && IsSubsequence(a[1..], b[1..]) {
      SubsequenceSkip(a[1..], b);
    } else {
      SubsequenceDropFront(a, b[1..]);
      SubsequenceSkip(a[1..], b);
    }
  }

  lemma SubsequenceSkip<T>(a: seq<T>, b: seq<T>)
    requires |b| > 0 && IsSubsequence(a, b[1..])
    ensures IsSubsequence(a, b)
  {
  }

  lemma {:induction false} SubsequenceTrans<T>(a: seq<T>, b: seq<T>, c: seq<T>)
    requires IsSubsequence(a, b) && IsSubsequence(b, c)
    ensures IsSubsequence(a, c)
    decreases |c|
  {
    if |a| == 0 {
    } else if |c| == 0 {
    } else if IsSubsequence(b, c[1..]) {
      SubsequenceTrans(a, b, c[1..]);
    } else {
      // b[0] == c[0] and b[1..] is a subsequence of c[1..]
      if a[0] == b[0] && IsSubsequence(a[1..], b[1..]) {
        SubsequenceTrans(a[1..], b[1..], c[1..]);
      } else {
        SubsequenceTrans(a, b[1..], c[1..]);
      }
    }
  }

  lemma {:induction false} FilterSubsequence<T>(xs: seq<T>, p: T -> bool)
    ensures IsSubsequence(Filter(xs, p), xs)
    decreases |xs|
  {
    if |xs| > 0 {
      FilterSubsequence(xs[1..], p);
      if p(xs[0]) {
        assert Filter(xs, p)[1..] == Filter(xs[1..], p);
      }
    }
  }

  /** Every element of `xs` satisfying `p` survives the filter, and nothing else does. */
  lemma {:induction false} FilterMembers<T>(xs: seq<T>, p: T -> bool)
    ensures forall x :: x in Filter(xs, p) <==> x in xs && p(x)
    decreases |xs|
  {
    if |xs| > 0 {
      FilterMembers(xs[1..], p);
      assert xs == [xs[0]] + xs[1..];
    }
  }

  // ---------------------------------------------------------------------------
  // First-occurrence dedup
  // ---------------------------------------------------------------------------

  /** The keys of a non-empty sequence: its head's key and the keys of the rest. */
  lemma KeysOfCons<T, K>(xs: seq<T>, key: T -> K)
    requires |xs| > 0
    ensures KeysOf(xs, key) == {key(xs[0])} + KeysOf(xs[1..], key)
  {
    forall k' | k' in KeysOf(xs, key) ensures k' in {key(xs[0])} + KeysOf(xs[1..], key) {
      var i :| 0 <= i < |xs| && key(xs[i]) == k';
      if i > 0 { assert xs[1..][i - 1] == xs[i]; }
    }
    forall k' | k' in KeysOf(xs[1..], key) ensures k' in KeysOf(xs, key) {
      var i :| 0 <= i < |xs[1..]| && key(xs[1..][i]) == k';
      assert xs[i + 1] == xs[1..][i];
    }
  }

  /** The output is obtained from the input by deleting elements. */
  lemma {:induction false} FirstByKeySubsequence<T, K>(xs: seq<T>, key: T -> K, seen: set<K>)
    ensures IsSubsequence(FirstByKey(xs, key, seen), xs)
    decreases |xs|
  {
    if |xs| > 0 {
      if key(xs[0]) in seen {
        FirstByKeySubsequence(xs[1..], key, seen);
      } else {
        FirstByKeySubsequence(xs[1..], key, seen + {key(xs[0])});
        assert FirstByKey(xs, key, seen)[1..] == FirstByKey(xs[1..], key, seen + {key(xs[0])});
      }
    }
  }

  /** The keys of the output are exactly the input's keys not already seen. */
  lemma {:induction false} FirstByKeyKeys<T, K>(xs: seq<T>, key: T -> K, seen: set<K>)
    ensures KeysOf(FirstByKey(xs, key, seen), key) == KeysOf(xs, key) - seen
    decreases |xs|
  {
    if |xs| > 0 {
      var k := key(xs[0]);
      KeysOfCons(xs, key);
      if k in seen {
        FirstByKeyKeys(xs[1..], key, seen);
      } else {
        var rest := FirstByKey(xs[1..], key, seen + {k});
        FirstByKeyKeys(xs[1..], key, seen + {k});
        var r := [xs[0]] + rest;
        assert r[0] == xs[0] && r[1..] == rest;
        KeysOfCons(r, key);
      }
    }
  }

  /** No two output elements share a key, and no output key was already seen. */
  lemma {:induction false} FirstByKeyDistinct<T, K>(xs: seq<T>, key: T -> K, seen: set<K>)
    ensures DistinctKeys(FirstByKey(xs, key, seen), key)
    ensures forall i :: 0 <= i < |FirstByKey(xs, key, seen)| ==> key(FirstByKey(xs, key, seen)[i]) !in seen
    decreases |xs|
  {
    if |xs| > 0 {
      var k := key(xs[0]);
      if k in seen {
        FirstByKeyDistinct(xs[1..], key, seen);
      } else {
        FirstByKeyDistinct(xs[1..], key, seen + {k});
        var rest := FirstByKey(xs[1..], key, seen + {k});
        var r := [xs[0]] + rest;
        assert forall i :: 1 <= i < |r| ==> r[i] == rest[i - 1];
      }
    }
  }

  /** Input whose keys are already distinct and unseen passes through unchanged. */
  lemma {:induction false} FirstByKeyOfDistinct<T, K>(xs: seq<T>, key: T -> K, seen: set<K>)
    requires DistinctKeys(xs, key)
    requires forall i :: 0 <= i < |xs| ==> key(xs[i]) !in seen
    ensures FirstByKey(xs, key, seen) == xs
    decreases |xs|
  {
    if |xs| > 0 {
      var k := key(xs[0]);
      forall i | 0 <= i < |xs[1..]| ensures key(xs[1..][i]) !in seen + {k} {
        assert xs[1..][i] == xs[i + 1];
      }
      FirstByKeyOfDistinct(xs[1..], key, seen + {k});
      assert xs == [xs[0]] + xs[1..];
    }
  }

  /** Deduplicating twice is the same as deduplicating once. */
  lemma FirstByKeyIdempotent<T, K>(xs: seq<T>, key: T -> K)
    ensures FirstByKey(FirstByKey(xs, key, {}), key, {}) == FirstByKey(xs, key, {})
  {
    FirstByKeyDistinct(xs, key, {});
    FirstByKeyOfDistinct(FirstByKey(xs, key, {}), key, {});
  }

  /**
    Deduplicating `a + b` keeps `a`'s survivors and then those of `b`
    whose keys `a` did not already carry.
   */
  lemma {:induction false} FirstByKeyAppend<T, K>(a: seq<T>, b: seq<T>, key: T -> K, seen: set<K>)
    ensures FirstByKey(a + b, key, seen) == FirstByKey(a, key, seen) + FirstByKey(b, key, seen + KeysOf(a, key))
    decreases |a|
  {
    if |a| == 0 {
      assert a + b == b;
      assert KeysOf(a, key) == {};
      assert seen + KeysOf(a, key) == seen;
    } else {
      var k := key(a[0]);
      assert (a + b)[1..] == a[1..] + b;
      assert (a + b)[0] == a[0];
      KeysOfCons(a, key);
      if k in seen {
        FirstByKeyAppend(a[1..], b, key, seen);
        assert seen + KeysOf(a, key) == seen + KeysOf(a[1..], key);
      } else {
        FirstByKeyAppend(a[1..], b, key, seen + {k});
        assert seen + {k} + KeysOf(a[1..], key) == seen + KeysOf(a, key);
      }
    }
  }

  lemma KeysOfPrefix<T, K>(xs: seq<T>, key: T -> K)
    requires |xs| > 0
    ensures key(xs[|xs| - 1]) in KeysOf(xs[..|xs| - 1], key) <==> !IsFirst(xs, key, |xs| - 1)
  {
    var n := |xs| - 1;
    if key(xs[n]) in KeysOf(xs[..n], key) {
      var j :| 0 <= j < n && key(xs[..n][j]) == key(xs[n]);
      assert xs[..n][j] == xs[j];
    }
    if !IsFirst(xs, key, n) {
      var j :| 0 <= j < n && key(xs[j]) == key(xs[n]);
      assert xs[..n][j] == xs[j];
    }
  }

  /** The left-to-right walk agrees with the reference "first carriers" definition. */
  lemma {:induction false} FirstByKeyIsFirsts<T, K>(xs: seq<T>, key: T -> K)
    ensures FirstByKey(xs, key, {}) == Firsts(xs, key)
    decreases |xs|
  {
    if |xs| > 0 {
      var n := |xs| - 1;
      var pre := xs[..n];
      FirstByKeyIsFirsts(pre, key);
      assert xs == pre + [xs[n]];
      FirstByKeyAppend(pre, [xs[n]], key, {});
      KeysOfPrefix(xs, key);
      assert {} + KeysOf(pre, key) == KeysOf(pre, key);
      assert [xs[n]][1..] == [];
    }
  }

  /** Whether an element is the first carrier of its key does not depend on what follows it. */
  lemma IsFirstPrefix<T, K>(xs: seq<T>, key: T -> K, n: int, i: int)
    requires 0 <= i < n <= |xs|
    ensures xs[..n][i] == xs[i]
    ensures IsFirst(xs[..n], key, i) == IsFirst(xs, key, i)
  {
    assert forall j :: 0 <= j <= i ==> xs[..n][j] == xs[j];
  }

  /** Every element that is the first carrier of its key appears in the output. */
  lemma {:induction false} FirstsComplete<T, K>(xs: seq<T>, key: T -> K)
    ensures forall i :: 0 <= i < |xs| && IsFirst(xs, key, i) ==> xs[i] in Firsts(xs, key)
    decreases |xs|
  {
    if |xs| > 0 {
      var n := |xs| - 1;
      var pre := xs[..n];
      FirstsComplete(pre, key);
      var last := if IsFirst(xs, key, n) then [xs[n]] else [];
      assert Firsts(xs, key) == Firsts(pre, key) + last;
      forall i | 0 <= i < |xs| && IsFirst(xs, key, i) ensures xs[i] in Firsts(xs, key) {
        if i < n {
          IsFirstPrefix(xs, key, n, i);
          assert xs[i] in Firsts(pre, key);
        } else {
          assert xs[i] in last;
        }
      }
    }
  }

  /** Every output element is the first carrier of its key. */
  lemma {:induction false} FirstsSound<T, K>(xs: seq<T>, key: T -> K)
    ensures forall x :: x in Firsts(xs, key) ==> exists i :: 0 <= i < |xs| && xs[i] == x && IsFirst(xs, key, i)
    decreases |xs|
  {
    if |xs| > 0 {
      var n := |xs| - 1;
      var pre := xs[..n];
      FirstsSound(pre, key);
      forall x | x in Firsts(xs, key)
        ensures exists i :: 0 <= i < |xs| && xs[i] == x && IsFirst(xs, key, i)
      {
        if x in Firsts(pre, key) {
          var i :| 0 <= i < |pre| && pre[i] == x && IsFirst(pre, key, i);
          IsFirstPrefix(xs, key, n, i);
        } else {
          assert x == xs[n] && IsFirst(xs, key, n);
        }
      }
    }
  }
}
