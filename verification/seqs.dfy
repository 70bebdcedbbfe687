/** Filtering and counting over sequences, shared by the services' list handling. */
module Seqs {
  import opened Wrappers

  /** `Array.prototype.filter`: the elements of `s` that satisfy `p`, in order. */
  function Keep<T(!new)>(s: seq<T>, p: T -> bool): (r: seq<T>)
    ensures |r| <= |s|
    ensures forall x :: x in r <==> x in s && p(x)
    decreases |s|
  {
    if |s| == 0 then [] else (if p(s[0]) then [s[0]] else []) + Keep(s[1..], p)
  }

  /**
   * `findIndex` by key, the lookup every repository `findOne({ where: { id } })`
   * amounts to: the first position whose key is `k`, or none when no
   * element has it.
   */
  function Find<T, K(==)>(s: seq<T>, key: T -> K, k: K): (o: Option<nat>)
    ensures o.Some? ==> o.value < |s| && key(s[o.value]) == k
    ensures o.Some? ==> forall i :: 0 <= i < o.value ==> key(s[i]) != k
    ensures o.None? ==> forall i :: 0 <= i < |s| ==> key(s[i]) != k
    decreases |s|
  {
    if |s| == 0 then None
    else if key(s[0]) == k then Some(0)
    else
      match Find(s[1..], key, k)
      case None => None
      case Some(i) => Some(i + 1)
  }

  /** The elements of `s` have pairwise different keys. */
  predicate DistinctBy<T, K(==)>(s: seq<T>, key: T -> K) {
    forall i, j :: 0 <= i < |s| && 0 <= j < |s| && i != j ==> key(s[i]) != key(s[j])
  }

  /** Filtering distributes over concatenation: an appended row is filtered on its own. */
  lemma {:induction false} KeepAppend<T(!new)>(s: seq<T>, x: T, p: T -> bool)
    ensures Keep(s + [x], p) == Keep(s, p) + (if p(x) then [x] else [])
    decreases |s|
  {
    var tail := if p(x) then [x] else [];
    if |s| == 0 {
      assert s + [x] == [x];
      assert Keep([x], p) == tail + Keep([x][1..], p);
      assert [x][1..] == [];
    } else {
      var t := s + [x];
      var head := if p(s[0]) then [s[0]] else [];
      assert t[0] == s[0] && t[1..] == s[1..] + [x];
      KeepAppend(s[1..], x, p);
      assert Keep(t, p) == head + Keep(s[1..] + [x], p);
      assert Keep(s, p) == head + Keep(s[1..], p);
      assert head + (Keep(s[1..], p) + tail) == (head + Keep(s[1..], p)) + tail;
    }
  }

  /** Every element lands on exactly one side of a filter. */
  lemma {:induction false} KeepSplits<T(!new)>(s: seq<T>, p: T -> bool, q: T -> bool)
    requires forall x :: x in s ==> (q(x) <==> !p(x))
    ensures |Keep(s, p)| + |Keep(s, q)| == |s|
    decreases |s|
  {
    if |s| > 0 {
      assert forall x :: x in s[1..] ==> x in s;
      KeepSplits(s[1..], p, q);
    }
  }

  /** Filtering keeps keys distinct. */
  lemma {:induction false} KeepDistinct<T(!new), K>(s: seq<T>, p: T -> bool, key: T -> K)
    requires DistinctBy(s, key)
    ensures DistinctBy(Keep(s, p), key)
    decreases |s|
  {
    if |s| > 0 {
      var tail := s[1..];
      assert DistinctBy(tail, key) by {
        forall i, j | 0 <= i < |tail| && 0 <= j < |tail| && i != j ensures key(tail[i]) != key(tail[j]) {
          assert tail[i] == s[i + 1] && tail[j] == s[j + 1];
        }
      }
      KeepDistinct(tail, p, key);
      var rest := Keep(tail, p);
      if p(s[0]) {
        var all := [s[0]] + rest;
        forall i, j | 0 <= i < |all| && 0 <= j < |all| && i != j ensures key(all[i]) != key(all[j]) {
          if i > 0 && j > 0 {
            assert all[i] == rest[i - 1] && all[j] == rest[j - 1];
          } else {
            var k := if i == 0 then j else i;
            assert all[k] == rest[k - 1] && all[k] in tail;
            var n :| 0 <= n < |tail| && tail[n] == all[k];
            assert s[n + 1] == all[k];
          }
        }
      }
    }
  }

  /** The set of keys of a sequence. */
  function Keys<T(==), K>(s: seq<T>, key: T -> K): (ks: set<K>)
    ensures forall x :: x in s ==> key(x) in ks
    ensures forall k :: k in ks ==> exists x :: x in s && key(x) == k
  {
    set x | x in s :: key(x)
  }

  /** A sequence with distinct keys has as many keys as elements. */
  lemma {:induction false} DistinctKeysCount<T, K>(s: seq<T>, key: T -> K)
    requires DistinctBy(s, key)
    ensures |Keys(s, key)| == |s|
    decreases |s|
  {
    if |s| > 0 {
      var init := s[..|s| - 1];
      var last := s[|s| - 1];
      assert DistinctBy(init, key) by {
        forall i, j | 0 <= i < |init| && 0 <= j < |init| && i != j ensures key(init[i]) != key(init[j]) {
          assert init[i] == s[i] && init[j] == s[j];
        }
      }
      DistinctKeysCount(init, key);
      assert s == init + [last];
      assert Keys(s, key) == Keys(init, key) + {key(last)};
      assert key(last) !in Keys(init, key) by {
        forall x | x in init ensures key(x) != key(last) {
          var n :| 0 <= n < |init| && init[n] == x;
          assert s[n] == x;
        }
      }
    }
  }

  /** A filter every element passes keeps the sequence as it is. */
  lemma {:induction false} KeepAll<T(!new)>(s: seq<T>, p: T -> bool)
    requires forall x :: x in s ==> p(x)
    ensures Keep(s, p) == s
    decreases |s|
  {
    if |s| > 0 {
      KeepAll(s[1..], p);
      assert [s[0]] + s[1..] == s;
    }
  }

  /** Filtering by two predicates in turn is filtering by their conjunction. */
  lemma {:induction false} KeepKeep<T(!new)>(s: seq<T>, p: T -> bool, q: T -> bool, both: T -> bool)
    requires forall x :: x in s ==> (both(x) <==> p(x) && q(x))
    ensures Keep(Keep(s, p), q) == Keep(s, both)
    decreases |s|
  {
    if |s| > 0 {
      assert forall x :: x in s[1..] ==> x in s;
      KeepKeep(s[1..], p, q, both);
      var kept := Keep(s, p);
      if p(s[0]) {
        assert kept[0] == s[0] && kept[1..] == Keep(s[1..], p);
      } else {
        assert kept == Keep(s[1..], p);
      }
    }
  }

  /** Filters that agree on every element keep the same elements. */
  lemma {:induction false} KeepSame<T(!new)>(s: seq<T>, p: T -> bool, q: T -> bool)
    requires forall x :: x in s ==> p(x) == q(x)
    ensures Keep(s, p) == Keep(s, q)
    decreases |s|
  {
    if |s| > 0 {
      assert forall x :: x in s[1..] ==> x in s;
      KeepSame(s[1..], p, q);
    }
  }

  /** Filtering keeps every copy of a value that passes and none of one that fails. */
  lemma {:induction false} KeepMultiset<T(!new)>(s: seq<T>, p: T -> bool)
    ensures forall x :: multiset(Keep(s, p))[x] == if p(x) then multiset(s)[x] else 0
    decreases |s|
  {
    if |s| > 0 {
      KeepMultiset(s[1..], p);
      assert s == [s[0]] + s[1..];
    }
  }

  /** Filtering two orderings of the same elements gives the same elements, as many. */
  lemma KeepPermutation<T(!new)>(a: seq<T>, b: seq<T>, p: T -> bool)
    requires multiset(a) == multiset(b)
    ensures multiset(Keep(a, p)) == multiset(Keep(b, p))
    ensures |Keep(a, p)| == |Keep(b, p)|
  {
    KeepMultiset(a, p);
    KeepMultiset(b, p);
    assert multiset(Keep(a, p)) == multiset(Keep(b, p));
    assert |multiset(Keep(a, p))| == |Keep(a, p)| && |multiset(Keep(b, p))| == |Keep(b, p)|;
  }

  /** `s` back to front. */
  function Reverse<T>(s: seq<T>): (r: seq<T>)
    ensures |r| == |s|
    ensures forall i {:trigger r[i]} :: 0 <= i < |s| ==> r[i] == s[|s| - 1 - i]
    ensures multiset(r) == multiset(s)
    decreases |s|
  {
    if |s| == 0 then []
    else
      assert s == [s[0]] + s[1..];
      Reverse(s[1..]) + [s[0]]
  }

  /** `s` in non-increasing order of `key`: a `DESC` ordering. */
  predicate Descending<T>(s: seq<T>, key: T -> int) {
    forall i, j :: 0 <= i < j < |s| ==> key(s[i]) >= key(s[j])
  }

  /** `s` in non-decreasing order of `key`: an `ASC` ordering. */
  predicate Ascending<T>(s: seq<T>, key: T -> int) {
    forall i, j :: 0 <= i < j < |s| ==> key(s[i]) <= key(s[j])
  }

  /** Places `x` before the first element whose key does not exceed its own. */
  function InsertDescending<T>(x: T, s: seq<T>, key: T -> int): (r: seq<T>)
    ensures multiset(r) == multiset(s) + multiset{x}
    ensures |s| > 0 ==> r[0] == x || r[0] == s[0]
    decreases |s|
  {
    if |s| == 0 || key(x) >= key(s[0]) then [x] + s
    else
      var rest := InsertDescending(x, s[1..], key);
      assert s == [s[0]] + s[1..];
      [s[0]] + rest
  }

  lemma {:induction false} InsertKeepsDescending<T>(x: T, s: seq<T>, key: T -> int)
    requires Descending(s, key)
    ensures Descending(InsertDescending(x, s, key), key)
    decreases |s|
  {
    if |s| > 0 && key(x) < key(s[0]) {
      assert Descending(s[1..], key) by {
        assert forall i :: 0 <= i < |s| - 1 ==> s[1..][i] == s[i + 1];
      }
      InsertKeepsDescending(x, s[1..], key);
      var rest := InsertDescending(x, s[1..], key);
      var r := InsertDescending(x, s, key);
      assert r == [s[0]] + rest;
      assert key(rest[0]) <= key(s[0]);
      forall i, j | 0 <= i < j < |r| ensures key(r[i]) >= key(r[j]) {
        assert r[j] == rest[j - 1];
        if i > 0 {
          assert r[i] == rest[i - 1];
        } else {
          assert key(rest[j - 1]) <= key(rest[0]);
        }
      }
    }
  }

  /** Insertion sort by `key`, largest first. */
  function SortDescending<T>(s: seq<T>, key: T -> int): (r: seq<T>)
    ensures Descending(r, key)
    ensures multiset(r) == multiset(s)
    decreases |s|
  {
    if |s| == 0 then []
    else
      assert s == [s[0]] + s[1..];
      InsertKeepsDescending(s[0], SortDescending(s[1..], key), key);
      InsertDescending(s[0], SortDescending(s[1..], key), key)
  }

  /** Reading backwards, an appended element comes first. */
  lemma ReverseAppend<T>(s: seq<T>, x: T)
    ensures Reverse(s + [x]) == [x] + Reverse(s)
  {
    var t := s + [x];
    forall i | 0 <= i <= |s| ensures Reverse(t)[i] == ([x] + Reverse(s))[i] {
      ReverseAppendAt(s, t, x, i);
    }
  }

  /**
   * One position of ReverseAppend, stated for any `t` that is `s` followed
   * by `x`, so that the proof never unfolds the reversal of a concatenation.
   */
  lemma ReverseAppendAt<T>(s: seq<T>, t: seq<T>, x: T, i: nat)
    requires |t| == |s| + 1 && t[|s|] == x
    requires forall j :: 0 <= j < |s| ==> t[j] == s[j]
    requires i <= |s|
    ensures Reverse(t)[i] == ([x] + Reverse(s))[i]
  {
    ReverseAt(t, i);
    if i > 0 {
      ReverseAt(s, i - 1);
    }
  }

  /** One position of a reversal. */
  lemma ReverseAt<T>(s: seq<T>, i: nat)
    requires i < |s|
    ensures Reverse(s)[i] == s[|s| - 1 - i]
  {
  }

  /** A list in `DESC` order read backwards is in `ASC` order. */
  lemma ReversedDescendingIsAscending<T>(s: seq<T>, key: T -> int)
    requires Descending(s, key)
    ensures Ascending(Reverse(s), key)
  {
    var r := Reverse(s);
    forall i, j | 0 <= i < j < |r| ensures key(r[i]) <= key(r[j]) {
      assert r[i] == s[|r| - 1 - i] && r[j] == s[|r| - 1 - j];
    }
  }

  /** Sort by `key`, smallest first. */
  function SortAscending<T>(s: seq<T>, key: T -> int): (r: seq<T>)
    ensures Ascending(r, key)
    ensures multiset(r) == multiset(s)
  {
    ReversedDescendingIsAscending(SortDescending(s, key), key);
    Reverse(SortDescending(s, key))
  }
}
