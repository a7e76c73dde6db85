/** Generic table operations on sequences of rows: the pandas row filters
    (`dropna`), `drop_duplicates(subset=[key], keep="first")` and a stable
    `sort_values` by a numeric key. Each is defined recursively and its
    contract says what the result means. */
module Seqs {

  /* ---------------------------------------------------------------- Filter */

  /** The elements of `s` that satisfy `p`, in their original order. */
  function Filter<T(==)>(s: seq<T>, p: T -> bool): (r: seq<T>)
    ensures |r| <= |s|
    ensures forall i :: 0 <= i < |r| ==> p(r[i])
  {
    if |s| == 0 then []
    else (if p(s[0]) then [s[0]] else []) + Filter(s[1..], p)
  }

  /** Filtering distributes over concatenation: together with the
      one-element case this pins the order of the kept elements. */
  lemma {:induction false} FilterConcat<T>(a: seq<T>, b: seq<T>, p: T -> bool)
    ensures Filter(a + b, p) == Filter(a, p) + Filter(b, p)
  {
    if |a| == 0 {
      assert a + b == b;
    } else {
      assert (a + b)[0] == a[0];
      assert (a + b)[1..] == a[1..] + b;
      FilterConcat(a[1..], b, p);
    }
  }

  /** An element is kept exactly when it occurs in `s` and passes `p`. */
  lemma {:induction false} FilterMembers<T>(s: seq<T>, p: T -> bool, x: T)
    ensures x in Filter(s, p) <==> x in s && p(x)
  {
    if |s| > 0 {
      FilterMembers(s[1..], p, x);
      assert s == [s[0]] + s[1..];
    }
  }

  lemma {:induction false} FilterKeepsAll<T>(s: seq<T>, p: T -> bool)
    requires forall i :: 0 <= i < |s| ==> p(s[i])
    ensures Filter(s, p) == s
  {
    if |s| > 0 {
      assert forall i :: 0 <= i < |s[1..]| ==> p(s[1..][i]) by {
        forall i | 0 <= i < |s[1..]| ensures p(s[1..][i]) {
          assert s[1..][i] == s[i + 1];
        }
      }
      FilterKeepsAll(s[1..], p);
      assert s == [s[0]] + s[1..];
    }
  }

  /** A filter keeps everything exactly when every element passes. */
  lemma FilterIdentity<T>(s: seq<T>, p: T -> bool)
    ensures Filter(s, p) == s <==> forall i :: 0 <= i < |s| ==> p(s[i])
  {
    if forall i :: 0 <= i < |s| ==> p(s[i]) {
      FilterKeepsAll(s, p);
    }
  }

  /** A filter keeps the relative order of what it keeps: if the ranks
      strictly increase along `s`, they strictly increase along the result,
      which therefore holds no element twice. */
  lemma {:induction false} FilterRanked<T>(s: seq<T>, p: T -> bool, rank: T -> int)
    requires forall i, j :: 0 <= i < j < |s| ==> rank(s[i]) < rank(s[j])
    ensures forall k, l :: 0 <= k < l < |Filter(s, p)| ==> rank(Filter(s, p)[k]) < rank(Filter(s, p)[l])
  {
    if |s| > 0 {
      var tail := s[1..];
      assert forall i, j :: 0 <= i < j < |tail| ==> rank(tail[i]) < rank(tail[j]) by {
        forall i, j | 0 <= i < j < |tail| ensures rank(tail[i]) < rank(tail[j]) {
          assert tail[i] == s[i + 1] && tail[j] == s[j + 1];
        }
      }
      FilterRanked(tail, p, rank);
      var rest := Filter(tail, p);
      forall l | 0 <= l < |rest| ensures rank(s[0]) < rank(rest[l]) {
        FilterMembers(tail, p, rest[l]);
        var j :| 0 <= j < |tail| && tail[j] == rest[l];
        assert tail[j] == s[j + 1];
      }
    }
  }

  /* ------------------------------------------------------ keys, duplicates */

  /** The set of keys carried by the rows of `s`. */
  function KeysOf<T>(s: seq<T>, key: T -> int): set<int>
  {
    set i | 0 <= i < |s| :: key(s[i])
  }

  /** No two rows of `s` carry the same key. */
  predicate UniqueKeys<T>(s: seq<T>, key: T -> int)
  {
    forall i, j :: 0 <= i < j < |s| ==> key(s[i]) != key(s[j])
  }

  /** Two sequences carrying the same keys position by position have the
      same key set, and one has unique keys exactly when the other does. */
  lemma SameKeys<A, B>(a: seq<A>, ka: A -> int, b: seq<B>, kb: B -> int)
    requires |a| == |b| && forall i :: 0 <= i < |a| ==> ka(a[i]) == kb(b[i])
    ensures KeysOf(a, ka) == KeysOf(b, kb)
    ensures UniqueKeys(a, ka) <==> UniqueKeys(b, kb)
  {
  }

  lemma KeysOfCons<T>(s: seq<T>, key: T -> int)
    requires |s| > 0
    ensures KeysOf(s, key) == {key(s[0])} + KeysOf(s[1..], key)
  {
    forall k | k in KeysOf(s, key) ensures k in {key(s[0])} + KeysOf(s[1..], key) {
      var i :| 0 <= i < |s| && key(s[i]) == k;
      if i > 0 {
        assert key(s[1..][i - 1]) == k;
      }
    }
    forall k | k in KeysOf(s[1..], key) ensures k in KeysOf(s, key) {
      var i :| 0 <= i < |s[1..]| && key(s[1..][i]) == k;
      assert key(s[i + 1]) == k;
    }
  }

  /** Dropping the first row keeps the keys unique, and the first key does
      not occur in the rest. */
  lemma UniqueKeysTail<T>(s: seq<T>, key: T -> int)
    requires |s| > 0 && UniqueKeys(s, key)
    ensures UniqueKeys(s[1..], key)
    ensures key(s[0]) !in KeysOf(s[1..], key)
  {
    var tail := s[1..];
    forall i, j | 0 <= i < j < |tail| ensures key(tail[i]) != key(tail[j]) {
      assert tail[i] == s[i + 1] && tail[j] == s[j + 1];
    }
    forall i | 0 <= i < |tail| ensures key(tail[i]) != key(s[0]) {
      assert tail[i] == s[i + 1];
    }
  }

  /** The rows of `s` whose key was not seen before, scanning from the front;
      `seen` holds the keys already kept. */
  function DedupFrom<T(==)>(s: seq<T>, key: T -> int, seen: set<int>): (r: seq<T>)
    ensures |r| <= |s|
    ensures UniqueKeys(r, key)
    ensures forall i :: 0 <= i < |r| ==> key(r[i]) !in seen
    ensures KeysOf(r, key) == KeysOf(s, key) - seen
    ensures forall i :: 0 <= i < |r| ==> r[i] in s
    decreases |s|
  {
    if |s| == 0 then []
    else
      KeysOfCons(s, key);
      if key(s[0]) in seen then DedupFrom(s[1..], key, seen)
      else
        var tail := DedupFrom(s[1..], key, seen + {key(s[0])});
        KeysOfCons([s[0]] + tail, key);
        assert ([s[0]] + tail)[1..] == tail;
        [s[0]] + tail
  }

  /** pandas `drop_duplicates(subset=[key])` with the default `keep="first"`. */
  function DropDuplicates<T(==)>(s: seq<T>, key: T -> int): (r: seq<T>)
    ensures |r| <= |s|
    ensures UniqueKeys(r, key)
    ensures KeysOf(r, key) == KeysOf(s, key)
    ensures forall i :: 0 <= i < |r| ==> r[i] in s
  {
    DedupFrom(s, key, {})
  }

  lemma {:induction false} DedupFromSnoc<T>(s: seq<T>, x: T, key: T -> int, seen: set<int>)
    ensures DedupFrom(s + [x], key, seen)
         == DedupFrom(s, key, seen) + (if key(x) in KeysOf(s, key) + seen then [] else [x])
    decreases |s|
  {
    if |s| == 0 {
      assert s + [x] == [x];
      assert [x][1..] == [];
      assert KeysOf(s, key) == {};
    } else {
      assert (s + [x])[0] == s[0];
      assert (s + [x])[1..] == s[1..] + [x];
      KeysOfCons(s, key);
      var extra := if key(x) in KeysOf(s, key) + seen then [] else [x];
      if key(s[0]) in seen {
        DedupFromSnoc(s[1..], x, key, seen);
        assert KeysOf(s[1..], key) + seen == KeysOf(s, key) + seen;
        assert DedupFrom(s + [x], key, seen) == DedupFrom(s[1..] + [x], key, seen);
      } else {
        var seen' := seen + {key(s[0])};
        DedupFromSnoc(s[1..], x, key, seen');
        assert KeysOf(s[1..], key) + seen' == KeysOf(s, key) + seen;
        assert DedupFrom(s + [x], key, seen) == [s[0]] + DedupFrom(s[1..] + [x], key, seen');
        assert DedupFrom(s, key, seen) == [s[0]] + DedupFrom(s[1..], key, seen');
        assert DedupFrom(s + [x], key, seen) == [s[0]] + (DedupFrom(s[1..], key, seen') + extra);
      }
    }
  }

  /** Appending a row keeps it exactly when its key is new: the result is the
      first occurrence of every key, in the original order. */
  lemma DropDuplicatesSnoc<T>(s: seq<T>, x: T, key: T -> int)
    ensures DropDuplicates(s + [x], key)
         == DropDuplicates(s, key) + (if key(x) in KeysOf(s, key) then [] else [x])
  {
    DedupFromSnoc(s, x, key, {});
  }

  lemma {:induction false} DedupFromIdentity<T>(s: seq<T>, key: T -> int, seen: set<int>)
    ensures DedupFrom(s, key, seen) == s <==> UniqueKeys(s, key) && KeysOf(s, key) !! seen
    ensures |DedupFrom(s, key, seen)| == |s| ==> DedupFrom(s, key, seen) == s
    decreases |s|
  {
    if |s| > 0 {
      KeysOfCons(s, key);
      var k := key(s[0]);
      if k in seen {
        assert k in KeysOf(s, key) * seen;
      } else {
        DedupFromIdentity(s[1..], key, seen + {k});
        var tail := DedupFrom(s[1..], key, seen + {k});
        assert DedupFrom(s, key, seen) == [s[0]] + tail;
        if UniqueKeys(s, key) && KeysOf(s, key) !! seen {
          assert UniqueKeys(s[1..], key) by {
            forall i, j | 0 <= i < j < |s[1..]|
              ensures key(s[1..][i]) != key(s[1..][j])
            {
              assert s[1..][i] == s[i + 1] && s[1..][j] == s[j + 1];
            }
          }
          assert k !in KeysOf(s[1..], key) by {
            forall i | 0 <= i < |s[1..]| ensures key(s[1..][i]) != k {
              assert s[1..][i] == s[i + 1];
            }
          }
          assert s == [s[0]] + s[1..];
        }
        if [s[0]] + tail == s {
          assert tail == s[1..];
          assert UniqueKeys(s, key) by {
            forall i, j | 0 <= i < j < |s| ensures key(s[i]) != key(s[j]) {
              if i == 0 {
                assert key(s[j]) in KeysOf(s[1..], key) by {
                  assert s[1..][j - 1] == s[j];
                }
              } else {
                assert s[1..][i - 1] == s[i] && s[1..][j - 1] == s[j];
              }
            }
          }
        }
        if |DedupFrom(s, key, seen)| == |s| {
          assert |tail| == |s[1..]|;
          assert s == [s[0]] + s[1..];
        }
      }
    }
  }

  /** A property every row has survives deduplication. */
  lemma DropDuplicatesAll<T>(s: seq<T>, key: T -> int, p: T -> bool)
    requires forall i :: 0 <= i < |s| ==> p(s[i])
    ensures forall j :: 0 <= j < |DropDuplicates(s, key)| ==> p(DropDuplicates(s, key)[j])
  {
    var r := DropDuplicates(s, key);
    forall j | 0 <= j < |r| ensures p(r[j]) {
      var i :| 0 <= i < |s| && s[i] == r[j];
    }
  }

  /** Deduplication removes nothing exactly when the keys are already
      unique, and then it returns its input unchanged. */
  lemma DropDuplicatesIdentity<T>(s: seq<T>, key: T -> int)
    ensures DropDuplicates(s, key) == s <==> UniqueKeys(s, key)
    ensures |DropDuplicates(s, key)| == |s| <==> UniqueKeys(s, key)
  {
    DedupFromIdentity(s, key, {});
  }

  /** A table with unique keys has exactly one row per key. */
  lemma {:induction false} UniqueKeysCount<T>(s: seq<T>, key: T -> int)
    requires UniqueKeys(s, key)
    ensures |KeysOf(s, key)| == |s|
  {
    if |s| > 0 {
      KeysOfCons(s, key);
      UniqueKeysTail(s, key);
      UniqueKeysCount(s[1..], key);
    }
  }

  /** The number of rows `drop_duplicates` removes is the number of rows
      minus the number of distinct keys. */
  lemma DropDuplicatesCount<T>(s: seq<T>, key: T -> int)
    ensures |DropDuplicates(s, key)| == |KeysOf(s, key)|
    ensures |s| - |DropDuplicates(s, key)| >= 0
  {
    UniqueKeysCount(DropDuplicates(s, key), key);
  }

  /* --------------------------------------------------------------- sorting */

  /** `s` is in non-decreasing order of `key`. */
  predicate SortedBy<T>(s: seq<T>, key: T -> real)
  {
    forall i, j :: 0 <= i < j < |s| ==> key(s[i]) <= key(s[j])
  }

  /** Inserts `x` before the first element whose key is not smaller, so that
      equal keys keep their relative order. */
  function InsertBy<T(==)>(x: T, s: seq<T>, key: T -> real): (r: seq<T>)
    ensures |r| == |s| + 1
    ensures multiset(r) == multiset(s) + multiset{x}
  {
    if |s| == 0 || key(x) <= key(s[0]) then [x] + s
    else
      assert s == [s[0]] + s[1..];
      [s[0]] + InsertBy(x, s[1..], key)
  }

  /** Inserting into a sorted sequence keeps it sorted, and nothing lands in
      front of both `x` and the old first element. */
  lemma {:induction false} InsertBySorted<T>(x: T, s: seq<T>, key: T -> real)
    requires SortedBy(s, key)
    ensures SortedBy(InsertBy(x, s, key), key)
    ensures forall i :: 0 <= i < |s| + 1 ==>
              key(x) <= key(InsertBy(x, s, key)[i]) || (|s| > 0 && key(s[0]) <= key(InsertBy(x, s, key)[i]))
  {
    if |s| == 0 || key(x) <= key(s[0]) {
      PrependSorted(x, s, key);
    } else {
      var rest := s[1..];
      assert SortedBy(rest, key) by {
        forall i, j | 0 <= i < j < |rest| ensures key(rest[i]) <= key(rest[j]) {
          assert rest[i] == s[i + 1] && rest[j] == s[j + 1];
        }
      }
      InsertBySorted(x, rest, key);
      var tail := InsertBy(x, rest, key);
      assert forall i :: 0 <= i < |tail| ==> key(s[0]) <= key(tail[i]);
      PrependSorted(s[0], tail, key);
    }
  }

  /** Putting in front an element no greater than any other keeps order. */
  lemma PrependSorted<T>(y: T, t: seq<T>, key: T -> real)
    requires SortedBy(t, key)
    requires forall i :: 0 <= i < |t| ==> key(y) <= key(t[i])
    ensures SortedBy([y] + t, key)
    ensures forall i :: 0 <= i < |t| + 1 ==> key(y) <= key(([y] + t)[i])
  {
    var r := [y] + t;
    assert forall i :: 0 < i < |r| ==> r[i] == t[i - 1];
  }

  /** A stable insertion sort on `key` (pandas `sort_values`). */
  function SortBy<T(==)>(s: seq<T>, key: T -> real): (r: seq<T>)
    ensures |r| == |s|
    ensures multiset(r) == multiset(s)
    ensures SortedBy(r, key)
  {
    if |s| == 0 then []
    else
      assert s == [s[0]] + s[1..];
      var t := SortBy(s[1..], key);
      InsertBySorted(s[0], t, key);
      InsertBy(s[0], t, key)
  }

  /** Sorting an already sorted sequence changes nothing. */
  lemma {:induction false} SortBySorted<T>(s: seq<T>, key: T -> real)
    requires SortedBy(s, key)
    ensures SortBy(s, key) == s
  {
    if |s| > 0 {
      assert SortedBy(s[1..], key) by {
        forall i, j | 0 <= i < j < |s[1..]| ensures key(s[1..][i]) <= key(s[1..][j]) {
          assert s[1..][i] == s[i + 1] && s[1..][j] == s[j + 1];
        }
      }
      SortBySorted(s[1..], key);
      assert s == [s[0]] + s[1..];
    }
  }

  /** Filtering on one key value commutes with insertion: `x` lands after
      every element carrying its key. */
  lemma {:induction false} InsertByFilter<T>(x: T, s: seq<T>, key: T -> real, p: T -> bool, v: real)
    requires forall y :: p(y) ==> key(y) == v
    ensures Filter(InsertBy(x, s, key), p) == (if p(x) then [x] else []) + Filter(s, p)
  {
    if |s| == 0 || key(x) <= key(s[0]) {
      assert InsertBy(x, s, key) == [x] + s;
      FilterConcat([x], s, p);
      assert [x][1..] == [];
    } else {
      var rest := s[1..];
      assert s == [s[0]] + rest;
      var tail := InsertBy(x, rest, key);
      assert InsertBy(x, s, key) == [s[0]] + tail;
      InsertByFilter(x, rest, key, p, v);
      FilterConcat([s[0]], tail, p);
      FilterConcat([s[0]], rest, p);
      var fx: seq<T> := if p(x) then [x] else [];
      var f0 := Filter([s[0]], p);
      assert Filter(InsertBy(x, s, key), p) == f0 + (fx + Filter(rest, p));
      assert Filter(s, p) == f0 + Filter(rest, p);
      if p(x) {
        assert [s[0]][1..] == [];
        assert f0 == [];
        assert f0 + (fx + Filter(rest, p)) == fx + Filter(rest, p);
      } else {
        assert fx + Filter(s, p) == Filter(s, p);
      }
    }
  }

  /** Sorting is stable: the rows sharing one key value come out in the order
      they went in. */
  lemma {:induction false} SortByStable<T>(s: seq<T>, key: T -> real, p: T -> bool, v: real)
    requires forall y :: p(y) ==> key(y) == v
    ensures Filter(SortBy(s, key), p) == Filter(s, p)
  {
    if |s| > 0 {
      SortByStable(s[1..], key, p, v);
      InsertByFilter(s[0], SortBy(s[1..], key), key, p, v);
    }
  }
}
