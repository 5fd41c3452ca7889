/** The sequence operations queries and streams are made of: filtering
    (`WHERE`, `filter`), and ordering (`ORDER BY`, `sorted`) by a sort key of
    up to three integer columns compared lexicographically. */
module Sequences {
  /** A sort key: compared on `first`, then `second`, then `third`. A
      descending column enters negated; an unused column is 0. */
  datatype Key = Key(first: int, second: int, third: int)

  predicate KeyLe(a: Key, b: Key) {
    || a.first < b.first
    || (a.first == b.first && (a.second < b.second || (a.second == b.second && a.third <= b.third)))
  }

  /** Every element's key is at most the key of every later element. */
  predicate Sorted<T>(s: seq<T>, key: T -> Key) {
    forall i, j :: 0 <= i < j < |s| ==> KeyLe(key(s[i]), key(s[j]))
  }

  /** The head of a sorted sequence is at most every element of any
      sequence made of its tail and one element not below it. */
  lemma HeadBelow<T>(h: T, tail: seq<T>, x: T, rest: seq<T>, key: T -> Key)
    requires Sorted([h] + tail, key) && KeyLe(key(h), key(x))
    requires multiset(rest) == multiset(tail) + multiset{x}
    ensures forall j :: 0 <= j < |rest| ==> KeyLe(key(h), key(rest[j]))
  {
    forall j | 0 <= j < |rest|
      ensures KeyLe(key(h), key(rest[j]))
    {
      assert rest[j] in multiset(rest);
      if rest[j] != x {
        assert rest[j] in multiset(tail);
        var k :| 0 <= k < |tail| && tail[k] == rest[j];
        assert ([h] + tail)[0] == h && ([h] + tail)[k + 1] == tail[k];
        assert KeyLe(key(([h] + tail)[0]), key(([h] + tail)[k + 1]));
      }
    }
  }

  /** Puts `x` into a sorted sequence, before the first element whose key is
      not below its own. */
  function Insert<T>(x: T, s: seq<T>, key: T -> Key): (r: seq<T>)
    requires Sorted(s, key)
    ensures Sorted(r, key)
    ensures multiset(r) == multiset(s) + multiset{x}
    ensures |r| == |s| + 1
  {
    if |s| == 0 then [x]
    else if KeyLe(key(x), key(s[0])) then
      assert forall j :: 0 <= j < |s| ==> KeyLe(key(x), key(s[j])) by {
        forall j | 0 <= j < |s| ensures KeyLe(key(x), key(s[j])) {
          if j > 0 {
            assert KeyLe(key(s[0]), key(s[j]));
          }
        }
      }
      [x] + s
    else
      assert s == [s[0]] + s[1..];
      var rest := Insert(x, s[1..], key);
      HeadBelow(s[0], s[1..], x, rest, key);
      [s[0]] + rest
  }

  /** The elements of `s` ordered by `key`: a sorted permutation of `s`. */
  function SortBy<T>(s: seq<T>, key: T -> Key): (r: seq<T>)
    ensures Sorted(r, key)
    ensures multiset(r) == multiset(s)
    ensures |r| == |s|
  {
    if |s| == 0 then []
    else
      assert s == [s[0]] + s[1..];
      Insert(s[0], SortBy(s[1..], key), key)
  }

  /** A contiguous part of a sorted sequence is sorted. */
  lemma SortedSlice<T>(s: seq<T>, lo: int, hi: int, key: T -> Key)
    requires Sorted(s, key) && 0 <= lo <= hi <= |s|
    ensures Sorted(s[lo..hi], key)
  {
    forall i, j | 0 <= i < j < hi - lo
      ensures KeyLe(key(s[lo..hi][i]), key(s[lo..hi][j]))
    {
      assert s[lo..hi][i] == s[lo + i] && s[lo..hi][j] == s[lo + j];
    }
  }

  /** The rows of `s` that satisfy `keep`, in their order. */
  function Filter<T(!new)>(s: seq<T>, keep: T -> bool): (r: seq<T>)
    ensures |r| <= |s|
    ensures forall x :: x in r <==> x in s && keep(x)
    ensures forall x :: multiset(r)[x] == if keep(x) then multiset(s)[x] else 0
  {
    if |s| == 0 then []
    else
      assert s == [s[0]] + s[1..];
      var rest := Filter(s[1..], keep);
      if keep(s[0]) then [s[0]] + rest else rest
  }
}
