/** Table scans and "ORDER BY ... DESC": the increasing list of auto-increment
    keys a filter accepts, and a stable insertion sort on a timestamp key. */
module Ordering {

  /** The keys lo <= k < hi accepted by `keep`, in increasing order. */
  function KeysBetween(lo: int, hi: int, keep: int -> bool): (ks: seq<int>)
    decreases hi - lo
    ensures forall i :: 0 <= i < |ks| ==> lo <= ks[i] < hi && keep(ks[i])
    ensures forall k :: lo <= k < hi && keep(k) ==> k in ks
    ensures forall i, j :: 0 <= i < j < |ks| ==> ks[i] < ks[j]
  {
    if hi <= lo then []
    else
      var rest := KeysBetween(lo + 1, hi, keep);
      if keep(lo) then [lo] + rest else rest
  }

  ghost predicate NonIncreasing<T>(s: seq<T>, key: T -> int) {
    forall i, j :: 0 <= i < j < |s| ==> key(s[i]) >= key(s[j])
  }

  ghost predicate Distinct<T>(s: seq<T>) {
    forall i, j :: 0 <= i < j < |s| ==> s[i] != s[j]
  }

  /** Places x before the first element whose key is not larger. */
  function InsertDesc<T>(x: T, s: seq<T>, key: T -> int): (r: seq<T>)
    requires NonIncreasing(s, key)
    ensures NonIncreasing(r, key)
    ensures multiset(r) == multiset(s) + multiset{x}
    ensures |r| == |s| + 1
  {
    if s == [] || key(x) >= key(s[0]) then
      HeadFirst(x, s, key);
      [x] + s
    else
      var tail := InsertDesc(x, s[1..], key);
      assert s == [s[0]] + s[1..];
      HeadBoundsRest(x, s, key, tail);
      HeadFirst(s[0], tail, key);
      [s[0]] + tail
  }

  /** A head no smaller than every later key keeps the order. */
  lemma HeadFirst<T>(h: T, t: seq<T>, key: T -> int)
    requires NonIncreasing(t, key)
    requires forall i :: 0 <= i < |t| ==> key(h) >= key(t[i])
    ensures NonIncreasing([h] + t, key)
  {
    forall i, j | 0 <= i < j < |[h] + t| ensures key(([h] + t)[i]) >= key(([h] + t)[j]) {
      if i > 0 {
        assert ([h] + t)[i] == t[i - 1];
      }
      assert ([h] + t)[j] == t[j - 1];
    }
  }

  /** Everything inserted behind the head of a sorted sequence is bounded by it. */
  lemma HeadBoundsRest<T>(x: T, s: seq<T>, key: T -> int, t: seq<T>)
    requires NonIncreasing(s, key) && s != [] && key(x) < key(s[0])
    requires multiset(t) == multiset(s[1..]) + multiset{x}
    ensures forall i :: 0 <= i < |t| ==> key(s[0]) >= key(t[i])
  {
    forall i | 0 <= i < |t| ensures key(s[0]) >= key(t[i]) {
      assert t[i] in multiset(t);
      if t[i] != x {
        assert t[i] in multiset(s[1..]);
        var j :| 0 <= j < |s[1..]| && s[1..][j] == t[i];
        assert s[j + 1] == t[i];
      }
    }
  }

  /** Newest first: an insertion sort on `key`, descending. */
  function SortDesc<T>(s: seq<T>, key: T -> int): (r: seq<T>)
    ensures NonIncreasing(r, key)
    ensures multiset(r) == multiset(s)
    ensures |r| == |s|
  {
    if s == [] then []
    else
      assert s == [s[0]] + s[1..];
      InsertDesc(s[0], SortDesc(s[1..], key), key)
  }

  /** Sorting keeps exactly the elements it was given. */
  lemma SortDescSameElements<T>(s: seq<T>, key: T -> int)
    ensures forall x :: x in SortDesc(s, key) <==> x in s
  {
    var r := SortDesc(s, key);
    forall x ensures x in r <==> x in s {
      assert x in r <==> x in multiset(r);
      assert x in s <==> x in multiset(s);
    }
  }

  /** A sequence is free of repetitions exactly when no element occurs twice
      in its multiset. */
  lemma {:induction false} DistinctIffSingleCounts<T>(s: seq<T>)
    ensures Distinct(s) <==> forall x :: multiset(s)[x] <= 1
  {
    if s == [] {
    } else {
      var rest := s[1..];
      assert s == [s[0]] + rest;
      DistinctIffSingleCounts(rest);
      if Distinct(s) {
        assert s[0] !in rest;
        assert Distinct(rest) by {
          forall i, j | 0 <= i < j < |rest| ensures rest[i] != rest[j] {
            assert rest[i] == s[i + 1] && rest[j] == s[j + 1];
          }
        }
        forall x ensures multiset(s)[x] <= 1 {
          assert multiset(s)[x] == multiset([s[0]])[x] + multiset(rest)[x];
        }
      } else {
        var i, j :| 0 <= i < j < |s| && s[i] == s[j];
        var x := s[i];
        if i == 0 {
          assert x in rest by { assert rest[j - 1] == s[j]; }
          assert multiset(s)[x] == multiset([s[0]])[x] + multiset(rest)[x];
        } else {
          assert !Distinct(rest) by { assert rest[i - 1] == s[i] && rest[j - 1] == s[j]; }
          var y :| multiset(rest)[y] > 1;
          assert multiset(s)[y] == multiset([s[0]])[y] + multiset(rest)[y];
        }
      }
    }
  }

  /** Reordering keeps a sequence free of repetitions. */
  lemma PermutationKeepsDistinct<T>(s: seq<T>, t: seq<T>)
    requires multiset(s) == multiset(t)
    requires Distinct(s)
    ensures Distinct(t)
  {
    DistinctIffSingleCounts(s);
    DistinctIffSingleCounts(t);
  }
}
