/**
 * A stable insertion sort over an ordering `le` ("a may come before b").
 * It stands for `Array.prototype.sort` on a copy (stable since ES2019) and
 * for the `ORDER BY` of the backend's select.
 */
module Sorting {

  /** `le` is total and transitive, as every comparator in the storefront is. */
  ghost predicate TotalPreorder<T(!new)>(le: (T, T) -> bool)
  {
    && (forall a, b :: le(a, b) || le(b, a))
    && (forall a, b, c :: le(a, b) && le(b, c) ==> le(a, c))
  }

  ghost predicate SortedBy<T>(s: seq<T>, le: (T, T) -> bool)
  {
    forall i, j :: 0 <= i < j < |s| ==> le(s[i], s[j])
  }

  /** No two positions of `s` share a key. */
  ghost predicate InjectiveOn<T, K>(s: seq<T>, key: T -> K)
  {
    forall i, j :: 0 <= i < j < |s| ==> key(s[i]) != key(s[j])
  }

  /** Puts `x` in front of the first element it may precede. */
  function Insert<T>(x: T, s: seq<T>, le: (T, T) -> bool): (r: seq<T>)
    ensures multiset(r) == multiset(s) + multiset{x}
  {
    if s == [] then [x]
    else if le(x, s[0]) then [x] + s
    else
      assert s == [s[0]] + s[1..];
      [s[0]] + Insert(x, s[1..], le)
  }

  function SortBy<T>(s: seq<T>, le: (T, T) -> bool): (r: seq<T>)
    ensures multiset(r) == multiset(s)
    ensures |r| == |s|
  {
    if s == [] then []
    else
      assert s == [s[0]] + s[1..];
      Insert(s[0], SortBy(s[1..], le), le)
  }

  /** What totality and transitivity give at one triple; keeps the quantifiers out of the larger proofs. */
  lemma PreorderAt<T(!new)>(le: (T, T) -> bool, a: T, b: T, c: T)
    requires TotalPreorder(le)
    ensures le(a, b) || le(b, a)
    ensures le(a, b) && le(b, c) ==> le(a, c)
  {
  }

  lemma SortedTail<T>(s: seq<T>, le: (T, T) -> bool)
    requires s != [] && SortedBy(s, le)
    ensures SortedBy(s[1..], le)
  {
    forall i, j | 0 <= i < j < |s[1..]| ensures le(s[1..][i], s[1..][j]) {
      assert s[1..][i] == s[i + 1] && s[1..][j] == s[j + 1];
    }
  }

  /** A sorted sequence stays sorted with an element in front that may precede all of it. */
  lemma SortedCons<T>(y: T, t: seq<T>, le: (T, T) -> bool)
    requires SortedBy(t, le)
    requires forall j :: 0 <= j < |t| ==> le(y, t[j])
    ensures SortedBy([y] + t, le)
  {
    var r := [y] + t;
    forall i, j | 0 <= i < j < |r| ensures le(r[i], r[j]) {
      assert r[j] == t[j - 1];
      if i > 0 {
        assert r[i] == t[i - 1];
      }
    }
  }

  /** Every element of `t` is `x` or an element of `rest`. */
  lemma ElementsOfInsert<T>(x: T, rest: seq<T>, t: seq<T>, j: int)
    requires multiset(t) == multiset(rest) + multiset{x}
    requires 0 <= j < |t| && t[j] != x
    ensures exists k :: 0 <= k < |rest| && rest[k] == t[j]
  {
    assert t[j] in multiset(t);
    assert t[j] in multiset(rest);
  }

  lemma {:induction false} InsertKeepsSorted<T(!new)>(x: T, s: seq<T>, le: (T, T) -> bool)
    requires TotalPreorder(le) && SortedBy(s, le)
    ensures SortedBy(Insert(x, s, le), le)
  {
    if s == [] {
    } else if le(x, s[0]) {
      forall j | 0 <= j < |s| ensures le(x, s[j]) {
        PreorderAt(le, x, s[0], s[j]);
      }
      SortedCons(x, s, le);
    } else {
      var t := Insert(x, s[1..], le);
      SortedTail(s, le);
      InsertKeepsSorted(x, s[1..], le);
      forall j | 0 <= j < |t| ensures le(s[0], t[j]) {
        if t[j] == x {
          PreorderAt(le, x, s[0], s[0]);
        } else {
          ElementsOfInsert(x, s[1..], t, j);
          var k :| 0 <= k < |s[1..]| && s[1..][k] == t[j];
          assert s[k + 1] == t[j];
        }
      }
      SortedCons(s[0], t, le);
    }
  }

  lemma {:induction false} SortByIsSorted<T(!new)>(s: seq<T>, le: (T, T) -> bool)
    requires TotalPreorder(le)
    ensures SortedBy(SortBy(s, le), le)
  {
    if s != [] {
      SortByIsSorted(s[1..], le);
      InsertKeepsSorted(s[0], SortBy(s[1..], le), le);
    }
  }

  /** An element whose key differs from every key of an injective sequence can go in front of it. */
  lemma InjectiveCons<T, K>(y: T, t: seq<T>, key: T -> K)
    requires InjectiveOn(t, key)
    requires forall j :: 0 <= j < |t| ==> key(t[j]) != key(y)
    ensures InjectiveOn([y] + t, key)
  {
    var r := [y] + t;
    forall i, j | 0 <= i < j < |r| ensures key(r[i]) != key(r[j]) {
      assert r[j] == t[j - 1];
      if i > 0 {
        assert r[i] == t[i - 1];
      }
    }
  }

  lemma {:induction false} InsertKeepsInjective<T, K>(x: T, s: seq<T>, le: (T, T) -> bool, key: T -> K)
    requires InjectiveOn(s, key)
    requires forall i :: 0 <= i < |s| ==> key(s[i]) != key(x)
    ensures InjectiveOn(Insert(x, s, le), key)
  {
    if s == [] {
    } else if le(x, s[0]) {
      InjectiveCons(x, s, key);
    } else {
      var tail := s[1..];
      assert InjectiveOn(tail, key) by {
        forall i, j | 0 <= i < j < |tail| ensures key(tail[i]) != key(tail[j]) {
          assert tail[i] == s[i + 1] && tail[j] == s[j + 1];
        }
      }
      assert forall i :: 0 <= i < |tail| ==> tail[i] == s[i + 1];
      InsertKeepsInjective(x, tail, le, key);
      var t := Insert(x, tail, le);
      forall j | 0 <= j < |t| ensures key(t[j]) != key(s[0]) {
        if t[j] != x {
          ElementsOfInsert(x, tail, t, j);
          var k :| 0 <= k < |tail| && tail[k] == t[j];
          assert s[k + 1] == t[j];
        }
      }
      InjectiveCons(s[0], t, key);
    }
  }

  lemma {:induction false} SortByKeepsInjective<T, K>(s: seq<T>, le: (T, T) -> bool, key: T -> K)
    requires InjectiveOn(s, key)
    ensures InjectiveOn(SortBy(s, le), key)
  {
    if s != [] {
      var t := SortBy(s[1..], le);
      SortByKeepsInjective(s[1..], le, key);
      forall i | 0 <= i < |t| ensures key(t[i]) != key(s[0]) {
        assert t[i] in multiset(t);
        assert t[i] in multiset(s[1..]);
        var k :| 0 <= k < |s[1..]| && s[1..][k] == t[i];
        assert s[k + 1] == t[i];
      }
      InsertKeepsInjective(s[0], t, le, key);
    }
  }
}
