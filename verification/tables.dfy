/**
 * Tables of the relational store as maps from primary key to row, the
 * replies a controller action returns, and the sequence helpers that
 * listings and the frontend store share.
 */
module Tables {
  import opened Wrappers

  /**
   * The outcome of a controller action, as an HTTP status: 200 with a body,
   * 201 with the created row, 204, 400 with a message (empty for a bare
   * `BadRequest()`), 404, or 500 for an exception the action does not catch.
   */
  datatype Reply<+T> =
    | Ok(value: T)
    | Created(value: T)
    | NoContent
    | BadRequest(message: string)
    | NotFound
    | ServerError

  /** A set holding `y` has a least element. */
  lemma MinExists(s: set<int>, y: int)
    requires y in s
    ensures exists k :: k in s && forall x :: x in s ==> k <= x
    decreases |s|
  {
    var rest := s - {y};
    if exists z :: z in rest {
      var z :| z in rest;
      MinExists(rest, z);
      var k :| k in rest && forall x :: x in rest ==> k <= x;
      var m := if y < k then y else k;
      forall x | x in s
        ensures m <= x
      {
        if x != y {
          assert x in rest;
        }
      }
      assert m in s;
    } else {
      assert forall x :: x in s ==> x == y;
    }
  }

  /** A set holding `y` has a greatest element. */
  lemma MaxExists(s: set<int>, y: int)
    requires y in s
    ensures exists k :: k in s && forall x :: x in s ==> x <= k
    decreases |s|
  {
    var rest := s - {y};
    if exists z :: z in rest {
      var z :| z in rest;
      MaxExists(rest, z);
      var k :| k in rest && forall x :: x in rest ==> x <= k;
      var m := if y > k then y else k;
      forall x | x in s
        ensures x <= m
      {
        if x != y {
          assert x in rest;
        }
      }
      assert m in s;
    } else {
      assert forall x :: x in s ==> x == y;
    }
  }

  lemma MinOfSome(s: set<int>)
    requires exists k :: k in s
    ensures exists k :: k in s && forall x :: x in s ==> k <= x
  {
    var y :| y in s;
    MinExists(s, y);
  }

  lemma MaxOfSome(s: set<int>)
    requires exists k :: k in s
    ensures exists k :: k in s && forall x :: x in s ==> x <= k
  {
    var y :| y in s;
    MaxExists(s, y);
  }

  /** The smallest key of a non-empty set. */
  function MinKey(s: set<int>): (k: int)
    requires exists k :: k in s
    ensures k in s && forall x :: x in s ==> k <= x
  {
    MinOfSome(s);
    var k :| k in s && forall x :: x in s ==> k <= x;
    k
  }

  /** The largest key of a non-empty set. */
  function MaxKey(s: set<int>): (k: int)
    requires exists k :: k in s
    ensures k in s && forall x :: x in s ==> x <= k
  {
    MaxOfSome(s);
    var k :| k in s && forall x :: x in s ==> x <= k;
    k
  }

  /** The keys of a set in ascending order. */
  function SortedKeys(s: set<int>): (r: seq<int>)
    ensures |r| == |s|
    ensures forall k :: k in s <==> k in r
    ensures forall i, j :: 0 <= i < j < |r| ==> r[i] < r[j]
    decreases |s|
  {
    if exists k :: k in s then
      var k := MinKey(s);
      var rest := SortedKeys(s - {k});
      SortedKeysStep(s, k, rest);
      [k] + rest
    else
      assert s == {};
      []
  }

  /** The smallest key in front of the others in ascending order is all of them in ascending order. */
  lemma SortedKeysStep(s: set<int>, k: int, rest: seq<int>)
    requires k in s && forall x :: x in s ==> k <= x
    requires |rest| == |s - {k}|
    requires forall x :: x in s - {k} <==> x in rest
    requires forall i, j :: 0 <= i < j < |rest| ==> rest[i] < rest[j]
    ensures |[k] + rest| == |s|
    ensures forall x :: x in s <==> x in [k] + rest
    ensures forall i, j :: 0 <= i < j < |[k] + rest| ==> ([k] + rest)[i] < ([k] + rest)[j]
  {
    var r := [k] + rest;
    forall j | 0 <= j < |rest|
      ensures k < rest[j]
    {
      assert rest[j] in rest;
      assert rest[j] in s - {k};
    }
    forall i, j | 0 <= i < j < |r|
      ensures r[i] < r[j]
    {
      if i == 0 {
        assert r[j] == rest[j - 1];
      } else {
        assert r[i] == rest[i - 1] && r[j] == rest[j - 1];
      }
    }
  }

  /** The rows of a table in primary-key order, the order an unordered query returns them in. */
  function Rows<T(==,!new)>(m: map<int, T>): (r: seq<T>)
    ensures |r| == |m|
    ensures forall v :: v in r <==> v in m.Values
  {
    var keys := SortedKeys(m.Keys);
    var r := seq(|keys|, i requires 0 <= i < |keys| => m[keys[i]]);
    assert |r| == |m| by {
      assert |m.Keys| == |m|;
    }
    assert forall v :: v in r ==> v in m.Values by {
      forall v | v in r
        ensures v in m.Values
      {
        var i :| 0 <= i < |r| && r[i] == v;
        assert keys[i] in m && m[keys[i]] == v;
      }
    }
    assert forall v :: v in m.Values ==> v in r by {
      forall v | v in m.Values
        ensures v in r
      {
        var k :| k in m && m[k] == v;
        var i :| 0 <= i < |keys| && keys[i] == k;
        assert r[i] == v;
      }
    }
    r
  }

  /**
   * The key a row gets on insert into the SQLite store. A row whose id is 0
   * (the unset default) gets a key no row holds: here one more than the
   * largest key in use, or 1 in an empty table. SQLite's AUTOINCREMENT column
   * instead takes one more than the largest key the table has ever held, a
   * high-water mark this model does not keep. A row with an explicit id keeps
   * it, and the insert fails (`None`) when that key is taken.
   */
  function AssignKey<T>(m: map<int, T>, requested: int): (r: Option<int>)
    ensures r.Some? ==> r.value !in m
    ensures requested != 0 ==> (r.Some? <==> requested !in m)
    ensures requested != 0 && r.Some? ==> r.value == requested
    ensures requested == 0 ==> r.Some?
  {
    if requested != 0 then (if requested in m then None else Some(requested))
    else if exists k :: k in m.Keys then Some(MaxKey(m.Keys) + 1)
    else Some(1)
  }

  /** A value of a table is stored under some key. */
  lemma ValueHasKey<T(!new)>(m: map<int, T>, x: T)
    requires x in m.Values
    ensures exists k :: k in m && m[k] == x
  {
    var r := Rows(m);
    var keys := SortedKeys(m.Keys);
    var i :| 0 <= i < |r| && r[i] == x;
    assert m[keys[i]] == x;
  }

  /** Storing a value under a fresh key leaves every other value's membership as it was. */
  lemma FreshKeyOtherValues<T(!new)>(m: map<int, T>, k: int, v: T, x: T)
    requires k !in m && x != v
    ensures x in m[k := v].Values <==> x in m.Values
  {
    if x in m.Values {
      ValueHasKey(m, x);
      var j :| j in m && m[j] == x;
      assert m[k := v][j] == x;
    }
    var updated := m[k := v];
    if x in updated.Values {
      ValueHasKey(updated, x);
      var j :| j in updated && updated[j] == x;
      assert m[j] == x;
    }
  }

  /** The elements of `xs` that satisfy `keep`, in their original order. */
  function Filter<T(!new)>(xs: seq<T>, keep: T -> bool): (r: seq<T>)
    ensures |r| <= |xs|
    ensures forall x :: x in r <==> x in xs && keep(x)
  {
    if |xs| == 0 then []
    else if keep(xs[0]) then [xs[0]] + Filter(xs[1..], keep)
    else Filter(xs[1..], keep)
  }

  /** Filtering distributes over concatenation: it keeps the relative order of what it keeps. */
  lemma {:induction false} FilterConcat<T(!new)>(xs: seq<T>, ys: seq<T>, keep: T -> bool)
    ensures Filter(xs + ys, keep) == Filter(xs, keep) + Filter(ys, keep)
  {
    if |xs| == 0 {
      assert xs + ys == ys;
    } else {
      var x, rest := xs[0], xs[1..];
      assert xs + ys == [x] + (rest + ys) by {
        assert xs == [x] + rest;
      }
      FilterCons(x, rest + ys, keep);
      FilterConcat(rest, ys, keep);
      if keep(x) {
        var a, b := Filter(rest, keep), Filter(ys, keep);
        assert [x] + (a + b) == ([x] + a) + b;
      }
    }
  }

  /** Filtering a sequence with a given head: the head is kept or dropped, the tail filtered. */
  lemma FilterCons<T(!new)>(y: T, ys: seq<T>, keep: T -> bool)
    ensures Filter([y] + ys, keep) == if keep(y) then [y] + Filter(ys, keep) else Filter(ys, keep)
  {
    assert ([y] + ys)[0] == y;
    assert ([y] + ys)[1..] == ys;
  }

  /** Filtering leaves a sequence alone when every element is kept. */
  lemma {:induction false} FilterAll<T(!new)>(xs: seq<T>, keep: T -> bool)
    requires forall i :: 0 <= i < |xs| ==> keep(xs[i])
    ensures Filter(xs, keep) == xs
  {
    if |xs| > 0 {
      FilterAll(xs[1..], keep);
    }
  }

  /** The position of the first element satisfying `hit` (`findIndex`), if any. */
  function FirstIndex<T>(xs: seq<T>, hit: T -> bool): (r: Option<nat>)
    ensures r.Some? ==> r.value < |xs| && hit(xs[r.value])
    ensures r.Some? ==> forall j :: 0 <= j < r.value ==> !hit(xs[j])
    ensures r.None? ==> forall j :: 0 <= j < |xs| ==> !hit(xs[j])
  {
    if |xs| == 0 then None
    else if hit(xs[0]) then Some(0)
    else
      match FirstIndex(xs[1..], hit)
      case None => None
      case Some(i) => Some(i + 1)
  }

  /**
   * `findIndex` followed by `splice(index, 1, y)`: the first element
   * satisfying `hit` is replaced by `y`; with no such element nothing changes.
   */
  function ReplaceFirst<T>(xs: seq<T>, hit: T -> bool, y: T): (r: seq<T>)
    ensures |r| == |xs|
    ensures FirstIndex(xs, hit).None? ==> r == xs
    ensures FirstIndex(xs, hit).Some? ==>
      var i := FirstIndex(xs, hit).value;
      r[i] == y && forall j :: 0 <= j < |xs| && j != i ==> r[j] == xs[j]
  {
    match FirstIndex(xs, hit)
    case None => xs
    case Some(i) => xs[i := y]
  }

  /** `a` is `b` with some elements left out, the rest in their order. */
  predicate SubsequenceOf<T(==)>(a: seq<T>, b: seq<T>)
    decreases |b|
  {
    if |a| == 0 then true
    else if |b| == 0 then false
    else if a[0] == b[0] then SubsequenceOf(a[1..], b[1..])
    else SubsequenceOf(a, b[1..])
  }

  /**
   * `r` is what `xs.filter(keep)` returns: a subsequence of `xs` holding
   * every element `keep` accepts as often as `xs` does, and nothing else.
   */
  ghost predicate FilteredFrom<T(!new)>(r: seq<T>, xs: seq<T>, keep: T -> bool)
  {
    && SubsequenceOf(r, xs)
    && forall x :: multiset(r)[x] == if keep(x) then multiset(xs)[x] else 0
  }

  /** `Filter` is `filter`: order and multiplicity of the kept elements are preserved. */
  lemma FilterIsFilteredFrom<T(!new)>(xs: seq<T>, keep: T -> bool)
    ensures FilteredFrom(Filter(xs, keep), xs, keep)
  {
    FilterIsSubsequence(xs, keep);
    FilterCounts(xs, keep);
  }

  /** Filtering keeps each accepted element as often as it occurs, and drops the others. */
  lemma {:induction false} FilterCounts<T(!new)>(xs: seq<T>, keep: T -> bool)
    ensures forall x :: multiset(Filter(xs, keep))[x] == if keep(x) then multiset(xs)[x] else 0
  {
    if |xs| > 0 {
      FilterCounts(xs[1..], keep);
      assert xs == [xs[0]] + xs[1..];
      assert multiset(xs) == multiset{xs[0]} + multiset(xs[1..]);
    }
  }

  /** Filtering keeps the order of what it keeps. */
  lemma {:induction false} FilterIsSubsequence<T(!new)>(xs: seq<T>, keep: T -> bool)
    ensures SubsequenceOf(Filter(xs, keep), xs)
  {
    if |xs| > 0 {
      FilterIsSubsequence(xs[1..], keep);
    }
  }

  /**
   * Replacing an element the filter drops by another it drops does not
   * change what the filter keeps.
   */
  lemma {:induction false} FilterReplaceDropped<T(!new)>(xs: seq<T>, i: nat, y: T, keep: T -> bool)
    requires i < |xs| && !keep(xs[i]) && !keep(y)
    ensures Filter(xs[i := y], keep) == Filter(xs, keep)
  {
    if i > 0 {
      FilterReplaceDropped(xs[1..], i - 1, y, keep);
      assert xs[i := y][1..] == xs[1..][i - 1 := y];
    } else {
      assert xs[i := y][1..] == xs[1..];
    }
  }
}
