/**
 * The status code endpoints: the full and the active listings, both ordered
 * by `SortOrder`, and the update and delete checks. SQL leaves the order of
 * codes that share a sort order open; the model picks a stable sort over the
 * rows in key order, so such codes keep their key order.
 */
module StatusCodesController {
  import opened Wrappers
  import opened Tables
  import opened Database

  /** Ascending by sort order: each code sorts no later than the next. */
  predicate Sorted(s: seq<StatusCode>)
    decreases |s|
  {
    |s| <= 1 || (s[0].sortOrder <= s[1].sortOrder && Sorted(s[1..]))
  }

  /** The head of a sorted sequence sorts no later than any of its elements. */
  lemma {:induction false} SortedHeadLeast(s: seq<StatusCode>, c: StatusCode)
    requires Sorted(s) && c in s
    ensures s[0].sortOrder <= c.sortOrder
    decreases |s|
  {
    if c != s[0] {
      assert c in s[1..];
      SortedHeadLeast(s[1..], c);
    }
  }

  /** Sorted means every earlier code sorts no later than every later one. */
  lemma {:induction false} SortedMeansOrdered(s: seq<StatusCode>)
    requires Sorted(s)
    ensures forall i, j :: 0 <= i < j < |s| ==> s[i].sortOrder <= s[j].sortOrder
  {
    if |s| > 1 {
      SortedMeansOrdered(s[1..]);
      forall i, j | 0 <= i < j < |s|
        ensures s[i].sortOrder <= s[j].sortOrder
      {
        if i == 0 {
          SortedHeadLeast(s, s[j]);
        } else {
          assert s[i] == s[1..][i - 1] && s[j] == s[1..][j - 1];
        }
      }
    }
  }

  /** Puts `x` before the first element that does not sort below it. */
  function Insert(x: StatusCode, s: seq<StatusCode>): (r: seq<StatusCode>)
    requires Sorted(s)
    ensures Sorted(r)
    ensures |r| == |s| + 1
    ensures r[0] == x || (|s| > 0 && r[0] == s[0])
  {
    if |s| == 0 then [x]
    else if x.sortOrder <= s[0].sortOrder then [x] + s
    else
      var rest := Insert(x, s[1..]);
      assert s == [s[0]] + s[1..];
      assert ([s[0]] + rest)[1..] == rest;
      [s[0]] + rest
  }

  /** `OrderBy(s => s.SortOrder)`: a stable sort. */
  function Sort(s: seq<StatusCode>): (r: seq<StatusCode>)
    ensures Sorted(r)
    ensures |r| == |s|
  {
    if |s| == 0 then [] else Insert(s[0], Sort(s[1..]))
  }

  /** Insertion adds `x` and loses nothing. */
  lemma {:induction false} InsertPermutes(x: StatusCode, s: seq<StatusCode>)
    requires Sorted(s)
    ensures multiset(Insert(x, s)) == multiset(s) + multiset{x}
  {
    if |s| > 0 && x.sortOrder > s[0].sortOrder {
      InsertPermutes(x, s[1..]);
      assert s == [s[0]] + s[1..];
    }
  }

  /** The sort is a permutation of its input. */
  lemma {:induction false} SortPermutes(s: seq<StatusCode>)
    ensures multiset(Sort(s)) == multiset(s)
  {
    if |s| > 0 {
      SortPermutes(s[1..]);
      InsertPermutes(s[0], Sort(s[1..]));
      assert s == [s[0]] + s[1..];
    }
  }

  function IsActive(c: StatusCode): bool { c.isActive }

  /** GET: every code, by sort order. */
  function GetStatusCodes(db: Db): (r: seq<StatusCode>)
    ensures Sorted(r)
    ensures multiset(r) == multiset(Rows(db.statusCodes))
    ensures forall c :: c in r <==> c in db.statusCodes.Values
  {
    var r := Sort(Rows(db.statusCodes));
    SortPermutes(Rows(db.statusCodes));
    assert forall c :: c in r <==> c in multiset(r);
    r
  }

  /** GET active: the active codes, by sort order. */
  function GetActiveStatusCodes(db: Db): (r: seq<StatusCode>)
    ensures Sorted(r)
    ensures forall c :: c in r <==> c in db.statusCodes.Values && c.isActive
  {
    var active := Filter(Rows(db.statusCodes), IsActive);
    var r := Sort(active);
    assert forall c :: c in r <==> c in active by {
      SortPermutes(active);
      forall c
        ensures c in r <==> c in active
      {
        assert (c in r) == (c in multiset(r)) && (c in active) == (c in multiset(active));
      }
    }
    r
  }

  /** An element that sorts no later than the head goes in front. */
  lemma InsertFront(x: StatusCode, s: seq<StatusCode>)
    requires Sorted(s) && (|s| == 0 || x.sortOrder <= s[0].sortOrder)
    ensures Insert(x, s) == [x] + s
  {
  }

  /** An element that sorts after the head goes into the tail. */
  lemma InsertAfterHead(x: StatusCode, s: seq<StatusCode>)
    requires Sorted(s) && |s| > 0 && x.sortOrder > s[0].sortOrder
    ensures Sorted(s[1..])
    ensures Insert(x, s) == [s[0]] + Insert(x, s[1..])
  {
  }

  /** Filtering an insertion: `x` is kept or dropped, the rest filtered in place. */
  lemma {:induction false} FilterInsert(x: StatusCode, s: seq<StatusCode>, keep: StatusCode -> bool)
    requires Sorted(s)
    ensures Sorted(Filter(s, keep))
    ensures Filter(Insert(x, s), keep) == if keep(x) then Insert(x, Filter(s, keep)) else Filter(s, keep)
  {
    FilterSorted(s, keep);
    var f := Filter(s, keep);
    if |s| == 0 || x.sortOrder <= s[0].sortOrder {
      InsertFront(x, s);
      FilterCons(x, s, keep);
      if keep(x) {
        if |f| > 0 {
          assert f[0] in s;
          SortedHeadLeast(s, f[0]);
        }
        InsertFront(x, f);
      }
    } else {
      InsertAfterHead(x, s);
      FilterInsert(x, s[1..], keep);
      FilterInsertLater(x, s, keep);
    }
  }

  /** The step of `FilterInsert` where `x` goes after the head of `s`. */
  lemma FilterInsertLater(x: StatusCode, s: seq<StatusCode>, keep: StatusCode -> bool)
    requires Sorted(s) && |s| > 0 && x.sortOrder > s[0].sortOrder
    requires Sorted(Filter(s, keep)) && Sorted(s[1..]) && Sorted(Filter(s[1..], keep))
    requires Filter(Insert(x, s[1..]), keep) == if keep(x) then Insert(x, Filter(s[1..], keep)) else Filter(s[1..], keep)
    ensures Filter(Insert(x, s), keep) == if keep(x) then Insert(x, Filter(s, keep)) else Filter(s, keep)
  {
    var head := s[0];
    var tail := s[1..];
    var rest := Insert(x, tail);
    var f1 := Filter(tail, keep);
    var f := Filter(s, keep);
    assert Filter(Insert(x, s), keep) == if keep(head) then [head] + Filter(rest, keep) else Filter(rest, keep) by {
      InsertAfterHead(x, s);
      FilterCons(head, rest, keep);
    }
    assert f == if keep(head) then [head] + f1 else f1;
    var lhs := Filter(Insert(x, s), keep);
    if keep(head) && keep(x) {
      assert Insert(x, f) == [head] + Insert(x, f1) by {
        assert f[0] == head && f[1..] == f1;
        InsertAfterHead(x, f);
      }
      assert lhs == [head] + Insert(x, f1);
    } else if keep(head) {
      assert lhs == [head] + f1;
    } else if keep(x) {
      assert lhs == Insert(x, f1);
    } else {
      assert lhs == f1;
    }
  }

  /** A filtered sorted sequence is sorted. */
  lemma {:induction false} FilterSorted(s: seq<StatusCode>, keep: StatusCode -> bool)
    requires Sorted(s)
    ensures Sorted(Filter(s, keep))
  {
    if |s| > 0 {
      FilterSorted(s[1..], keep);
      var f := Filter(s[1..], keep);
      FilterCons(s[0], s[1..], keep);
      assert s == [s[0]] + s[1..];
      if keep(s[0]) && |f| > 0 {
        assert f[0] in s;
        SortedHeadLeast(s, f[0]);
        assert ([s[0]] + f)[1..] == f;
      }
    }
  }

  /** Sorting commutes with filtering. */
  lemma {:induction false} FilterSort(s: seq<StatusCode>, keep: StatusCode -> bool)
    ensures Filter(Sort(s), keep) == Sort(Filter(s, keep))
  {
    if |s| > 0 {
      FilterSort(s[1..], keep);
      FilterInsert(s[0], Sort(s[1..]), keep);
    }
  }

  /** The active listing is the full listing with the inactive codes taken out, in the same order. */
  lemma ActiveIsSubsequenceOfAll(db: Db)
    ensures GetActiveStatusCodes(db) == Filter(GetStatusCodes(db), IsActive)
  {
    FilterSort(Rows(db.statusCodes), IsActive);
  }

  /** A sequence whose elements all share one sort order is left as it is. */
  lemma {:induction false} SortOfEqualOrders(s: seq<StatusCode>, order: int)
    requires forall i :: 0 <= i < |s| ==> s[i].sortOrder == order
    ensures Sort(s) == s
  {
    if |s| > 0 {
      SortOfEqualOrders(s[1..], order);
      assert Sort(s) == Insert(s[0], s[1..]);
      if |s| > 1 {
        assert s[0].sortOrder <= s[1..][0].sortOrder;
      }
      assert Insert(s[0], s[1..]) == [s[0]] + s[1..];
    }
  }

  /**
   * The model's sort is stable: codes with equal sort order come out in the
   * order they went in. This is the model's tie order, not one the store
   * promises.
   */
  lemma SortIsStable(s: seq<StatusCode>, order: int)
    ensures Filter(Sort(s), (c: StatusCode) => c.sortOrder == order) == Filter(s, (c: StatusCode) => c.sortOrder == order)
  {
    var same := (c: StatusCode) => c.sortOrder == order;
    FilterSort(s, same);
    var f := Filter(s, same);
    forall i | 0 <= i < |f|
      ensures f[i].sortOrder == order
    {
      assert f[i] in f;
    }
    SortOfEqualOrders(f, order);
  }

  /** POST: the code is inserted as sent. */
  function PostStatusCode(db: Db, c: StatusCode): (r: (Db, Reply<StatusCode>))
    ensures r.1.Created? || r.1.ServerError?
    ensures r.1.ServerError? <==> c.id != 0 && c.id in db.statusCodes
    ensures r.1.ServerError? ==> r.0 == db
    ensures r.1.Created? ==>
      var k := r.1.value.id;
      && k !in db.statusCodes
      && r.1.value == c.(id := k)
      && r.0 == db.(statusCodes := db.statusCodes[k := r.1.value])
  {
    match AssignKey(db.statusCodes, c.id)
    case None => (db, ServerError)
    case Some(k) =>
      var row := c.(id := k);
      (db.(statusCodes := db.statusCodes[k := row]), Created(row))
  }

  /** PUT {id}: ids must agree and the code be stored. */
  function PutStatusCode(db: Db, id: int, c: StatusCode): (r: (Db, Reply<StatusCode>))
    ensures id != c.id ==> r == (db, BadRequest(""))
    ensures id == c.id && id !in db.statusCodes ==> r == (db, NotFound)
    ensures r.1.NoContent? <==> id == c.id && id in db.statusCodes
    ensures r.1.NoContent? ==> r.0 == db.(statusCodes := db.statusCodes[id := c])
  {
    if id != c.id then (db, BadRequest(""))
    else if id !in db.statusCodes then (db, NotFound)
    else (db.(statusCodes := db.statusCodes[id := c]), NoContent)
  }

  /** DELETE {id}: remove exactly that code. */
  function DeleteStatusCode(db: Db, id: int): (r: (Db, Reply<StatusCode>))
    ensures id !in db.statusCodes ==> r == (db, NotFound)
    ensures id in db.statusCodes ==> r.1.NoContent?
    ensures r.0.(statusCodes := db.statusCodes) == db
    ensures r.0.statusCodes.Keys == db.statusCodes.Keys - {id}
    ensures forall k :: k in r.0.statusCodes ==> r.0.statusCodes[k] == db.statusCodes[k]
  {
    if id !in db.statusCodes then (db, NotFound)
    else (db.(statusCodes := db.statusCodes - {id}), NoContent)
  }

  /** Deactivating a stored code takes it out of the active listing and keeps it in the full one. */
  lemma DeactivatedCodeLeavesActiveListing(db: Db, c: StatusCode)
    requires c.id in db.statusCodes && !c.isActive
    ensures var after := PutStatusCode(db, c.id, c).0;
      && c !in GetActiveStatusCodes(after)
      && c in GetStatusCodes(after)
  {
    var after := PutStatusCode(db, c.id, c).0;
    assert after.statusCodes[c.id] == c;
  }
}
