/** The reconciliation at the heart of `mergeIncidents`: the backend list,
    followed by the cached entries whose id the backend does not know, stably
    sorted newest first. Backend copies win on an id collision. */
module Reconcile {
  import opened Incidents
  import opened Ordering

  /** The merged working view for backend list `backend` and cache `cached`. */
  function MergeResult(backend: seq<Incident>, cached: seq<Incident>): seq<Incident> {
    SortNewestFirst(backend + WithoutIds(cached, Ids(backend)))
  }

  /** What the merge contains: exactly the backend entries and the cached
      entries with an unknown id (as a multiset); so every backend entry is
      kept, a cached entry is kept when its id is unknown to the backend, and
      every entry whose id the backend knows is a backend copy. */
  lemma MergeContents(backend: seq<Incident>, cached: seq<Incident>)
    ensures multiset(MergeResult(backend, cached))
         == multiset(backend) + multiset(WithoutIds(cached, Ids(backend)))
    ensures forall x :: x in backend ==> x in MergeResult(backend, cached)
    ensures forall c :: c in cached && c.id !in Ids(backend) ==> c in MergeResult(backend, cached)
    ensures forall x :: x in MergeResult(backend, cached) && x.id in Ids(backend) ==> x in backend
    ensures forall x :: x in MergeResult(backend, cached) ==> x in backend || x in cached
  {
    var rest := WithoutIds(cached, Ids(backend));
    var r := MergeResult(backend, cached);
    WithoutIdsMembers(cached, Ids(backend));
    assert multiset(r) == multiset(backend + rest);
    forall x | x in backend ensures x in r {
      assert x in multiset(backend + rest);
    }
    forall c | c in cached && c.id !in Ids(backend) ensures c in r {
      assert c in rest;
      assert c in multiset(backend + rest);
    }
    forall x | x in r ensures x in backend || x in rest {
      assert x in multiset(r);
      assert x in backend + rest;
    }
  }

  /** The merge is newest first, and among entries with the same instant the
      backend entries come first, each part in its original order. */
  lemma MergeOrder(backend: seq<Incident>, cached: seq<Incident>, t: int)
    ensures NewestFirst(MergeResult(backend, cached))
    ensures At(MergeResult(backend, cached), t)
         == At(backend, t) + At(WithoutIds(cached, Ids(backend)), t)
  {
    var rest := WithoutIds(cached, Ids(backend));
    SortKeepsGroups(backend + rest, t);
    AtConcat(backend, rest, t);
  }

  /** The filter on a list with a known first entry. */
  lemma WithoutIdsCons(h: Incident, s: seq<Incident>, ids: set<int>)
    ensures WithoutIds([h] + s, ids) == (if h.id in ids then [] else [h]) + WithoutIds(s, ids)
  {
    assert ([h] + s)[0] == h && ([h] + s)[1..] == s;
  }

  lemma {:induction false} WithoutIdsConcat(a: seq<Incident>, b: seq<Incident>, ids: set<int>)
    ensures WithoutIds(a + b, ids) == WithoutIds(a, ids) + WithoutIds(b, ids)
  {
    if |a| == 0 {
      assert a + b == b;
    } else {
      var h, t := a[0], a[1..];
      var k := if h.id in ids then [] else [h];
      assert a == [h] + t;
      assert a + b == [h] + (t + b);
      WithoutIdsCons(h, t + b, ids);
      WithoutIdsCons(h, t, ids);
      WithoutIdsConcat(t, b, ids);
      var x, y := WithoutIds(t, ids), WithoutIds(b, ids);
      assert k + (x + y) == (k + x) + y;
    }
  }

  lemma {:induction false} AtWithoutIds(s: seq<Incident>, ids: set<int>, t: int)
    ensures At(WithoutIds(s, ids), t) == WithoutIds(At(s, t), ids)
  {
    if |s| > 0 {
      var tail := s[1..];
      AtWithoutIds(tail, ids, t);
      var h := if s[0].timestamp == t then [s[0]] else [];
      var k := if s[0].id in ids then [] else [s[0]];
      assert At(s, t) == h + At(tail, t);
      assert WithoutIds(s, ids) == k + WithoutIds(tail, ids);
      assert [s[0]][1..] == [];
      assert At(k, t) == WithoutIds(h, ids);
      calc {
        At(WithoutIds(s, ids), t);
        At(k + WithoutIds(tail, ids), t);
        { AtConcat(k, WithoutIds(tail, ids), t); }
        At(k, t) + At(WithoutIds(tail, ids), t);
        WithoutIds(h, ids) + WithoutIds(At(tail, t), ids);
        { WithoutIdsConcat(h, At(tail, t), ids); }
        WithoutIds(h + At(tail, t), ids);
        WithoutIds(At(s, t), ids);
      }
    }
  }

  lemma {:induction false} WithoutIdsKeepsOrder(s: seq<Incident>, ids: set<int>)
    requires NewestFirst(s)
    ensures NewestFirst(WithoutIds(s, ids))
  {
    if |s| > 0 {
      assert NewestFirst(s[1..]);
      WithoutIdsKeepsOrder(s[1..], ids);
      var rest := WithoutIds(s[1..], ids);
      if s[0].id !in ids {
        WithoutIdsMembers(s[1..], ids);
        forall y | y in rest ensures s[0].timestamp >= y.timestamp {
          assert y in s[1..];
          HeadIsNewest(s, y);
        }
        ConsKeepsOrder(s[0], rest);
      }
    }
  }

  /** Dropping ids commutes with the stable sort. */
  lemma SortWithoutIds(s: seq<Incident>, ids: set<int>)
    ensures WithoutIds(SortNewestFirst(s), ids) == SortNewestFirst(WithoutIds(s, ids))
  {
    var r := WithoutIds(SortNewestFirst(s), ids);
    WithoutIdsKeepsOrder(SortNewestFirst(s), ids);
    forall t ensures At(r, t) == At(WithoutIds(s, ids), t) {
      AtWithoutIds(SortNewestFirst(s), ids, t);
      SortKeepsGroups(s, t);
      AtWithoutIds(s, ids, t);
    }
    SortIsCharacterized(WithoutIds(s, ids), r);
  }

  lemma {:induction false} WithoutOwnIds(s: seq<Incident>, ids: set<int>)
    requires Ids(s) <= ids
    ensures WithoutIds(s, ids) == []
  {
    if |s| > 0 {
      assert s[0] in s;
      assert Ids(s[1..]) <= Ids(s) by {
        forall x | x in s[1..] ensures x in s { }
      }
      WithoutOwnIds(s[1..], ids);
    }
  }

  lemma {:induction false} WithoutIdsTwice(s: seq<Incident>, ids: set<int>)
    ensures WithoutIds(WithoutIds(s, ids), ids) == WithoutIds(s, ids)
  {
    if |s| > 0 {
      WithoutIdsTwice(s[1..], ids);
    }
  }

  /** On a second pass, dropping the backend ids from the first result leaves
      the cached part of the first pass, now sorted. */
  lemma SecondPassKeepsCachedPart(backend: seq<Incident>, cached: seq<Incident>)
    ensures WithoutIds(MergeResult(backend, cached), Ids(backend))
         == SortNewestFirst(WithoutIds(cached, Ids(backend)))
  {
    var ids := Ids(backend);
    var rest := WithoutIds(cached, ids);
    calc {
      WithoutIds(MergeResult(backend, cached), ids);
      WithoutIds(SortNewestFirst(backend + rest), ids);
      { SortWithoutIds(backend + rest, ids); }
      SortNewestFirst(WithoutIds(backend + rest, ids));
      { WithoutIdsConcat(backend, rest, ids); }
      SortNewestFirst(WithoutIds(backend, ids) + WithoutIds(rest, ids));
      { WithoutOwnIds(backend, ids); WithoutIdsTwice(cached, ids); assert [] + rest == rest; }
      SortNewestFirst(rest);
    }
  }

  /** Sorting the tail first does not change the stable sort of the whole. */
  lemma PresortedTail(head: seq<Incident>, tail: seq<Incident>)
    ensures SortNewestFirst(head + SortNewestFirst(tail)) == SortNewestFirst(head + tail)
  {
    var r := SortNewestFirst(head + SortNewestFirst(tail));
    forall t ensures At(r, t) == At(head + tail, t) {
      SortKeepsGroups(head + SortNewestFirst(tail), t);
      AtConcat(head, SortNewestFirst(tail), t);
      SortKeepsGroups(tail, t);
      AtConcat(head, tail, t);
    }
    SortIsCharacterized(head + tail, r);
  }

  /** Reconciling a second time against the same backend list, with the cache
      holding the first result, changes nothing. */
  lemma MergeIsIdempotent(backend: seq<Incident>, cached: seq<Incident>)
    ensures MergeResult(backend, MergeResult(backend, cached)) == MergeResult(backend, cached)
  {
    SecondPassKeepsCachedPart(backend, cached);
    PresortedTail(backend, WithoutIds(cached, Ids(backend)));
  }

  /** The worked precedence case: the backend copy of incident 1 replaces the
      cached one and the cache-only incident 2 is kept, newest first. */
  lemma PrecedenceExample()
    ensures
      var backendOne := Incident(1, "fire", "d", "l", "open", false, 10);
      var cachedOne := backendOne.(status := "resolved");
      var cachedTwo := Incident(2, "medical", "d", "l", "open", false, 5);
      MergeResult([backendOne], [cachedOne, cachedTwo]) == [backendOne, cachedTwo]
  {
    var backendOne := Incident(1, "fire", "d", "l", "open", false, 10);
    var cachedOne := backendOne.(status := "resolved");
    var cachedTwo := Incident(2, "medical", "d", "l", "open", false, 5);
    assert Ids([backendOne]) == {1};
    assert WithoutIds([cachedOne, cachedTwo], {1}) == [cachedTwo] by {
      assert [cachedOne, cachedTwo][1..] == [cachedTwo];
      assert [cachedTwo][1..] == [];
    }
    assert [backendOne, cachedTwo][1..] == [cachedTwo];
    assert [cachedTwo][1..] == [];
  }
}
