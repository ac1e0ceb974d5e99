/** Newest-first ordering by creation instant. Both the server's `GET /incidents`
    and the cache's reconciliation sort with the comparator
    `(a, b) => date(b.timestamp) - date(a.timestamp)` and rely on the stable
    `Array.prototype.sort`. The model sorts by insertion, and
    `NewestFirstIsUnique` shows that every stable newest-first sort returns the
    same sequence, so the choice of algorithm does not matter. */
module Ordering {
  import opened Incidents

  /** No entry is newer than an entry before it. */
  ghost predicate NewestFirst(s: seq<Incident>) {
    forall i, j :: 0 <= i < j < |s| ==> s[i].timestamp >= s[j].timestamp
  }

  /** The entries created at instant `t`, in their order. A sort is stable
      exactly when it keeps each of these groups as it was. */
  function At(s: seq<Incident>, t: int): seq<Incident> {
    if |s| == 0 then []
    else (if s[0].timestamp == t then [s[0]] else []) + At(s[1..], t)
  }

  lemma {:induction false} AtMembers(s: seq<Incident>, t: int)
    ensures forall x :: x in At(s, t) <==> x in s && x.timestamp == t
  {
    if |s| > 0 {
      AtMembers(s[1..], t);
      assert s == [s[0]] + s[1..];
    }
  }

  /** Places `x` before the first entry that is not newer than it. */
  function Insert(x: Incident, s: seq<Incident>): (r: seq<Incident>)
    ensures multiset(r) == multiset(s) + multiset{x}
  {
    if |s| == 0 || s[0].timestamp <= x.timestamp then [x] + s
    else
      assert s == [s[0]] + s[1..];
      [s[0]] + Insert(x, s[1..])
  }

  /** Every entry of a newest-first sequence is not newer than its head. */
  lemma HeadIsNewest(s: seq<Incident>, y: Incident)
    requires NewestFirst(s) && y in s
    ensures s[0].timestamp >= y.timestamp
  {
    var k :| 0 <= k < |s| && s[k] == y;
    if k > 0 { assert s[0].timestamp >= s[k].timestamp; }
  }

  /** A head that is at least as new as every entry, in front of a
      newest-first tail, gives a newest-first sequence. */
  lemma ConsKeepsOrder(h: Incident, t: seq<Incident>)
    requires NewestFirst(t)
    requires forall y :: y in t ==> h.timestamp >= y.timestamp
    ensures NewestFirst([h] + t)
  {
    var r := [h] + t;
    forall i, j | 0 <= i < j < |r| ensures r[i].timestamp >= r[j].timestamp {
      assert r[j] == t[j - 1];
      if i > 0 { assert r[i] == t[i - 1]; }
    }
  }

  lemma {:induction false} InsertKeepsOrder(x: Incident, s: seq<Incident>)
    requires NewestFirst(s)
    ensures NewestFirst(Insert(x, s))
  {
    if |s| == 0 || s[0].timestamp <= x.timestamp {
      forall y | y in s ensures x.timestamp >= y.timestamp { HeadIsNewest(s, y); }
      ConsKeepsOrder(x, s);
    } else {
      var tail := s[1..];
      assert NewestFirst(tail);
      var rest := Insert(x, tail);
      InsertKeepsOrder(x, tail);
      forall y | y in rest ensures s[0].timestamp >= y.timestamp {
        assert y in multiset(rest);
        if y != x {
          assert y in multiset(tail);
          assert y in s;
          HeadIsNewest(s, y);
        }
      }
      ConsKeepsOrder(s[0], rest);
    }
  }

  /** `[...s].sort(newest first)`. */
  function SortNewestFirst(s: seq<Incident>): (r: seq<Incident>)
    ensures NewestFirst(r)
    ensures multiset(r) == multiset(s)
  {
    if |s| == 0 then []
    else
      assert s == [s[0]] + s[1..];
      InsertKeepsOrder(s[0], SortNewestFirst(s[1..]));
      Insert(s[0], SortNewestFirst(s[1..]))
  }

  /** Inserting `x` adds it at the front of its own timestamp group and leaves
      every other group as it was. */
  lemma {:induction false} InsertAt(x: Incident, s: seq<Incident>, t: int)
    ensures At(Insert(x, s), t) == (if x.timestamp == t then [x] else []) + At(s, t)
  {
    var hx := if x.timestamp == t then [x] else [];
    if |s| == 0 || s[0].timestamp <= x.timestamp {
      var r := [x] + s;
      assert r[0] == x && r[1..] == s;
      assert At(r, t) == hx + At(s, t);
    } else {
      var rest := Insert(x, s[1..]);
      InsertAt(x, s[1..], t);
      var r := [s[0]] + rest;
      assert r[0] == s[0] && r[1..] == rest;
      var h0 := if s[0].timestamp == t then [s[0]] else [];
      assert At(r, t) == h0 + At(rest, t);
      assert At(s, t) == h0 + At(s[1..], t);
      if x.timestamp == t {
        assert h0 == [];
      } else {
        assert hx == [];
      }
      assert h0 + (hx + At(s[1..], t)) == hx + (h0 + At(s[1..], t));
    }
  }

  /** The sort is stable: each timestamp group keeps its original order. */
  lemma {:induction false} SortKeepsGroups(s: seq<Incident>, t: int)
    ensures At(SortNewestFirst(s), t) == At(s, t)
  {
    if |s| > 0 {
      SortKeepsGroups(s[1..], t);
      InsertAt(s[0], SortNewestFirst(s[1..]), t);
    }
  }

  /** The group at `t` of a list with a known first entry. */
  lemma AtCons(h: Incident, s: seq<Incident>, t: int)
    ensures At([h] + s, t) == (if h.timestamp == t then [h] else []) + At(s, t)
  {
    assert ([h] + s)[0] == h && ([h] + s)[1..] == s;
  }

  lemma {:induction false} AtConcat(a: seq<Incident>, b: seq<Incident>, t: int)
    ensures At(a + b, t) == At(a, t) + At(b, t)
  {
    if |a| == 0 {
      assert a + b == b;
    } else {
      var h, rest := a[0], a[1..];
      var k := if h.timestamp == t then [h] else [];
      assert a == [h] + rest;
      assert a + b == [h] + (rest + b);
      AtCons(h, rest + b, t);
      AtCons(h, rest, t);
      AtConcat(rest, b, t);
      var x, y := At(rest, t), At(b, t);
      assert k + (x + y) == (k + x) + y;
    }
  }

  /** Sequences with the same timestamp groups and the same head have the same
      timestamp groups after the head. */
  lemma TailsShareGroups(r1: seq<Incident>, r2: seq<Incident>)
    requires |r1| > 0 && |r2| > 0 && r1[0] == r2[0]
    requires forall t :: At(r1, t) == At(r2, t)
    ensures forall t :: At(r1[1..], t) == At(r2[1..], t)
  {
    forall t ensures At(r1[1..], t) == At(r2[1..], t) {
      var h := if r1[0].timestamp == t then [r1[0]] else [];
      assert At(r1, t) == h + At(r1[1..], t);
      assert At(r2, t) == h + At(r2[1..], t);
      assert At(r1[1..], t) == (h + At(r1[1..], t))[|h|..];
      assert At(r2[1..], t) == (h + At(r2[1..], t))[|h|..];
    }
  }

  /** Non-empty newest-first sequences with the same timestamp groups start
      with the same entry. */
  lemma HeadsAgree(r1: seq<Incident>, r2: seq<Incident>)
    requires |r1| > 0 && |r2| > 0 && NewestFirst(r1) && NewestFirst(r2)
    requires forall t :: At(r1, t) == At(r2, t)
    ensures r1[0] == r2[0]
  {
    AtMembers(r1, r1[0].timestamp);
    AtMembers(r2, r1[0].timestamp);
    assert r1[0] in At(r2, r1[0].timestamp);
    HeadIsNewest(r2, r1[0]);
    AtMembers(r1, r2[0].timestamp);
    AtMembers(r2, r2[0].timestamp);
    assert r2[0] in At(r1, r2[0].timestamp);
    HeadIsNewest(r1, r2[0]);
    var m := r1[0].timestamp;
    assert At(r1, m) == [r1[0]] + At(r1[1..], m);
    assert At(r2, m) == [r2[0]] + At(r2[1..], m);
    assert At(r1, m)[0] == At(r2, m)[0];
  }

  lemma NoGroupsMeansEmpty(r1: seq<Incident>, r2: seq<Incident>)
    requires forall t :: At(r1, t) == At(r2, t)
    ensures |r1| == 0 ==> |r2| == 0
  {
    if |r2| != 0 {
      AtMembers(r2, r2[0].timestamp);
      AtMembers(r1, r2[0].timestamp);
      assert r2[0] in At(r2, r2[0].timestamp);
    }
  }

  /** Two newest-first sequences with the same timestamp groups are equal: a
      stable newest-first sort has exactly one possible result. */
  lemma {:induction false} NewestFirstIsUnique(r1: seq<Incident>, r2: seq<Incident>)
    requires NewestFirst(r1) && NewestFirst(r2)
    requires forall t :: At(r1, t) == At(r2, t)
    ensures r1 == r2
  {
    if |r1| == 0 || |r2| == 0 {
      NoGroupsMeansEmpty(r1, r2);
      NoGroupsMeansEmpty(r2, r1);
    } else {
      HeadsAgree(r1, r2);
      TailsShareGroups(r1, r2);
      assert NewestFirst(r1[1..]) && NewestFirst(r2[1..]);
      NewestFirstIsUnique(r1[1..], r2[1..]);
      assert r1 == [r1[0]] + r1[1..];
      assert r2 == [r2[0]] + r2[1..];
    }
  }

  /** Any newest-first arrangement of `s` that keeps each timestamp group in
      order is `SortNewestFirst(s)`. */
  lemma SortIsCharacterized(s: seq<Incident>, r: seq<Incident>)
    requires NewestFirst(r)
    requires forall t :: At(r, t) == At(s, t)
    ensures r == SortNewestFirst(s)
  {
    forall t ensures At(r, t) == At(SortNewestFirst(s), t) {
      SortKeepsGroups(s, t);
    }
    NewestFirstIsUnique(r, SortNewestFirst(s));
  }
}
