/** The counting aggregations over a cache snapshot: `getIncidentsByType`,
    `getIncidentsByStatusGrouped` and the integer counts of `getStorageStats`. */
module Statistics {
  import opened Incidents

  /** The label an incident is grouped under by type: `incident.type || 'unknown'`. */
  function KindKey(x: Incident): (r: string)
    ensures r != ""
    ensures x.kind != "" ==> r == x.kind
  {
    if x.kind == "" then "unknown" else x.kind
  }

  /** The status an incident is counted under: `incident.status || 'open'`. */
  function StatusKey(x: Incident): (r: string)
    ensures r != ""
    ensures x.status != "" ==> r == x.status
  {
    if x.status == "" then "open" else x.status
  }

  /** How many entries are grouped under type label `key`. */
  function CountKind(s: seq<Incident>, key: string): nat {
    if |s| == 0 then 0
    else CountKind(s[..|s| - 1], key) + (if KindKey(s[|s| - 1]) == key then 1 else 0)
  }

  /** How many entries are counted under status `key`. */
  function CountStatus(s: seq<Incident>, key: string): nat {
    if |s| == 0 then 0
    else CountStatus(s[..|s| - 1], key) + (if StatusKey(s[|s| - 1]) == key then 1 else 0)
  }

  ghost predicate Distinct(keys: seq<string>) {
    forall i, j :: 0 <= i < j < |keys| ==> keys[i] != keys[j]
  }

  /** The type labels in order of first occurrence: the key order of the
      dictionary `getIncidentsByType` fills. */
  ghost function KindsInOrder(s: seq<Incident>): (r: seq<string>)
    ensures Distinct(r)
  {
    if |s| == 0 then []
    else
      var ks := KindsInOrder(s[..|s| - 1]);
      var k := KindKey(s[|s| - 1]);
      if k in ks then ks else ks + [k]
  }

  /** A label is listed exactly when some entry is grouped under it. */
  lemma {:induction false} KindsListed(s: seq<Incident>, k: string)
    ensures k in KindsInOrder(s) <==> CountKind(s, k) > 0
  {
    if |s| > 0 {
      KindsListed(s[..|s| - 1], k);
    }
  }

  /** Counting one more entry. */
  lemma CountKindStep(t: seq<Incident>, x: Incident)
    ensures KindsInOrder(t + [x]) ==
      if KindKey(x) in KindsInOrder(t) then KindsInOrder(t) else KindsInOrder(t) + [KindKey(x)]
    ensures forall k {:trigger CountKind(t + [x], k)} ::
      CountKind(t + [x], k) == CountKind(t, k) + (if KindKey(x) == k then 1 else 0)
  {
    assert (t + [x])[..|t|] == t;
  }

  /** Sum of the dictionary's counts over the keys `order`. */
  function SumOver(order: seq<string>, tally: map<string, nat>): nat
    requires forall k :: k in order ==> k in tally
  {
    if |order| == 0 then 0
    else SumOver(order[..|order| - 1], tally) + tally[order[|order| - 1]]
  }

  lemma {:induction false} SumOverOthers(order: seq<string>, tally: map<string, nat>, k: string, n: nat)
    requires forall j :: j in order ==> j in tally
    requires k !in order
    ensures SumOver(order, tally[k := n]) == SumOver(order, tally)
  {
    if |order| > 0 {
      SumOverOthers(order[..|order| - 1], tally, k, n);
    }
  }

  lemma {:induction false} SumOverIncrement(order: seq<string>, tally: map<string, nat>, k: string)
    requires forall j :: j in order ==> j in tally
    requires Distinct(order) && k in order
    ensures SumOver(order, tally[k := tally[k] + 1]) == SumOver(order, tally) + 1
  {
    var last := order[|order| - 1];
    var front := order[..|order| - 1];
    if last == k {
      assert k !in front by {
        forall i | 0 <= i < |front| ensures front[i] != k {
          assert front[i] == order[i];
        }
      }
      SumOverOthers(front, tally, k, tally[k] + 1);
    } else {
      assert k in front by {
        var i :| 0 <= i < |order| && order[i] == k;
        assert front[i] == k;
      }
      SumOverIncrement(front, tally, k);
    }
  }

  /** One group of an aggregation: its display name and its count. */
  datatype Tally = Tally(name: string, count: nat)

  function Total(groups: seq<Tally>): nat {
    if |groups| == 0 then 0 else Total(groups[..|groups| - 1]) + groups[|groups| - 1].count
  }

  /** `c.toUpperCase()` on ASCII letters. */
  function UpperChar(c: char): char {
    if 'a' <= c <= 'z' then (c as int - 32) as char else c
  }

  /** `type.charAt(0).toUpperCase() + type.slice(1)`. */
  function Capitalize(k: string): string {
    if |k| == 0 then k else [UpperChar(k[0])] + k[1..]
  }

  lemma {:induction false} TotalOfGroups(order: seq<string>, tally: map<string, nat>, groups: seq<Tally>)
    requires forall k :: k in order ==> k in tally
    requires |groups| == |order|
    requires forall j :: 0 <= j < |order| ==> groups[j].count == tally[order[j]]
    ensures Total(groups) == SumOver(order, tally)
  {
    if |order| > 0 {
      TotalOfGroups(order[..|order| - 1], tally, groups[..|groups| - 1]);
    }
  }

  /** `order` and `tally` are the dictionary `getIncidentsByType` has built
      after visiting the entries `s`. */
  ghost predicate Tallied(s: seq<Incident>, order: seq<string>, tally: map<string, nat>) {
    && order == KindsInOrder(s)
    && (forall k :: k in tally <==> k in order)
    && (forall k :: k in tally ==> tally[k] == CountKind(s, k))
    && SumOver(order, tally) == |s|
  }

  /** A step of the `forEach` on a label already in the dictionary:
      `typeMap[type] = typeMap[type] + 1`. */
  lemma TallySeen(t: seq<Incident>, x: Incident, order: seq<string>, tally: map<string, nat>)
    requires Tallied(t, order, tally)
    requires KindKey(x) in tally
    ensures Tallied(t + [x], order, tally[KindKey(x) := tally[KindKey(x)] + 1])
  {
    var key := KindKey(x);
    var next := tally[key := tally[key] + 1];
    assert KindsInOrder(t + [x]) == order by {
      CountKindStep(t, x);
    }
    assert SumOver(order, next) == |t| + 1 by {
      SumOverIncrement(order, tally, key);
    }
    assert forall k :: k in next ==> next[k] == CountKind(t + [x], k) by {
      CountKindStep(t, x);
      forall k | k in next ensures next[k] == CountKind(t + [x], k) {
        if k != key {
          assert next[k] == tally[k];
        }
      }
    }
  }

  /** A step of the `forEach` on a label not yet in the dictionary:
      `typeMap[type] = 0 + 1`, which appends the label to the key order. */
  lemma TallyNew(t: seq<Incident>, x: Incident, order: seq<string>, tally: map<string, nat>)
    requires Tallied(t, order, tally)
    requires KindKey(x) !in tally
    ensures Tallied(t + [x], order + [KindKey(x)], tally[KindKey(x) := 1])
  {
    var key := KindKey(x);
    assert KindsInOrder(t + [x]) == order + [key] by {
      CountKindStep(t, x);
    }
    NewKeySum(order, tally, key, |t|);
    NewKeyCounts(t, x, tally);
  }

  /** Appending a fresh key with count 1 adds one to the sum. */
  lemma NewKeySum(order: seq<string>, tally: map<string, nat>, key: string, n: nat)
    requires forall k :: k in order ==> k in tally
    requires key !in order && SumOver(order, tally) == n
    ensures SumOver(order + [key], tally[key := 1]) == n + 1
  {
    var order' := order + [key];
    SumOverOthers(order, tally, key, 1);
    assert order'[..|order'| - 1] == order;
  }

  /** The counts after visiting `x`, whose label was not yet counted. */
  lemma NewKeyCounts(t: seq<Incident>, x: Incident, tally: map<string, nat>)
    requires forall k :: k in tally ==> tally[k] == CountKind(t, k)
    requires KindKey(x) !in KindsInOrder(t)
    ensures forall k :: k in tally[KindKey(x) := 1] ==> tally[KindKey(x) := 1][k] == CountKind(t + [x], k)
  {
    var key := KindKey(x);
    var next := tally[key := 1];
    CountKindStep(t, x);
    KindsListed(t, key);
    forall k | k in next ensures next[k] == CountKind(t + [x], k) {
      if k != key {
        assert next[k] == tally[k];
      }
    }
  }

  /** The `forEach` of `getIncidentsByType`: fills the dictionary from type
      label to count, keeping the labels in insertion order. */
  method TallyKinds(s: seq<Incident>) returns (order: seq<string>, tally: map<string, nat>)
    ensures order == KindsInOrder(s)
    ensures forall k :: k in tally <==> k in order
    ensures forall k :: k in tally ==> tally[k] == CountKind(s, k)
    ensures SumOver(order, tally) == |s|
  {
    order, tally := [], map[];
    for i := 0 to |s|
      invariant Tallied(s[..i], order, tally)
    {
      var key := KindKey(s[i]);
      assert s[..i + 1] == s[..i] + [s[i]];
      if key in tally {
        TallySeen(s[..i], s[i], order, tally);
        tally := tally[key := tally[key] + 1];
      } else {
        TallyNew(s[..i], s[i], order, tally);
        tally := tally[key := 1];
        order := order + [key];
      }
    }
    assert s[..|s|] == s;
  }

  /** `getIncidentsByType`: one group per type label in order of first
      occurrence, each with the number of entries of that type; the counts
      add up to the number of entries. */
  method IncidentsByType(s: seq<Incident>) returns (groups: seq<Tally>)
    ensures |groups| == |KindsInOrder(s)|
    ensures forall j :: 0 <= j < |groups| ==>
      var k := KindsInOrder(s)[j];
      groups[j] == Tally(Capitalize(k), CountKind(s, k)) && groups[j].count > 0
    ensures Total(groups) == |s|
  {
    var order, tally := TallyKinds(s);
    groups := seq(|order|, j requires 0 <= j < |order| => Tally(Capitalize(order[j]), tally[order[j]]));
    TotalOfGroups(order, tally, groups);
    forall j | 0 <= j < |order| ensures tally[order[j]] > 0 {
      KindsListed(s, order[j]);
    }
  }

  /** `getIncidentsByStatusGrouped`: exactly the three groups Open, In Progress
      and Resolved, in that order; an entry without a status counts as open
      and an unknown status is not counted, so the counts add up to at most
      the number of entries. */
  method IncidentsByStatusGrouped(s: seq<Incident>) returns (groups: seq<Tally>)
    ensures groups == [
      Tally("Open", CountStatus(s, "open")),
      Tally("In Progress", CountStatus(s, "in-progress")),
      Tally("Resolved", CountStatus(s, "resolved"))]
    ensures Total(groups) <= |s|
  {
    var tally: map<string, nat> := map["open" := 0, "in-progress" := 0, "resolved" := 0];
    for i := 0 to |s|
      invariant tally.Keys == KnownStatuses
      invariant forall k :: k in KnownStatuses ==> tally[k] == CountStatus(s[..i], k)
      invariant tally["open"] + tally["in-progress"] + tally["resolved"] <= i
    {
      assert s[..i + 1][..i] == s[..i];
      var key := StatusKey(s[i]);
      if key in tally {
        tally := tally[key := tally[key] + 1];
      }
    }
    assert s[..|s|] == s;
    groups := [
      Tally("Open", tally["open"]),
      Tally("In Progress", tally["in-progress"]),
      Tally("Resolved", tally["resolved"])
    ];
    assert groups[..2][..1][..0] == [];
    assert Total(groups[..1]) == tally["open"];
    assert Total(groups[..2]) == tally["open"] + tally["in-progress"] by {
      assert groups[..2][..1] == groups[..1];
    }
    assert Total(groups) == tally["open"] + tally["in-progress"] + tally["resolved"];
  }

  /** The integer part of `getStorageStats`. */
  datatype Stats = Stats(total: nat, verifiedCount: nat, openCount: nat,
                         inProgressCount: nat, resolvedCount: nat)

  lemma {:induction false} StatusFiltersDisjoint(s: seq<Incident>, a: string, b: string, c: string)
    requires a != b && b != c && a != c
    ensures |WithStatus(s, a)| + |WithStatus(s, b)| + |WithStatus(s, c)| <= |s|
  {
    if |s| > 0 {
      StatusFiltersDisjoint(s[1..], a, b, c);
    }
  }

  /** `getStorageStats` without the byte sizes: each count is the number of
      entries with that property. The per-status counts use strict equality
      (no default), so together they never exceed the total. */
  function StorageStats(s: seq<Incident>): (r: Stats)
    ensures r.total == |s|
    ensures r.verifiedCount == |VerifiedPositions(s)|
    ensures r.openCount == |StatusPositions(s, "open")|
    ensures r.inProgressCount == |StatusPositions(s, "in-progress")|
    ensures r.resolvedCount == |StatusPositions(s, "resolved")|
    ensures r.verifiedCount <= r.total
    ensures r.openCount + r.inProgressCount + r.resolvedCount <= r.total
  {
    StatusFiltersDisjoint(s, "open", "in-progress", "resolved");
    VerifiedCounts(s);
    WithStatusCounts(s, "open");
    WithStatusCounts(s, "in-progress");
    WithStatusCounts(s, "resolved");
    Stats(|s|, |VerifiedOnly(s)|, |WithStatus(s, "open")|,
          |WithStatus(s, "in-progress")|, |WithStatus(s, "resolved")|)
  }

  /** Counting under `incident.status || 'open'` agrees with strict equality
      for every status other than `open` and the empty one. */
  lemma {:induction false} CountStatusIsPositions(s: seq<Incident>, status: string)
    requires status != "open" && status != ""
    ensures CountStatus(s, status) == |StatusPositions(s, status)|
  {
    if |s| > 0 {
      var t, x := s[..|s| - 1], s[|s| - 1];
      assert s == t + [x];
      CountStatusIsPositions(t, status);
      StatusPositionsSnoc(t, x, status);
    }
  }

  /** The Open group counts the entries marked open and those without a status. */
  lemma {:induction false} CountOpenIsPositions(s: seq<Incident>)
    ensures CountStatus(s, "open") == |StatusPositions(s, "open")| + |StatusPositions(s, "")|
  {
    if |s| > 0 {
      var t, x := s[..|s| - 1], s[|s| - 1];
      assert s == t + [x];
      CountOpenIsPositions(t);
      StatusPositionsSnoc(t, x, "open");
      StatusPositionsSnoc(t, x, "");
    }
  }

  /** The storage statistics and the status chart agree: the same In Progress
      and Resolved counts, and an Open group that also holds the entries
      without a status. */
  lemma StatsAgreeWithGroups(s: seq<Incident>)
    ensures StorageStats(s).inProgressCount == CountStatus(s, "in-progress")
    ensures StorageStats(s).resolvedCount == CountStatus(s, "resolved")
    ensures StorageStats(s).openCount + |StatusPositions(s, "")| == CountStatus(s, "open")
  {
    CountStatusIsPositions(s, "in-progress");
    CountStatusIsPositions(s, "resolved");
    CountOpenIsPositions(s);
  }
}
