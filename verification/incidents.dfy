/** The incident record shared by the server store and the client cache, the
    shallow object merge `{...old, ...patch}`, lookup by id and the filters the
    cache offers over a snapshot. */
module Incidents {
  import opened Wrappers

  /** An incident as both sides store it. `kind` is the source's `type` field;
      the creation instant is an integer (the ISO string compared as a date);
      an empty string stands for a missing or falsy text field. */
  datatype Incident = Incident(
    id: int,
    kind: string,
    description: string,
    location: string,
    status: string,
    verified: bool,
    timestamp: int)

  /** The three statuses the server accepts. */
  const KnownStatuses: set<string> := {"open", "in-progress", "resolved"}

  /** A partial incident object: a field is `None` when the object does not
      carry it. */
  datatype Patch = Patch(
    id: Option<int>,
    kind: Option<string>,
    description: Option<string>,
    location: Option<string>,
    status: Option<string>,
    verified: Option<bool>,
    timestamp: Option<int>)

  function Pick<T>(current: T, given: Option<T>): T {
    if given.Some? then given.value else current
  }

  /** `{...x, ...p}`: every field the patch carries wins, every other field is
      kept from `x`. */
  function Override(x: Incident, p: Patch): (r: Incident)
    ensures p == EmptyPatch ==> r == x
    ensures p.id.None? ==> r.id == x.id
    ensures p.id.Some? ==> r.id == p.id.value
    ensures p.kind.None? ==> r.kind == x.kind
    ensures p.kind.Some? ==> r.kind == p.kind.value
    ensures p.description.None? ==> r.description == x.description
    ensures p.description.Some? ==> r.description == p.description.value
    ensures p.location.None? ==> r.location == x.location
    ensures p.location.Some? ==> r.location == p.location.value
    ensures p.status.None? ==> r.status == x.status
    ensures p.status.Some? ==> r.status == p.status.value
    ensures p.verified.None? ==> r.verified == x.verified
    ensures p.verified.Some? ==> r.verified == p.verified.value
    ensures p.timestamp.None? ==> r.timestamp == x.timestamp
    ensures p.timestamp.Some? ==> r.timestamp == p.timestamp.value
  {
    Incident(Pick(x.id, p.id), Pick(x.kind, p.kind), Pick(x.description, p.description),
             Pick(x.location, p.location), Pick(x.status, p.status),
             Pick(x.verified, p.verified), Pick(x.timestamp, p.timestamp))
  }

  const EmptyPatch: Patch := Patch(None, None, None, None, None, None, None)

  /** A complete incident seen as a patch: it carries every field, so merging
      it over any stored record yields exactly it (later write wins entirely). */
  function Whole(x: Incident): (p: Patch)
    ensures forall y :: Override(y, p) == x
  {
    Patch(Some(x.id), Some(x.kind), Some(x.description), Some(x.location),
          Some(x.status), Some(x.verified), Some(x.timestamp))
  }

  /** The ids occurring in a sequence of incidents (`new Set(list.map(i => i.id))`). */
  function Ids(s: seq<Incident>): set<int> {
    set x | x in s :: x.id
  }

  /** `findIndex(i => i.id === id)`: the first position holding that id, or -1. */
  function FindIndex(s: seq<Incident>, id: int): (k: int)
    ensures -1 <= k < |s|
    ensures k == -1 <==> id !in Ids(s)
    ensures k >= 0 ==> s[k].id == id && forall i :: 0 <= i < k ==> s[i].id != id
  {
    if |s| == 0 then -1
    else if s[0].id == id then 0
    else
      var k := FindIndex(s[1..], id);
      assert s == [s[0]] + s[1..];
      if k == -1 then -1 else k + 1
  }

  /** `find(i => i.id === id) || null`. */
  function FindById(s: seq<Incident>, id: int): (r: Option<Incident>)
    ensures r.Some? <==> id in Ids(s)
    ensures r.Some? ==> r.value in s && r.value.id == id
    ensures r.Some? ==> r.value == s[FindIndex(s, id)]
  {
    var k := FindIndex(s, id);
    if k == -1 then None else Some(s[k])
  }

  /** `filter(i => !ids.has(i.id))`: the entries whose id is not in `ids`, in
      their original order. */
  function WithoutIds(s: seq<Incident>, ids: set<int>): (r: seq<Incident>)
    ensures |r| <= |s|
  {
    if |s| == 0 then []
    else
      var rest := WithoutIds(s[1..], ids);
      if s[0].id in ids then rest else [s[0]] + rest
  }

  /** The filter keeps exactly the entries whose id is not in `ids`. */
  lemma {:induction false} WithoutIdsMembers(s: seq<Incident>, ids: set<int>)
    ensures forall x :: x in WithoutIds(s, ids) <==> x in s && x.id !in ids
  {
    if |s| > 0 {
      WithoutIdsMembers(s[1..], ids);
      assert s == [s[0]] + s[1..];
    }
  }

  /** The filter drops something exactly when some entry carries one of the ids. */
  lemma {:induction false} WithoutIdsDropsSome(s: seq<Incident>, ids: set<int>)
    ensures |WithoutIds(s, ids)| == |s| <==> ids !! Ids(s)
  {
    if |s| > 0 {
      WithoutIdsDropsSome(s[1..], ids);
      assert s == [s[0]] + s[1..];
      assert Ids(s) == {s[0].id} + Ids(s[1..]);
    }
  }

  /** `filter(i => i.status === status)`. */
  function WithStatus(s: seq<Incident>, status: string): (r: seq<Incident>)
    ensures |r| <= |s|
  {
    if |s| == 0 then []
    else
      var rest := WithStatus(s[1..], status);
      if s[0].status == status then [s[0]] + rest else rest
  }

  /** The status filter keeps every entry with that status, as often as it
      occurs, and nothing else. */
  lemma {:induction false} WithStatusMembers(s: seq<Incident>, status: string)
    ensures forall x :: multiset(WithStatus(s, status))[x] == if x.status == status then multiset(s)[x] else 0
    ensures forall x :: x in WithStatus(s, status) <==> x in s && x.status == status
  {
    if |s| > 0 {
      WithStatusMembers(s[1..], status);
      assert s == [s[0]] + s[1..];
    }
  }

  /** `filter(i => i.verified === true)`. */
  function VerifiedOnly(s: seq<Incident>): (r: seq<Incident>)
    ensures |r| <= |s|
  {
    if |s| == 0 then []
    else
      var rest := VerifiedOnly(s[1..]);
      if s[0].verified then [s[0]] + rest else rest
  }

  /** The verified filter keeps every verified entry, as often as it occurs,
      and nothing else. */
  lemma {:induction false} VerifiedMembers(s: seq<Incident>)
    ensures forall x :: multiset(VerifiedOnly(s))[x] == if x.verified then multiset(s)[x] else 0
    ensures forall x :: x in VerifiedOnly(s) <==> x in s && x.verified
  {
    if |s| > 0 {
      VerifiedMembers(s[1..]);
      assert s == [s[0]] + s[1..];
    }
  }

  /** The positions of `s` holding an entry with that status. */
  ghost function StatusPositions(s: seq<Incident>, status: string): set<int> {
    set i | 0 <= i < |s| && s[i].status == status
  }

  /** The positions of `s` holding a verified entry. */
  ghost function VerifiedPositions(s: seq<Incident>): set<int> {
    set i | 0 <= i < |s| && s[i].verified
  }

  lemma WithStatusCons(h: Incident, s: seq<Incident>, status: string)
    ensures WithStatus([h] + s, status) == (if h.status == status then [h] else []) + WithStatus(s, status)
  {
    assert ([h] + s)[0] == h && ([h] + s)[1..] == s;
  }

  lemma VerifiedCons(h: Incident, s: seq<Incident>)
    ensures VerifiedOnly([h] + s) == (if h.verified then [h] else []) + VerifiedOnly(s)
  {
    assert ([h] + s)[0] == h && ([h] + s)[1..] == s;
  }

  /** Filtering a list extended at the back. */
  lemma {:induction false} WithStatusSnoc(t: seq<Incident>, x: Incident, status: string)
    ensures WithStatus(t + [x], status) == WithStatus(t, status) + (if x.status == status then [x] else [])
  {
    var e := if x.status == status then [x] else [];
    if |t| == 0 {
      assert t + [x] == [x] + [];
      WithStatusCons(x, [], status);
      assert e + [] == e;
    } else {
      var h, u := t[0], t[1..];
      var k := if h.status == status then [h] else [];
      assert t == [h] + u;
      assert t + [x] == [h] + (u + [x]);
      WithStatusCons(h, u + [x], status);
      WithStatusCons(h, u, status);
      WithStatusSnoc(u, x, status);
      var w := WithStatus(u, status);
      assert k + (w + e) == (k + w) + e;
    }
  }

  lemma {:induction false} VerifiedSnoc(t: seq<Incident>, x: Incident)
    ensures VerifiedOnly(t + [x]) == VerifiedOnly(t) + (if x.verified then [x] else [])
  {
    var e := if x.verified then [x] else [];
    if |t| == 0 {
      assert t + [x] == [x] + [];
      VerifiedCons(x, []);
      assert e + [] == e;
    } else {
      var h, u := t[0], t[1..];
      var k := if h.verified then [h] else [];
      assert t == [h] + u;
      assert t + [x] == [h] + (u + [x]);
      VerifiedCons(h, u + [x]);
      VerifiedCons(h, u);
      VerifiedSnoc(u, x);
      var w := VerifiedOnly(u);
      assert k + (w + e) == (k + w) + e;
    }
  }

  /** The positions with a status after appending one entry. */
  lemma StatusPositionsSnoc(t: seq<Incident>, x: Incident, status: string)
    ensures |StatusPositions(t + [x], status)|
         == |StatusPositions(t, status)| + (if x.status == status then 1 else 0)
  {
    var s, before := t + [x], StatusPositions(t, status);
    var added: set<int> := if x.status == status then {|t|} else {};
    assert |t| !in before;
    forall i ensures i in StatusPositions(s, status) <==> i in before + added {
      if 0 <= i < |t| {
        assert s[i] == t[i];
      }
    }
    assert StatusPositions(s, status) == before + added;
  }

  /** The verified positions after appending one entry. */
  lemma VerifiedPositionsSnoc(t: seq<Incident>, x: Incident)
    ensures |VerifiedPositions(t + [x])| == |VerifiedPositions(t)| + (if x.verified then 1 else 0)
  {
    var s, before := t + [x], VerifiedPositions(t);
    var added: set<int> := if x.verified then {|t|} else {};
    assert |t| !in before;
    forall i ensures i in VerifiedPositions(s) <==> i in before + added {
      if 0 <= i < |t| {
        assert s[i] == t[i];
      }
    }
    assert VerifiedPositions(s) == before + added;
  }

  /** The filter's length is the number of positions holding that status. */
  lemma {:induction false} WithStatusCounts(s: seq<Incident>, status: string)
    ensures |WithStatus(s, status)| == |StatusPositions(s, status)|
  {
    if |s| > 0 {
      var t, x := s[..|s| - 1], s[|s| - 1];
      assert s == t + [x];
      WithStatusCounts(t, status);
      WithStatusSnoc(t, x, status);
      StatusPositionsSnoc(t, x, status);
    }
  }

  /** The filter's length is the number of positions holding a verified entry. */
  lemma {:induction false} VerifiedCounts(s: seq<Incident>)
    ensures |VerifiedOnly(s)| == |VerifiedPositions(s)|
  {
    if |s| > 0 {
      var t, x := s[..|s| - 1], s[|s| - 1];
      assert s == t + [x];
      VerifiedCounts(t);
      VerifiedSnoc(t, x);
      VerifiedPositionsSnoc(t, x);
    }
  }
}
