/** The authoritative in-memory store behind the REST routes: the module-level
    `incidents` array, the `incidentIdCounter`, and `io.emit` recorded as an
    append to an event log. */
module Server {
  import opened Wrappers
  import opened Incidents
  import opened Ordering

  /** A broadcast: `incident:new` or `incident:update`, with the incident as
      it was at emission. */
  datatype Event = IncidentNew(incident: Incident) | IncidentUpdate(incident: Incident)

  /** A route's answer: 201 with the new incident, 200 with an incident,
      400 or 404 with a message. */
  datatype Reply =
    | Created(incident: Incident)
    | Ok(incident: Incident)
    | BadRequest(message: string)
    | NotFound(message: string)

  const MissingFields := "Missing required fields: type, description, location"
  const UnknownIncident := "Incident not found"

  /** `status && ['open', 'in-progress', 'resolved'].includes(status)`. */
  predicate AcceptedStatus(status: Option<string>)
    ensures AcceptedStatus(status) <==> status.Some? && status.value in KnownStatuses
  {
    status.Some? && status.value != "" && status.value in KnownStatuses
  }

  /** An incident as the store keeps it: the three text fields are present
      and the status is a known one. */
  ghost predicate Complete(x: Incident) {
    x.kind != "" && x.description != "" && x.location != "" && x.status in KnownStatuses
  }

  /** Ids are positive, below the counter and increasing in storage order
      (so unique); every stored and every broadcast incident is complete,
      and every broadcast names a stored id. */
  ghost predicate StoreInvariant(incidents: seq<Incident>, counter: int, events: seq<Event>) {
    && counter >= 1
    && (forall i :: 0 <= i < |incidents| ==> 1 <= incidents[i].id < counter && Complete(incidents[i]))
    && (forall i, j :: 0 <= i < j < |incidents| ==> incidents[i].id < incidents[j].id)
    && (forall e :: e in events ==> Complete(e.incident) && e.incident.id in Ids(incidents))
  }

  /** Replacing a stored incident by a complete one with the same id, and
      broadcasting it, keeps the invariant. */
  lemma ReplaceKeepsInvariant(incidents: seq<Incident>, counter: int, events: seq<Event>, k: int, x: Incident)
    requires StoreInvariant(incidents, counter, events)
    requires 0 <= k < |incidents| && x.id == incidents[k].id && Complete(x)
    ensures StoreInvariant(incidents[k := x], counter, events + [IncidentUpdate(x)])
  {
    var after := incidents[k := x];
    assert Ids(incidents) <= Ids(after) by {
      forall y | y in incidents ensures y.id in Ids(after) {
        var i :| 0 <= i < |incidents| && incidents[i] == y;
        assert after[i].id == y.id && after[i] in after;
      }
    }
    assert x.id in Ids(after) by {
      assert after[k] == x;
    }
  }

  class IncidentStore {
    var incidents: seq<Incident>
    var counter: int
    var events: seq<Event>

    /** The store invariant, `StoreInvariant`, over the current fields. */
    ghost predicate Valid()
      reads this
    {
      StoreInvariant(incidents, counter, events)
    }

    constructor ()
      ensures Valid()
      ensures incidents == [] && counter == 1 && events == []
    {
      incidents := [];
      counter := 1;
      events := [];
    }

    /** `generateId`: hand out the counter and advance it. */
    method GenerateId() returns (id: int)
      requires Valid()
      modifies this
      ensures Valid()
      ensures id == old(counter) && counter == old(counter) + 1
      ensures incidents == old(incidents) && events == old(events)
    {
      id := counter;
      counter := counter + 1;
    }

    /** POST /incident: refuse a missing field with 400 and change nothing;
        otherwise store an open, unverified incident under the next id,
        then broadcast it. */
    method Create(kind: string, description: string, location: string, now: int) returns (reply: Reply)
      requires Valid()
      modifies this
      ensures Valid()
      ensures kind == "" || description == "" || location == "" ==>
        && reply == BadRequest(MissingFields)
        && incidents == old(incidents) && counter == old(counter) && events == old(events)
      ensures kind != "" && description != "" && location != "" ==>
        var x := Incident(old(counter), kind, description, location, "open", false, now);
        && reply == Created(x)
        && incidents == old(incidents) + [x]
        && counter == old(counter) + 1
        && events == old(events) + [IncidentNew(x)]
      ensures reply.Created? ==> reply.incident.id !in Ids(old(incidents))
    {
      if kind == "" || description == "" || location == "" {
        return BadRequest(MissingFields);
      }
      var id := GenerateId();
      var x := Incident(id, kind, description, location, "open", false, now);
      incidents := incidents + [x];
      events := events + [IncidentNew(x)];
      reply := Created(x);
    }

    /** GET /incidents: a newest-first copy; incidents created at the same
        instant stay in storage (creation) order. The store is not changed. */
    method List() returns (r: seq<Incident>)
      ensures r == SortNewestFirst(incidents)
      ensures NewestFirst(r) && multiset(r) == multiset(incidents)
      ensures forall t :: At(r, t) == At(incidents, t)
    {
      r := SortNewestFirst(incidents);
      forall t ensures At(r, t) == At(incidents, t) {
        SortKeepsGroups(incidents, t);
      }
    }

    /** GET /incident/:id: the incident with that id, or 404. */
    method Get(id: int) returns (reply: Reply)
      ensures reply.Ok? || reply == NotFound(UnknownIncident)
      ensures reply.Ok? <==> id in Ids(incidents)
      ensures reply.Ok? ==> reply.incident in incidents && reply.incident.id == id
    {
      var found := FindById(incidents, id);
      if found.None? {
        return NotFound(UnknownIncident);
      }
      reply := Ok(found.value);
    }

    /** PATCH /incident/:id: 404 without any change for an unknown id;
        otherwise set the status only to a known value and `verified` only to a
        boolean, leave every other field alone, and broadcast the result even
        when nothing changed. */
    method Update(id: int, status: Option<string>, verified: Option<bool>) returns (reply: Reply)
      requires Valid()
      modifies this
      ensures Valid()
      ensures counter == old(counter)
      ensures id !in Ids(old(incidents)) ==>
        && reply == NotFound(UnknownIncident)
        && incidents == old(incidents) && events == old(events)
      ensures id in Ids(old(incidents)) ==>
        var k := FindIndex(old(incidents), id);
        var was := old(incidents)[k];
        && reply.Ok?
        && incidents == old(incidents)[k := reply.incident]
        && events == old(events) + [IncidentUpdate(reply.incident)]
        && reply.incident.(status := was.status, verified := was.verified) == was
        && reply.incident.status == (if AcceptedStatus(status) then status.value else was.status)
        && reply.incident.verified == (if verified.Some? then verified.value else was.verified)
    {
      var k := FindIndex(incidents, id);
      if k == -1 {
        return NotFound(UnknownIncident);
      }
      var x := incidents[k];
      if AcceptedStatus(status) {
        x := x.(status := status.value);
      }
      if verified.Some? {
        x := x.(verified := verified.value);
      }
      ReplaceKeepsInvariant(incidents, counter, events, k, x);
      incidents := incidents[k := x];
      events := events + [IncidentUpdate(x)];
      reply := Ok(x);
    }
  }

  /** A citizen reports a fire, a responder verifies it, and the incident is
      read back: id 1, still open, now verified, with one broadcast per
      mutation in commit order. */
  method ReportThenVerify(now: int) returns (created: Reply, fetched: Reply, log: seq<Event>)
    ensures created == Created(Incident(1, "fire", "X", "Y", "open", false, now))
    ensures fetched == Ok(Incident(1, "fire", "X", "Y", "open", true, now))
    ensures log == [IncidentNew(created.incident), IncidentUpdate(fetched.incident)]
  {
    var store := new IncidentStore();
    created := store.Create("fire", "X", "Y", now);
    var _ := store.Update(1, None, Some(true));
    fetched := store.Get(1);
    log := store.events;
  }
}
