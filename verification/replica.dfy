/** The client's replica cache: `localStorage` holding three keys
    (`incidents`, `users`, `currentUser`), and the storage functions that read
    and rewrite them. */
module Replica {
  import opened Wrappers
  import opened Incidents
  import opened Reconcile

  /** What one key yields: nothing stored, content that does not parse to an
      array, or an array of records. */
  datatype Stored<T> = Absent | Unreadable | Items(items: seq<T>)

  /** `getIncidents` / `getAllUsers`: absent, corrupt or non-array content
      degrades to the empty list instead of failing. */
  function Read<T>(slot: Stored<T>): seq<T> {
    if slot.Items? then slot.items else []
  }

  const Citizen := "citizen"
  const Responder := "responder"

  /** A registered user; `createdAt` is the registration instant. */
  datatype User = User(username: string, password: string, role: string, createdAt: int)

  /** The current session (`currentUser`); `loginTime` is the login instant. */
  datatype Session = Session(username: string, role: string, loginTime: int)

  /** No username occurs twice in the directory. */
  ghost predicate UniqueUsernames(users: seq<User>) {
    forall i, j :: 0 <= i < j < |users| ==> users[i].username != users[j].username
  }

  /** Every user has all fields and a known role, and usernames are unique:
      what a directory written only by `SaveUser` looks like. */
  ghost predicate WellFormedDirectory(users: seq<User>) {
    UniqueUsernames(users) &&
    forall u :: u in users ==>
      u.username != "" && u.password != "" && u.role in {Citizen, Responder}
  }

  /** `u` has exactly this username and password (plain equality). */
  predicate HasCredentials(u: User, username: string, password: string) {
    u.username == username && u.password == password
  }

  /** `k` is the first position whose user has these credentials. */
  ghost predicate FirstMatchAt(users: seq<User>, k: int, username: string, password: string) {
    && 0 <= k < |users|
    && HasCredentials(users[k], username, password)
    && forall j :: 0 <= j < k ==> !HasCredentials(users[j], username, password)
  }

  /** `users.find(u => u.username === username && u.password === password)`. */
  function FindCredentials(users: seq<User>, username: string, password: string): (r: Option<User>)
    ensures r.Some? <==> exists u :: u in users && HasCredentials(u, username, password)
    ensures r.Some? ==> HasCredentials(r.value, username, password)
    ensures r.Some? ==> exists k :: FirstMatchAt(users, k, username, password) && users[k] == r.value
  {
    if |users| == 0 then None
    else if HasCredentials(users[0], username, password) then
      assert FirstMatchAt(users, 0, username, password);
      Some(users[0])
    else
      var rest := users[1..];
      var r := FindCredentials(rest, username, password);
      assert users == [users[0]] + rest;
      assert forall k :: FirstMatchAt(rest, k, username, password) ==>
        FirstMatchAt(users, k + 1, username, password) && rest[k] == users[k + 1];
      r
  }

  /** `canReportIncident`: a citizen is logged in; never a responder. */
  predicate CanReport(session: Option<Session>)
    ensures CanReport(session) ==> session.Some? && session.value.role != Responder
  {
    session.Some? && session.value.role == Citizen
  }

  /** `canUpdateIncident`: a responder is logged in; never together with
      `CanReport`, and neither holds without a session. */
  predicate CanUpdate(session: Option<Session>)
    ensures CanUpdate(session) ==> !CanReport(session)
    ensures session.None? ==> !CanUpdate(session) && !CanReport(session)
  {
    session.Some? && session.value.role == Responder
  }

  class LocalStore {
    var incidentSlot: Stored<Incident>
    var userSlot: Stored<User>
    /** `currentUser`; absent and unparsable content both read as no session. */
    var session: Option<Session>

    constructor (incidentSlot: Stored<Incident>, userSlot: Stored<User>, session: Option<Session>)
      ensures this.incidentSlot == incidentSlot && this.userSlot == userSlot
      ensures this.session == session
    {
      this.incidentSlot := incidentSlot;
      this.userSlot := userSlot;
      this.session := session;
    }

    /** `getIncidents()`: a read never invents an entry; whatever it yields
        comes from a stored array. */
    function Incidents(): (r: seq<Incident>)
      reads this
      ensures forall x :: x in r ==> incidentSlot.Items? && x in incidentSlot.items
    {
      Read(incidentSlot)
    }

    /** `getAllUsers()`: a read never invents a user; whatever it yields
        comes from a stored array. */
    function Users(): (r: seq<User>)
      reads this
      ensures forall u :: u in r ==> userSlot.Items? && u in userSlot.items
    {
      Read(userSlot)
    }

    /** `saveIncident`: insert a new id at the end, or merge over the first entry
        with that id (a complete record replaces it); a missing argument is
        refused without writing. */
    method SaveIncident(incident: Option<Incident>) returns (ok: bool)
      modifies this
      ensures userSlot == old(userSlot) && session == old(session)
      ensures ok <==> incident.Some?
      ensures !ok ==> incidentSlot == old(incidentSlot)
      ensures ok ==> incidentSlot.Items?
      ensures ok && incident.value.id !in Ids(old(Incidents())) ==>
        Incidents() == old(Incidents()) + [incident.value]
      ensures ok && incident.value.id in Ids(old(Incidents())) ==>
        Incidents() == old(Incidents())[FindIndex(old(Incidents()), incident.value.id) := incident.value]
    {
      if incident.None? {
        return false;
      }
      var x := incident.value;
      var items := Incidents();
      var k := FindIndex(items, x.id);
      if k != -1 {
        items := items[k := Override(items[k], Whole(x))];
      } else {
        items := items + [x];
      }
      incidentSlot := Items(items);
      ok := true;
    }

    /** `updateIncident`: merge `updates` over the first entry with that id and
        return the stored result; a zero (falsy) id, an `undefined` or
        non-object `updates` (`None`) or an unknown id returns null without
        writing. A `null` `updates` passes the `typeof` guard and spreads to
        nothing: it is `Some(EmptyPatch)`. */
    method UpdateIncident(id: int, updates: Option<Patch>) returns (r: Option<Incident>)
      modifies this
      ensures userSlot == old(userSlot) && session == old(session)
      ensures r.None? <==> id == 0 || updates.None? || id !in Ids(old(Incidents()))
      ensures r.None? ==> incidentSlot == old(incidentSlot)
      ensures r.Some? ==>
        var k := FindIndex(old(Incidents()), id);
        && r.value == Override(old(Incidents())[k], updates.value)
        && incidentSlot == Items(old(Incidents())[k := r.value])
    {
      if id == 0 || updates.None? {
        return None;
      }
      var items := Incidents();
      var k := FindIndex(items, id);
      if k == -1 {
        return None;
      }
      var updated := Override(items[k], updates.value);
      items := items[k := updated];
      incidentSlot := Items(items);
      r := Some(updated);
    }

    /** `deleteIncident`: drop every entry with that id, keeping the order of
        the rest; when nothing matches, report false and do not write. */
    method DeleteIncident(id: int) returns (ok: bool)
      modifies this
      ensures userSlot == old(userSlot) && session == old(session)
      ensures ok <==> id in Ids(old(Incidents()))
      ensures !ok ==> incidentSlot == old(incidentSlot)
      ensures ok ==> incidentSlot == Items(WithoutIds(old(Incidents()), {id}))
    {
      var items := Incidents();
      var kept := WithoutIds(items, {id});
      WithoutIdsDropsSome(items, {id});
      if |kept| == |items| {
        return false;
      }
      incidentSlot := Items(kept);
      ok := true;
    }

    /** `clearAllIncidents`: remove the key. */
    method ClearAllIncidents() returns (ok: bool)
      modifies this
      ensures userSlot == old(userSlot) && session == old(session)
      ensures ok && incidentSlot == Absent && Incidents() == []
    {
      incidentSlot := Absent;
      ok := true;
    }

    /** `mergeIncidents`: reconcile the cache with a backend list and store the
        result; a non-array argument (`None`) returns the cache untouched. */
    method MergeIncidents(backend: Option<seq<Incident>>) returns (r: seq<Incident>)
      modifies this
      ensures userSlot == old(userSlot) && session == old(session)
      ensures backend.None? ==> r == old(Incidents()) && incidentSlot == old(incidentSlot)
      ensures backend.Some? ==>
        r == MergeResult(backend.value, old(Incidents())) && incidentSlot == Items(r)
    {
      if backend.None? {
        return Incidents();
      }
      r := MergeResult(backend.value, Incidents());
      incidentSlot := Items(r);
    }

    /** `importIncidents`: `data` is the parsed argument (`None` when it does not
        parse to an array). With `merge` it reconciles like `MergeIncidents`,
        otherwise it replaces the cache with exactly `data`. */
    method ImportIncidents(data: Option<seq<Incident>>, merge: bool) returns (ok: bool)
      modifies this
      ensures userSlot == old(userSlot) && session == old(session)
      ensures ok <==> data.Some?
      ensures !ok ==> incidentSlot == old(incidentSlot)
      ensures ok && merge ==> incidentSlot == Items(MergeResult(data.value, old(Incidents())))
      ensures ok && !merge ==> incidentSlot == Items(data.value) && Incidents() == data.value
    {
      if data.None? {
        return false;
      }
      if merge {
        var _ := MergeIncidents(data);
      } else {
        incidentSlot := Items(data.value);
      }
      ok := true;
    }

    /** `saveUser`: register a user with all fields, a known role and a fresh
        username; otherwise refuse without writing. Keeps usernames unique. */
    method SaveUser(username: string, password: string, role: string, now: int) returns (ok: bool)
      modifies this
      ensures incidentSlot == old(incidentSlot) && session == old(session)
      ensures ok <==>
        && username != "" && password != "" && role in {Citizen, Responder}
        && forall u :: u in old(Users()) ==> u.username != username
      ensures !ok ==> userSlot == old(userSlot)
      ensures ok ==> userSlot == Items(old(Users()) + [User(username, password, role, now)])
      ensures UniqueUsernames(old(Users())) ==> UniqueUsernames(Users())
      ensures WellFormedDirectory(old(Users())) ==> WellFormedDirectory(Users())
    {
      if username == "" || password == "" || role == "" {
        return false;
      }
      if role != Citizen && role != Responder {
        return false;
      }
      var users := Users();
      if exists u :: u in users && u.username == username {
        return false;
      }
      users := users + [User(username, password, role, now)];
      userSlot := Items(users);
      ok := true;
    }

    /** `login`: a session for the first user with that username and password;
        empty credentials or no match return null and keep the session. */
    method Login(username: string, password: string, now: int) returns (r: Option<Session>)
      modifies this
      ensures incidentSlot == old(incidentSlot) && userSlot == old(userSlot)
      ensures r.Some? <==>
        && username != "" && password != ""
        && exists u :: u in Users() && HasCredentials(u, username, password)
      ensures r.None? ==> session == old(session) && CurrentUser() == old(CurrentUser())
      ensures r.Some? ==> CurrentUser() == r
      ensures r.Some? ==>
        && session == r
        && r.value.username == username && r.value.loginTime == now
        && r.value.role == FindCredentials(Users(), username, password).value.role
      ensures r.Some? && WellFormedDirectory(Users()) ==>
        CanReport(session) != CanUpdate(session)
    {
      if username == "" || password == "" {
        return None;
      }
      var user := FindCredentials(Users(), username, password);
      if user.None? {
        return None;
      }
      session := Some(Session(user.value.username, user.value.role, now));
      r := session;
    }

    /** `getCurrentUser()`: the read of the session key, or none. */
    function CurrentUser(): Option<Session>
      reads this
    {
      session
    }

    /** `isLoggedIn()`: `getCurrentUser() !== null`; each role gate implies it. */
    predicate IsLoggedIn()
      reads this
      ensures IsLoggedIn() <==> CurrentUser().Some?
      ensures CanReport(CurrentUser()) || CanUpdate(CurrentUser()) ==> IsLoggedIn()
    {
      session.Some?
    }

    /** `logout`: remove the session; afterwards no capability holds. */
    method Logout() returns (ok: bool)
      modifies this
      ensures incidentSlot == old(incidentSlot) && userSlot == old(userSlot)
      ensures ok && session.None? && CurrentUser() == None
      ensures !IsLoggedIn() && !CanReport(CurrentUser()) && !CanUpdate(CurrentUser())
    {
      session := None;
      ok := true;
    }
  }

  /** Reads degrade instead of failing: with the incidents and users keys
      missing or unreadable, deleting finds nothing and writes nothing,
      logging in with any credentials finds no user, and the first save and
      the first registration each start a fresh array. */
  method DegradedStorage(incidentSlot: Stored<Incident>, userSlot: Stored<User>, x: Incident, id: int,
                         username: string, password: string, role: string, now: int)
    returns (deleted: bool, session: Option<Session>, incidents: Stored<Incident>, users: Stored<User>)
    requires !incidentSlot.Items? && !userSlot.Items?
    requires username != "" && password != "" && role in {Citizen, Responder}
    ensures !deleted && session.None?
    ensures incidents == Items([x])
    ensures users == Items([User(username, password, role, now)])
  {
    var store := new LocalStore(incidentSlot, userSlot, None);
    deleted := store.DeleteIncident(id);
    session := store.Login(username, password, now);
    var _ := store.SaveIncident(Some(x));
    var _ := store.SaveUser(username, password, role, now);
    incidents, users := store.incidentSlot, store.userSlot;
  }

  /** The complete workflow example: save two incidents, resolve and verify
      the first, take a backup, clear the cache, and import the backup by
      replacement; the cache ends up exactly as backed up. */
  method CompleteWorkflow(now: int) returns (backup: seq<Incident>, restored: seq<Incident>)
    ensures backup == [
      Incident(1, "fire", "House fire", "123 Main St", "resolved", true, now),
      Incident(2, "medical", "Ambulance needed", "456 Oak Ave", "in-progress", true, now)]
    ensures restored == backup
  {
    var store := new LocalStore(Absent, Absent, None);
    var first := Incident(1, "fire", "House fire", "123 Main St", "open", false, now);
    var second := Incident(2, "medical", "Ambulance needed", "456 Oak Ave", "in-progress", true, now);
    var _ := store.SaveIncident(Some(first));
    assert store.Incidents() == [first];
    var _ := store.SaveIncident(Some(second));
    assert store.Incidents() == [first, second];
    var _ := store.UpdateIncident(1, Some(EmptyPatch.(status := Some("resolved"), verified := Some(true))));
    backup := store.Incidents();
    var _ := store.ClearAllIncidents();
    var _ := store.ImportIncidents(Some(backup), false);
    restored := store.Incidents();
  }
}
