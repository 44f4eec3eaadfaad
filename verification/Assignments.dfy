/** Assignments of users and groups to applications: the stored rows, the event log and the notices. */
module Assignments {
  import opened GoValues
  import Strings

  datatype Result<+T> = Ok(value: T) | Err(error: Error)

  datatype Error = ApplicationNotFound | InvalidSubjectType | SubjectRequired | InvalidVisibility | SubjectNotFound

  /** What a row is stored under: no two rows assign one subject to one application. */
  datatype Key = Key(tenant: string, app: string, subjectType: string, subject: string)

  datatype Row = Row(visibility: string, createdAt: int, updatedAt: int)

  datatype Event = Assigned(key: Key) | Unassigned(key: Key) | AppDeleted(tenant: string, app: string)

  datatype Trigger = Added | Removed

  /** What provisioning is told about a user. */
  datatype Notice = Notice(key: Key, trigger: Trigger)

  type Rows = map<Key, Row>

  datatype State = State(
    rows: Rows,
    events: seq<Event>,
    notices: seq<Notice>,
    apps: set<(string, string)>,
    subjects: set<(string, string, string)>)

  const USER := "user"
  const GROUP := "group"
  const VISIBLE := "visible"
  const HIDDEN := "hidden"

  /** time.Time{} */
  const ZERO_TIME := 0

  predicate ValidVisibility(v: string) {
    v == VISIBLE || v == HIDDEN
  }

  function OrVisible(v: string): string {
    if v == "" then VISIBLE else v
  }

  // ----- the operations on values

  datatype Op =
    | AssignOp(key: Key, visibility: string, now: int)
    | UnassignOp(key: Key)
    | AssignDesiredOp(tenant: string, app: string, user: string, visibility: string, now: int)
    | UnassignDesiredOp(tenant: string, app: string, user: string)
    | DeleteOp(tenant: string, app: string)
    | Elsewhere(apps: set<(string, string)>, subjects: set<(string, string, string)>)

  predicate SubjectExists(s: State, key: Key) {
    (key.tenant, key.subjectType, key.subject) in s.subjects
  }

  function Trim(key: Key): Key {
    key.(subject := Strings.TrimSpace(key.subject))
  }

  function UserKey(tenant: string, app: string, user: string): Key {
    Key(tenant, app, USER, user)
  }

  /** The reason for which an operation is refused, in the order of its checks. */
  function Refusal(s: State, op: Op): Option<Error> {
    match op
    case AssignOp(key, visibility, _) =>
      if (key.tenant, key.app) !in s.apps then Some(ApplicationNotFound)
      else if key.subjectType != USER && key.subjectType != GROUP then Some(InvalidSubjectType)
      else if Trim(key).subject == "" then Some(SubjectRequired)
      else if !ValidVisibility(OrVisible(visibility)) then Some(InvalidVisibility)
      else if !SubjectExists(s, Trim(key)) then Some(SubjectNotFound)
      else None
    case AssignDesiredOp(tenant, app, user, visibility, _) =>
      if !ValidVisibility(OrVisible(visibility)) then Some(InvalidVisibility)
      else if (tenant, app) !in s.apps then Some(ApplicationNotFound)
      else if !SubjectExists(s, UserKey(tenant, app, user)) then Some(SubjectNotFound)
      else None
    case DeleteOp(tenant, app) =>
      if (tenant, app) !in s.apps then Some(ApplicationNotFound) else None
    case _ => None
  }

  /** Storing a row keeps the time at which it was first stored, unless that is the zero time. */
  function Saved(rows: Rows, key: Key, row: Row): Rows {
    rows[key := if key in rows && rows[key].createdAt != ZERO_TIME then row.(createdAt := rows[key].createdAt) else row]
  }

  /** The row of a desired assignment takes over the time of creation of the row it replaces. */
  function Desired(rows: Rows, key: Key, visibility: string, now: int): Row {
    Row(OrVisible(visibility), if key in rows then rows[key].createdAt else now, now)
  }

  predicate OfApp(key: Key, tenant: string, app: string) {
    key.tenant == tenant && key.app == app
  }

  function WithoutApp(rows: Rows, tenant: string, app: string): Rows {
    map k | k in rows && !OfApp(k, tenant, app) :: rows[k]
  }

  function Notified(notices: seq<Notice>, key: Key, trigger: Trigger): seq<Notice> {
    if key.subjectType == USER then notices + [Notice(key, trigger)] else notices
  }

  /** A user's row exists already as it is wanted. */
  predicate AsDesired(rows: Rows, key: Key, visibility: string) {
    key in rows && rows[key].visibility == OrVisible(visibility)
  }

  function Apply(s: State, op: Op): State {
    if Refusal(s, op).Some? then s else
    match op
    case AssignOp(given, visibility, now) =>
      var key := Trim(given);
      s.(rows := Saved(s.rows, key, Row(OrVisible(visibility), now, now)),
         events := s.events + [Assigned(key)],
         notices := Notified(s.notices, key, Added))
    case UnassignOp(key) =>
      s.(rows := s.rows - {key}, events := s.events + [Unassigned(key)], notices := Notified(s.notices, key, Removed))
    case AssignDesiredOp(tenant, app, user, visibility, now) =>
      var key := UserKey(tenant, app, user);
      if AsDesired(s.rows, key, visibility) then s
      else
        s.(rows := Saved(s.rows, key, Desired(s.rows, key, visibility, now)),
           events := s.events + [Assigned(key)],
           notices := if key in s.rows then s.notices else s.notices + [Notice(key, Added)])
    case UnassignDesiredOp(tenant, app, user) =>
      var key := UserKey(tenant, app, user);
      if key !in s.rows then s
      else
        s.(rows := s.rows - {key},
           events := s.events + [Unassigned(key)],
           notices := s.notices + [Notice(key, Removed)])
    case DeleteOp(tenant, app) =>
      s.(rows := WithoutApp(s.rows, tenant, app),
         events := s.events + [AppDeleted(tenant, app)],
         apps := s.apps - {(tenant, app)})
    case Elsewhere(apps, subjects) => s.(apps := apps, subjects := subjects)
  }

  // ----- what the calls leave behind, without the operations on values

  /** A row is stored, one event is appended, and provisioning is told or not; all else is as before. */
  ghost predicate Stores(before: State, after: State, key: Key, row: Row, told: bool) {
    && key in after.rows && after.rows[key] == row
    && SameElsewhere(before.rows, after.rows, key)
    && after.events == before.events + [Assigned(key)]
    && after.notices == before.notices + (if told then [Notice(key, Added)] else [])
    && after.apps == before.apps && after.subjects == before.subjects
  }

  /** A row is gone, one event is appended, and provisioning is told or not; all else is as before. */
  ghost predicate Drops(before: State, after: State, key: Key, told: bool) {
    && key !in after.rows
    && SameElsewhere(before.rows, after.rows, key)
    && after.events == before.events + [Unassigned(key)]
    && after.notices == before.notices + (if told then [Notice(key, Removed)] else [])
    && after.apps == before.apps && after.subjects == before.subjects
  }

  ghost predicate SameElsewhere(before: Rows, after: Rows, key: Key) {
    forall k :: k != key ==> (k in after <==> k in before) && (k in before ==> after[k] == before[k])
  }

  /** The visibility a caller asks for, with "visible" for none. */
  ghost predicate Asks(given: string, visibility: string) {
    && (visibility == "visible" || visibility == "hidden")
    && (given == visibility || (given == "" && visibility == "visible"))
  }

  ghost predicate AsksForNone(given: string) {
    given != "" && given != "visible" && given != "hidden"
  }

  // ----- the store

  class Store {
    var rows: Rows
    var events: seq<Event>
    var notices: seq<Notice>
    var apps: set<(string, string)>
    var subjects: set<(string, string, string)>

    ghost function Value(): State
      reads this
    {
      State(rows, events, notices, apps, subjects)
    }

    constructor (apps: set<(string, string)>, subjects: set<(string, string, string)>)
      ensures Value() == State(map[], [], [], apps, subjects)
    {
      this.rows, this.events, this.notices := map[], [], [];
      this.apps, this.subjects := apps, subjects;
    }

    method Save(key: Key, row: Row)
      modifies this`rows
      ensures rows == Saved(old(rows), key, row)
      ensures SameElsewhere(old(rows), rows, key) && key in rows
      ensures rows[key].visibility == row.visibility && rows[key].updatedAt == row.updatedAt
      ensures rows[key].createdAt ==
              if key in old(rows) && old(rows[key].createdAt) != 0 then old(rows[key].createdAt) else row.createdAt
    {
      var stored := row;
      if key in rows && rows[key].createdAt != ZERO_TIME {
        stored := stored.(createdAt := rows[key].createdAt);
      }
      rows := rows[key := stored];
    }

    /** The rows of one subject, in no particular order. */
    method ListBySubject(tenant: string, subjectType: string, subject: string) returns (list: seq<(Key, Row)>)
      ensures forall k, r :: (k, r) in list <==>
                k in rows && rows[k] == r && k.tenant == tenant && k.subjectType == subjectType && k.subject == subject
    {
      list := [];
      var pending := rows.Keys;
      while pending != {}
        invariant pending <= rows.Keys
        invariant forall k, r :: (k, r) in list <==>
                    && k in rows && k !in pending && rows[k] == r
                    && k.tenant == tenant && k.subjectType == subjectType && k.subject == subject
      {
        var k :| k in pending;
        pending := pending - {k};
        if k.tenant == tenant && k.subjectType == subjectType && k.subject == subject {
          list := list + [(k, rows[k])];
        }
      }
    }

    /** findDirectAssignment finds the row of the user and the application, whatever the order of the listing. */
    method FindDirectAssignment(tenant: string, app: string, user: string) returns (row: Option<Row>)
      ensures row == if UserKey(tenant, app, user) in rows then Some(rows[UserKey(tenant, app, user)]) else None
    {
      var list := ListBySubject(tenant, USER, user);
      ghost var key := UserKey(tenant, app, user);
      assert key in rows ==> (key, rows[key]) in list;
      for i := 0 to |list|
        invariant forall k :: 0 <= k < i ==> list[k].0.app != app
      {
        assert (list[i].0, list[i].1) in list;
        if list[i].0.app == app {
          return Some(list[i].1);
        }
      }
      return None;
    }

    /** The row that is returned carries the new time of creation even where the stored row keeps its own. */
    method AssignApplication(given: Key, visibility: string, now: int) returns (r: Result<Row>)
      modifies this
      ensures Value() == Apply(old(Value()), AssignOp(given, visibility, now))
      ensures r == if Refusal(old(Value()), AssignOp(given, visibility, now)).Some?
                   then Err(Refusal(old(Value()), AssignOp(given, visibility, now)).value)
                   else Ok(Row(OrVisible(visibility), now, now))
      ensures r == Err(ApplicationNotFound) <==> (given.tenant, given.app) !in old(apps)
      ensures r == Err(InvalidSubjectType) <==>
              (given.tenant, given.app) in old(apps) && given.subjectType != "user" && given.subjectType != "group"
      ensures r == Err(SubjectRequired) <==>
              && (given.tenant, given.app) in old(apps) && (given.subjectType == "user" || given.subjectType == "group")
              && Strings.TrimSpace(given.subject) == ""
      ensures r == Err(InvalidVisibility) <==>
              && (given.tenant, given.app) in old(apps) && (given.subjectType == "user" || given.subjectType == "group")
              && Strings.TrimSpace(given.subject) != "" && AsksForNone(visibility)
      ensures r == Err(SubjectNotFound) <==>
              && (given.tenant, given.app) in old(apps) && (given.subjectType == "user" || given.subjectType == "group")
              && Strings.TrimSpace(given.subject) != "" && !AsksForNone(visibility)
              && (given.tenant, given.subjectType, Strings.TrimSpace(given.subject)) !in old(subjects)
      ensures r.Err? ==> Value() == old(Value())
      ensures r.Ok? ==>
                var key := given.(subject := Strings.TrimSpace(given.subject));
                && Asks(visibility, r.value.visibility) && r.value.createdAt == now && r.value.updatedAt == now
                && Stores(old(Value()), Value(), key,
                          r.value.(createdAt := if key in old(rows) && old(rows)[key].createdAt != 0
                                                then old(rows)[key].createdAt else now),
                          given.subjectType == "user")
    {
      if (given.tenant, given.app) !in apps {
        return Err(ApplicationNotFound);
      }
      if given.subjectType != USER && given.subjectType != GROUP {
        return Err(InvalidSubjectType);
      }
      var key := given.(subject := Strings.TrimSpace(given.subject));
      if key.subject == "" {
        return Err(SubjectRequired);
      }
      var shown := if visibility == "" then VISIBLE else visibility;
      if !ValidVisibility(shown) {
        return Err(InvalidVisibility);
      }
      if (key.tenant, key.subjectType, key.subject) !in subjects {
        return Err(SubjectNotFound);
      }
      var row := Row(shown, now, now);
      Save(key, row);
      events := events + [Assigned(key)];
      if key.subjectType == USER {
        notices := notices + [Notice(key, Added)];
      }
      return Ok(row);
    }

    method UnassignApplication(key: Key)
      modifies this
      ensures Value() == Apply(old(Value()), UnassignOp(key))
      ensures Drops(old(Value()), Value(), key, key.subjectType == "user")
    {
      rows := rows - {key};
      events := events + [Unassigned(key)];
      if key.subjectType == USER {
        notices := notices + [Notice(key, Removed)];
      }
    }

    method AssignApplicationDesiredState(tenant: string, app: string, user: string, visibility: string, now: int)
      returns (changed: Result<bool>)
      modifies this
      ensures Value() == Apply(old(Value()), AssignDesiredOp(tenant, app, user, visibility, now))
      ensures changed == if Refusal(old(Value()), AssignDesiredOp(tenant, app, user, visibility, now)).Some?
                         then Err(Refusal(old(Value()), AssignDesiredOp(tenant, app, user, visibility, now)).value)
                         else Ok(!AsDesired(old(rows), UserKey(tenant, app, user), visibility))
      ensures changed == Err(InvalidVisibility) <==> AsksForNone(visibility)
      ensures changed == Err(ApplicationNotFound) <==> !AsksForNone(visibility) && (tenant, app) !in old(apps)
      ensures changed == Err(SubjectNotFound) <==>
              !AsksForNone(visibility) && (tenant, app) in old(apps) && (tenant, "user", user) !in old(subjects)
      ensures changed.Err? ==> changed.error in {InvalidVisibility, ApplicationNotFound, SubjectNotFound}
      ensures var key := Key(tenant, app, "user", user);
              changed == Ok(false) <==>
              && !AsksForNone(visibility) && (tenant, app) in old(apps) && (tenant, "user", user) in old(subjects)
              && key in old(rows) && Asks(visibility, old(rows)[key].visibility)
      ensures changed != Ok(true) ==> Value() == old(Value())
      ensures changed == Ok(true) ==>
                var key := Key(tenant, app, "user", user);
                && key in rows && Asks(visibility, rows[key].visibility)
                && rows[key].createdAt == (if key in old(rows) then old(rows)[key].createdAt else now)
                && rows[key].updatedAt == now
                && Stores(old(Value()), Value(), key, rows[key], key !in old(rows))
    {
      var shown := if visibility == "" then VISIBLE else visibility;
      if !ValidVisibility(shown) {
        return Err(InvalidVisibility);
      }
      if (tenant, app) !in apps {
        return Err(ApplicationNotFound);
      }
      if (tenant, USER, user) !in subjects {
        return Err(SubjectNotFound);
      }
      var current := FindDirectAssignment(tenant, app, user);
      if current.Some? && current.value.visibility == shown {
        return Ok(false);
      }
      var key := UserKey(tenant, app, user);
      Save(key, Row(shown, if current.Some? then current.value.createdAt else now, now));
      events := events + [Assigned(key)];
      if current.None? {
        notices := notices + [Notice(key, Added)];
      }
      return Ok(true);
    }

    method UnassignApplicationDesiredState(tenant: string, app: string, user: string) returns (changed: bool)
      modifies this
      ensures Value() == Apply(old(Value()), UnassignDesiredOp(tenant, app, user))
      ensures changed <==> Key(tenant, app, "user", user) in old(rows)
      ensures if changed then Drops(old(Value()), Value(), Key(tenant, app, "user", user), true)
              else Value() == old(Value())
    {
      var current := FindDirectAssignment(tenant, app, user);
      if current.None? {
        return false;
      }
      var key := UserKey(tenant, app, user);
      rows := rows - {key};
      events := events + [Unassigned(key)];
      notices := notices + [Notice(key, Removed)];
      return true;
    }

    method DeleteByApplication(tenant: string, app: string)
      modifies this`rows
      ensures rows == WithoutApp(old(rows), tenant, app)
      ensures forall k :: k in rows <==> k in old(rows) && !(k.tenant == tenant && k.app == app)
      ensures forall k :: k in rows ==> rows[k] == old(rows)[k]
    {
      var pending := rows.Keys;
      while pending != {}
        invariant pending <= rows.Keys
        invariant rows == map k | k in old(rows) && (k in pending || !OfApp(k, tenant, app)) :: old(rows)[k]
        decreases pending
      {
        var k :| k in pending;
        pending := pending - {k};
        if k.tenant == tenant && k.app == app {
          rows := rows - {k};
        }
      }
    }

    method DeleteApplication(tenant: string, app: string) returns (r: Result<()>)
      modifies this
      ensures Value() == Apply(old(Value()), DeleteOp(tenant, app))
      ensures r == if (tenant, app) in old(apps) then Ok(()) else Err(ApplicationNotFound)
      ensures r.Err? ==> Value() == old(Value())
      ensures r.Ok? ==>
                && (forall k :: k in rows <==> k in old(rows) && !(k.tenant == tenant && k.app == app))
                && (forall k :: k in rows ==> rows[k] == old(rows)[k])
                && events == old(events) + [AppDeleted(tenant, app)] && notices == old(notices)
                && apps == old(apps) - {(tenant, app)} && subjects == old(subjects)
    {
      if (tenant, app) !in apps {
        return Err(ApplicationNotFound);
      }
      DeleteByApplication(tenant, app);
      apps := apps - {(tenant, app)};
      events := events + [AppDeleted(tenant, app)];
      return Ok(());
    }
  }
}
