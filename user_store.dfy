/**
 * The request handlers of the user controller over the three trees they use.
 * The tree store is three maps owned by one `Store` object; every handler is
 * a method on it that returns the HTTP status and the JSON payload as a
 * `Response`. A tree the store does not hold reads as `null`, which the model
 * writes as the empty map: the store never keeps an empty node.
 */
module UserStore {
  import opened Records
  import opened BulkUpdate
  import Report

  /** The JSON payload of a response. */
  datatype Body =
    | Message(text: string)
      // `{ message }`
    | Tree(records: map<string, Record>)
      // a whole tree, code to record
    | User(user: Record)
      // one record as stored
    | Saved(text: string, user: Record)
      // `{ message, user }`
    | BulkResults(successful: seq<Success>, failed: seq<Failure>)
      // `{ message, results }`; the message only renders the two list lengths
    | Rows(rows: seq<Report.ReportRow>)
      // the attendance report, a JSON array

  datatype Response = Response(status: int, body: Body)

  /** The request body of `PUT /api/users/:code`: one object or an array. */
  datatype UpdateBody = One(fields: Record) | Many(items: seq<Record>)

  const NO_USERS: string := "No users found"
  const USER_NOT_FOUND: string := "User not found"
  const FIELDS_REQUIRED: string := "Code and fullName are required fields"
  const ALREADY_EXISTS: string := "User with this code already exists"
  const CREATED: string := "User created successfully"
  const UPDATED: string := "User updated successfully"
  const DELETED: string := "User deleted successfully"

  /** The store keeps no empty record. */
  ghost predicate Stored(tree: map<string, Record>) {
    forall k :: k in tree ==> tree[k] != map[]
  }

  /** Storing a non-empty record keeps the tree free of empty records. */
  lemma StoredUpdate(tree: map<string, Record>, k: string, rec: Record)
    requires Stored(tree) && rec != map[]
    ensures Stored(tree[k := rec])
  {
  }

  /** The events stored under `attendance/{c}`, none when that subtree is absent. */
  function StoredEvents(attendance: map<string, map<string, Report.AttRecord>>, c: string)
    : map<string, Report.AttRecord>
  {
    if c in attendance then attendance[c] else map[]
  }

  /** Over listings of the store's trees, every report row is a stored user
      the filter selects, with its projected fields and one entry per event
      stored under its `code`. */
  lemma RowsAreStoredUsers(users: map<string, Record>, attendance: map<string, map<string, Report.AttRecord>>,
                           userOrder: Report.UserList, eventOrder: Report.AttendanceTree,
                           snap: Option<Report.AttendanceTree>, level: Option<string>)
    requires Lists(userOrder, users)
    requires eventOrder.Keys == attendance.Keys
    requires forall c :: c in attendance ==> Lists(eventOrder[c], attendance[c])
    requires snap == if attendance == map[] then None else Some(eventOrder)
    ensures forall i :: 0 <= i < |Report.BuildReport(Some(userOrder), snap, level)| ==>
              var row := Report.BuildReport(Some(userOrder), snap, level)[i];
              && row.id in users
              && Report.Selected(level, users[row.id])
              && row.user == Report.Project(users[row.id])
              && |row.attendance| == |StoredEvents(attendance, Report.JoinKey(users[row.id]))|
  {
    var rows := Report.BuildReport(Some(userOrder), snap, level);
    var kept := Report.Kept(userOrder, level);
    Report.KeptSelected(userOrder, level);
    forall i | 0 <= i < |rows|
      ensures rows[i].id in users && users[rows[i].id] == kept[i].1
      ensures Report.Selected(level, kept[i].1)
      ensures |rows[i].attendance| == |StoredEvents(attendance, Report.JoinKey(kept[i].1))|
    {
      assert kept[i] in kept;
      assert rows[i] == Report.Row(kept[i].0, kept[i].1, snap);
      var j :| 0 <= j < |userOrder| && userOrder[j] == kept[i];
      var c := Report.JoinKey(kept[i].1);
      assert |rows[i].attendance| == |multiset(rows[i].attendance)|;
      if c in attendance {
        ListsCount(eventOrder[c], attendance[c]);
      }
    }
  }

  /** Over a listing of the users tree, every stored user the filter selects
      has a row. */
  lemma StoredUsersHaveRows(users: map<string, Record>, userOrder: Report.UserList,
                            snap: Option<Report.AttendanceTree>, level: Option<string>)
    requires Lists(userOrder, users)
    ensures forall k :: k in users && Report.Selected(level, users[k]) ==>
              exists i :: 0 <= i < |Report.BuildReport(Some(userOrder), snap, level)|
                       && Report.BuildReport(Some(userOrder), snap, level)[i].id == k
  {
    var rows := Report.BuildReport(Some(userOrder), snap, level);
    var kept := Report.Kept(userOrder, level);
    Report.KeptSelected(userOrder, level);
    forall k | k in users && Report.Selected(level, users[k])
      ensures exists i :: 0 <= i < |rows| && rows[i].id == k
    {
      var j :| 0 <= j < |userOrder| && userOrder[j].0 == k;
      assert userOrder[j] in kept;
      var i :| 0 <= i < |kept| && kept[i] == userOrder[j];
    }
  }

  class Store {
    /** `users/{code}` */
    var users: map<string, Record>
    /** `penddingUsers/{code}` */
    var pending: map<string, Record>
    /** `attendance/{userCode}/{eventId}` */
    var attendance: map<string, map<string, Report.AttRecord>>

    /** The shape the tree store guarantees: no empty nodes. */
    ghost predicate Valid()
      reads this
    {
      && Stored(users)
      && Stored(pending)
      && forall k :: k in attendance ==> attendance[k] != map[]
    }

    constructor (users: map<string, Record>, pending: map<string, Record>,
                 attendance: map<string, map<string, Report.AttRecord>>)
      requires Stored(users) && Stored(pending)
      requires forall k :: k in attendance ==> attendance[k] != map[]
      ensures Valid()
      ensures this.users == users && this.pending == pending && this.attendance == attendance
    {
      this.users := users;
      this.pending := pending;
      this.attendance := attendance;
    }

    /** `GET /api/users`: the whole users tree, or 404 when there is none. */
    method GetAllUsers() returns (resp: Response)
      ensures resp.status == 404 <==> users == map[]
      ensures users == map[] ==> resp.body == Message(NO_USERS)
      ensures users != map[] ==> resp == Response(200, Tree(users))
    {
      if users == map[] {
        return Response(404, Message(NO_USERS));
      }
      return Response(200, Tree(users));
    }

    /** `GET /api/users/pending`: the whole pending tree, or 404 when there is none. */
    method GetPendingUsers() returns (resp: Response)
      ensures resp.status == 404 <==> pending == map[]
      ensures pending == map[] ==> resp.body == Message(NO_USERS)
      ensures pending != map[] ==> resp == Response(200, Tree(pending))
    {
      if pending == map[] {
        return Response(404, Message(NO_USERS));
      }
      return Response(200, Tree(pending));
    }

    /** `GET /api/users/:code`: one user, looked up in `users` only. */
    method GetUserByCode(code: string) returns (resp: Response)
      ensures resp.status == 404 <==> code !in users
      ensures code !in users ==> resp.body == Message(USER_NOT_FOUND)
      ensures code in users ==> resp == Response(200, User(users[code]))
    {
      if code !in users {
        return Response(404, Message(USER_NOT_FOUND));
      }
      return Response(200, User(users[code]));
    }

    /** `POST /api/users`: a registration lands in the pending tree under its
        own code, replacing nothing; the users tree is never touched. */
    method CreateUser(body: Record) returns (resp: Response)
      requires Valid()
      modifies this`pending
      ensures Valid()
      ensures users == old(users) && attendance == old(attendance)
      ensures !(Truthy(body, "code") && Truthy(body, "fullName")) ==>
                resp == Response(400, Message(FIELDS_REQUIRED)) && pending == old(pending)
      ensures Truthy(body, "code") && Truthy(body, "fullName") && body["code"] in old(pending) ==>
                resp == Response(409, Message(ALREADY_EXISTS)) && pending == old(pending)
      ensures Truthy(body, "code") && Truthy(body, "fullName") && body["code"] !in old(pending) ==>
                resp == Response(201, Saved(CREATED, body)) && pending == old(pending)[body["code"] := body]
    {
      if !Truthy(body, "code") || !Truthy(body, "fullName") {
        return Response(400, Message(FIELDS_REQUIRED));
      }
      var code := body["code"];
      if code in pending {
        return Response(409, Message(ALREADY_EXISTS));
      }
      pending := pending[code := body];
      return Response(201, Saved(CREATED, body));
    }

    /** `DELETE /api/users/:code`: removes that one user; pending users and
        attendance, the user's own attendance included, stay. */
    method DeleteUser(code: string) returns (resp: Response)
      requires Valid()
      modifies this`users
      ensures Valid()
      ensures pending == old(pending) && attendance == old(attendance)
      ensures code !in old(users) ==> resp == Response(404, Message(USER_NOT_FOUND)) && users == old(users)
      ensures code in old(users) ==> resp == Response(200, Message(DELETED)) && users == old(users) - {code}
    {
      if code !in users {
        return Response(404, Message(USER_NOT_FOUND));
      }
      users := users - {code};
      return Response(200, Message(DELETED));
    }

    /** `PUT /api/users/:code`: an array body runs bulk mode and ignores the
        path code; an object body updates the user at the path code. */
    method UpdateUser(code: string, body: UpdateBody) returns (resp: Response)
      requires Valid()
      modifies this`users
      ensures Valid()
      ensures pending == old(pending) && attendance == old(attendance)
      ensures body.Many? ==>
                var st := Apply(old(users), body.items);
                users == st.users && resp == Response(200, BulkResults(st.successful, st.failed))
      ensures body.One? && code !in old(users) ==>
                resp == Response(404, Message(USER_NOT_FOUND)) && users == old(users)
      ensures body.One? && code in old(users) ==>
                && users == old(users)[code := Merge(old(users)[code], body.fields)]
                && resp == Response(200, Saved(UPDATED, users[code]))
    {
      match body
      case Many(items) =>
        resp := UpdateBulk(items);
      case One(fields) =>
        resp := UpdateOne(code, fields);
    }

    /** Single mode: every submitted field, `code` included, is merged into
        the record stored under the path code, which stays its key. */
    method UpdateOne(code: string, fields: Record) returns (resp: Response)
      requires Valid()
      modifies this`users
      ensures Valid()
      ensures code !in old(users) ==> resp == Response(404, Message(USER_NOT_FOUND)) && users == old(users)
      ensures code in old(users) ==>
                && users == old(users)[code := Merge(old(users)[code], fields)]
                && resp == Response(200, Saved(UPDATED, users[code]))
    {
      if code !in users {
        return Response(404, Message(USER_NOT_FOUND));
      }
      MergeNonEmpty(users[code], fields);
      users := users[code := Merge(users[code], fields)];
      return Response(200, Saved(UPDATED, users[code]));
    }

    /** `GET /api/users/attendance`: the report over the store's trees.
        `userOrder` is the users tree and `eventOrder[c]` the subtree
        `attendance/{c}`, each in the key order `Object.keys` yields. The
        rows are exactly the stored users the level filter selects, each
        with its projected fields and one entry per event stored under its
        `code`. */
    method GetUsersAttendance(level: Option<string>, userOrder: Report.UserList,
                              eventOrder: Report.AttendanceTree)
      returns (resp: Response)
      requires Lists(userOrder, users)
      requires eventOrder.Keys == attendance.Keys
      requires forall c :: c in attendance ==> Lists(eventOrder[c], attendance[c])
      ensures resp.status == 200 && resp.body.Rows?
      ensures resp.body.rows == Report.BuildReport(if users == map[] then None else Some(userOrder),
                                                   if attendance == map[] then None else Some(eventOrder),
                                                   level)
      ensures forall i :: 0 <= i < |resp.body.rows| ==>
                var row := resp.body.rows[i];
                && row.id in users
                && Report.Selected(level, users[row.id])
                && row.user == Report.Project(users[row.id])
                && |row.attendance| == |StoredEvents(attendance, Report.JoinKey(users[row.id]))|
      ensures forall k :: k in users && Report.Selected(level, users[k]) ==>
                exists i :: 0 <= i < |resp.body.rows| && resp.body.rows[i].id == k
      ensures Report.KeepsAll(level) ==> |resp.body.rows| == |users|
    {
      var usersSnap := if users == map[] then None else Some(userOrder);
      var attendanceSnap := if attendance == map[] then None else Some(eventOrder);
      var rows := Report.BuildReport(usersSnap, attendanceSnap, level);
      if users != map[] {
        RowsAreStoredUsers(users, attendance, userOrder, eventOrder, attendanceSnap, level);
        StoredUsersHaveRows(users, userOrder, attendanceSnap, level);
        if Report.KeepsAll(level) {
          Report.KeptAll(userOrder, level);
          ListsCount(userOrder, users);
        }
      }
      return Response(200, Rows(rows));
    }

    /** Bulk mode: the items one after the other, as `Apply` defines. */
    method UpdateBulk(items: seq<Record>) returns (resp: Response)
      requires Valid()
      modifies this`users
      ensures Valid()
      ensures var st := Apply(old(users), items);
              users == st.users && resp == Response(200, BulkResults(st.successful, st.failed))
    {
      ghost var initial := users;
      var successful: seq<Success> := [];
      var failed: seq<Failure> := [];
      for i := 0 to |items|
        invariant Stored(users)
        invariant Apply(initial, items[..i]) == BulkState(users, successful, failed)
      {
        var item := items[i];
        ApplyStep(initial, items, i);
        if !Truthy(item, "code") {
          NextRejected(BulkState(users, successful, failed), item);
          failed := failed + [Failure(item, MISSING_CODE)];
          continue;
        }
        var userCode := item["code"];
        if userCode !in users {
          NextRejected(BulkState(users, successful, failed), item);
          failed := failed + [Failure(item, NOT_FOUND)];
          continue;
        }
        var merged := Merge(users[userCode], UpdateData(item));
        NextUpdated(BulkState(users, successful, failed), item);
        MergeNonEmpty(users[userCode], UpdateData(item));
        StoredUpdate(users, userCode, merged);
        users := users[userCode := merged];
        successful := successful + [Success(userCode, users[userCode])];
      }
      assert items[..|items|] == items;
      return Response(200, BulkResults(successful, failed));
    }
  }

  /** A registration stays pending: it can be read from the pending tree, a
      second one with the same code is refused, and the user is not found in
      the users tree. */
  method RegistrationScenario() {
    var store := new Store(map[], map[], map[]);
    var jane: Record := map["code" := "A1", "fullName" := "Jane"];
    var created := store.CreateUser(jane);
    assert created.status == 201;
    var again := store.CreateUser(map["code" := "A1", "fullName" := "Joan"]);
    assert again.status == 409;
    var pendingList := store.GetPendingUsers();
    assert pendingList == Response(200, Tree(map["A1" := jane]));
    var lookup := store.GetUserByCode("A1");
    assert lookup.status == 404;
  }

  /** Single mode writes a submitted `code` field into the record, while bulk
      mode leaves it alone; the record stays under its old key either way. */
  method CodeRewriteScenario() {
    var stored: Record := map["code" := "A1", "fullName" := "Jane"];
    var store := new Store(map["A1" := stored], map[], map[]);
    var bulk := store.UpdateUser("ignored", Many([map["code" := "A1", "level" := "2"]]));
    assert bulk.status == 200;
    assert store.users["A1"]["code"] == "A1" && store.users["A1"]["level"] == "2";
    var single := store.UpdateUser("A1", One(map["code" := "B2"]));
    assert single.status == 200;
    assert "A1" in store.users && "B2" !in store.users;
    assert store.users["A1"]["code"] == "B2";
  }
}
