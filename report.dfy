/**
 * The attendance report (`getUsersAttendance`): a join of the `users` tree and
 * the `attendance` tree, filtered by level and with each user's attendance
 * sorted newest first.
 *
 * Both trees come in as ordered snapshots: the order in which `Object.keys`
 * enumerates a tree is an input, given as a sequence of (key, value) pairs.
 * Timestamps are integers (milliseconds since the epoch) instead of the
 * strings the store holds and `new Date` parses.
 */
module Report {
  import opened Records

  /** An attendance node `attendance/{userCode}/{eventId}`. */
  datatype AttRecord = AttRecord(dateTime: int, status: string, studentId: string)

  /** One element of a user's `attendance` list in the report. */
  datatype AttEntry = AttEntry(id: string, dateTime: int, status: string, studentId: string)

  /** One element of the report: the projected user, its storage key as `id`,
      and its attendance list. */
  datatype ReportRow = ReportRow(id: string, user: Record, attendance: seq<AttEntry>)

  /** A snapshot of the `users` tree in key order. */
  type UserList = seq<(string, Record)>

  /** A snapshot of one `attendance/{userCode}` subtree in key order. */
  type EventList = seq<(string, AttRecord)>

  /** The snapshot of the whole `attendance` tree, by user code. */
  type AttendanceTree = map<string, EventList>

  /** The user fields copied into the report (besides `id`). */
  const PROJECTED_FIELDS: set<string> :=
    {"code", "fullName", "level", "church", "birthdate", "gender", "address", "phoneNumber"}

  /** The copy of a user made for the report: exactly the projected fields the
      record has (a missing one is `undefined` and so absent from the JSON). */
  function Project(rec: Record): (p: Record)
    ensures p.Keys == rec.Keys * PROJECTED_FIELDS
    ensures forall f :: f in p ==> p[f] == rec[f]
  {
    map f | f in rec && f in PROJECTED_FIELDS :: rec[f]
  }

  /** `!(level && level !== 'all')`: no filtering happens. */
  predicate KeepsAll(level: Option<string>) {
    level.None? || level.value == "" || level.value == "all"
  }

  /** Whether the filter keeps a user: everybody, or exactly the users whose
      `level` field equals the requested level (a user with no `level` is
      `undefined`, which equals no string). */
  predicate Selected(level: Option<string>, rec: Record) {
    KeepsAll(level) || ("level" in rec && rec["level"] == level.value)
  }

  /** The users the filter keeps, in snapshot order. */
  function Kept(users: UserList, level: Option<string>): (r: UserList)
    ensures |r| <= |users|
  {
    if users == [] then []
    else (if Selected(level, users[0].1) then [users[0]] else []) + Kept(users[1..], level)
  }

  /** Filtering distributes over concatenation: it keeps input order. */
  lemma {:induction false} KeptAppend(a: UserList, b: UserList, level: Option<string>)
    ensures Kept(a + b, level) == Kept(a, level) + Kept(b, level)
  {
    if a == [] {
      assert a + b == b;
    } else {
      var ab := a + b;
      assert ab[0] == a[0] && ab[1..] == a[1..] + b;
      KeptAppend(a[1..], b, level);
      var h := if Selected(level, a[0].1) then [a[0]] else [];
      assert Kept(ab, level) == h + Kept(a[1..] + b, level);
      assert Kept(a, level) == h + Kept(a[1..], level);
    }
  }

  /** Exactly the selected users survive the filter. */
  lemma {:induction false} KeptSelected(users: UserList, level: Option<string>)
    ensures forall x :: x in Kept(users, level) <==> x in users && Selected(level, x.1)
  {
    if users != [] {
      KeptSelected(users[1..], level);
      assert users == [users[0]] + users[1..];
    }
  }

  /** Without a level, with the empty level and with `'all'`, nobody is dropped. */
  lemma {:induction false} KeptAll(users: UserList, level: Option<string>)
    requires KeepsAll(level)
    ensures Kept(users, level) == users
  {
    if users != [] {
      KeptAll(users[1..], level);
    }
  }

  /** The key under which a user's attendance is looked up: `attendance[user.code]`.
      A user without `code` is looked up under the property name `"undefined"`,
      which is what JavaScript makes of `attendance[undefined]`. */
  function JoinKey(rec: Record): (k: string)
    ensures "code" in rec ==> k == rec["code"]
    ensures "code" !in rec ==> k == "undefined"
  {
    if "code" in rec then rec["code"] else "undefined"
  }

  /** The attendance subtree joined to a user key, empty when the whole tree
      or that subtree is absent. */
  function EventsOf(attendance: Option<AttendanceTree>, key: string): EventList {
    if attendance.Some? && key in attendance.value then attendance.value[key] else []
  }

  /** The clean copy of one attendance node. */
  function Entry(ev: (string, AttRecord)): (e: AttEntry)
    ensures e.id == ev.0
    ensures e.dateTime == ev.1.dateTime && e.status == ev.1.status && e.studentId == ev.1.studentId
  {
    AttEntry(ev.0, ev.1.dateTime, ev.1.status, ev.1.studentId)
  }

  /** The clean copies of a subtree, in snapshot order. */
  function Entries(evs: EventList): seq<AttEntry> {
    seq(|evs|, i requires 0 <= i < |evs| => Entry(evs[i]))
  }

  /** A subtree becomes one entry per node, at the same position, with the
      node's key as `id`: nothing is added or dropped. */
  lemma EntriesCopy(evs: EventList)
    ensures |Entries(evs)| == |evs|
    ensures forall i :: 0 <= i < |evs| ==> Entries(evs)[i] == Entry(evs[i]) && Entries(evs)[i].id == evs[i].0
  {
  }

  /** Newest first: `dateTime` never increases along the list. */
  predicate NewestFirst(es: seq<AttEntry>) {
    forall i, j :: 0 <= i < j < |es| ==> es[i].dateTime >= es[j].dateTime
  }

  /** Inserts an entry into a newest-first list. */
  function Insert(e: AttEntry, es: seq<AttEntry>): (r: seq<AttEntry>)
    requires NewestFirst(es)
    ensures NewestFirst(r)
    ensures multiset(r) == multiset(es) + multiset{e}
  {
    if es == [] then [e]
    else if es[0].dateTime <= e.dateTime then [e] + es
    else
      var rest := Insert(e, es[1..]);
      assert es == [es[0]] + es[1..];
      PrependNewest(es[0], es[1..], e, rest);
      [es[0]] + rest
  }

  /** Putting `h` in front of a newest-first list made of entries no newer than
      `h` keeps it newest first. */
  lemma PrependNewest(h: AttEntry, tail: seq<AttEntry>, e: AttEntry, rest: seq<AttEntry>)
    requires NewestFirst([h] + tail) && NewestFirst(rest)
    requires e.dateTime < h.dateTime
    requires multiset(rest) == multiset(tail) + multiset{e}
    ensures NewestFirst([h] + rest)
  {
    forall j | 0 <= j < |rest| ensures rest[j].dateTime <= h.dateTime {
      assert rest[j] in multiset(rest);
      if rest[j] != e {
        assert rest[j] in tail;
        var k :| 0 <= k < |tail| && tail[k] == rest[j];
        assert ([h] + tail)[0] == h && ([h] + tail)[k + 1] == tail[k];
      }
    }
    var r := [h] + rest;
    forall i, j | 0 <= i < j < |r| ensures r[i].dateTime >= r[j].dateTime {
      if i > 0 {
        assert r[i] == rest[i - 1] && r[j] == rest[j - 1];
      } else {
        assert r[j] == rest[j - 1];
      }
    }
  }

  /** The comparator `new Date(b.dateTime) - new Date(a.dateTime)`: sorts a
      list newest first, as a permutation of its input. */
  function SortNewestFirst(es: seq<AttEntry>): (r: seq<AttEntry>)
    ensures NewestFirst(r)
    ensures multiset(r) == multiset(es)
  {
    if es == [] then []
    else
      assert es == [es[0]] + es[1..];
      Insert(es[0], SortNewestFirst(es[1..]))
  }

  /** One report row: the projected user and its sorted attendance. */
  function Row(key: string, rec: Record, attendance: Option<AttendanceTree>): (row: ReportRow)
    ensures row.id == key && row.user == Project(rec)
    ensures NewestFirst(row.attendance)
    ensures multiset(row.attendance) == multiset(Entries(EventsOf(attendance, JoinKey(rec))))
  {
    ReportRow(key, Project(rec), SortNewestFirst(Entries(EventsOf(attendance, JoinKey(rec)))))
  }

  /** The report: `[]` when the users tree is absent; otherwise one row per
      user the level filter keeps, in snapshot order, whose attendance is the
      user's subtree (joined on `code`, not on the storage key) newest first. */
  function BuildReport(users: Option<UserList>, attendance: Option<AttendanceTree>, level: Option<string>)
    : (r: seq<ReportRow>)
    ensures users.None? ==> r == []
    ensures users.Some? ==> |r| == |Kept(users.value, level)|
    ensures users.Some? ==> forall i :: 0 <= i < |r| ==>
              var (key, rec) := Kept(users.value, level)[i];
              && r[i].id == key
              && r[i].user == Project(rec)
              && NewestFirst(r[i].attendance)
              && multiset(r[i].attendance) == multiset(Entries(EventsOf(attendance, JoinKey(rec))))
  {
    if users.None? then []
    else
      var kept := Kept(users.value, level);
      seq(|kept|, i requires 0 <= i < |kept| => Row(kept[i].0, kept[i].1, attendance))
  }

  /** `level=all` and the empty level give the same report as no level. */
  lemma LevelAllIsNoFilter(users: Option<UserList>, attendance: Option<AttendanceTree>, level: Option<string>)
    requires KeepsAll(level)
    ensures BuildReport(users, attendance, level) == BuildReport(users, attendance, None)
  {
    if users.Some? {
      KeptAll(users.value, level);
      KeptAll(users.value, None);
    }
  }

  /** With a real level, every row is a user whose `level` is exactly that level. */
  lemma LevelFilterSound(users: UserList, attendance: Option<AttendanceTree>, level: string)
    requires level != "" && level != "all"
    ensures forall row :: row in BuildReport(Some(users), attendance, Some(level)) ==>
              "level" in row.user && row.user["level"] == level
  {
    var r := BuildReport(Some(users), attendance, Some(level));
    var kept := Kept(users, Some(level));
    KeptSelected(users, Some(level));
    forall row | row in r ensures "level" in row.user && row.user["level"] == level {
      var i :| 0 <= i < |r| && r[i] == row;
      assert kept[i] in kept;
      assert row == Row(kept[i].0, kept[i].1, attendance);
    }
  }

  /** With a real level, every user of the snapshot with exactly that level has a row. */
  lemma LevelFilterComplete(users: UserList, attendance: Option<AttendanceTree>, level: string)
    requires level != "" && level != "all"
    ensures forall x :: x in users && "level" in x.1 && x.1["level"] == level ==>
              exists row :: row in BuildReport(Some(users), attendance, Some(level)) && row.id == x.0
  {
    var r := BuildReport(Some(users), attendance, Some(level));
    var kept := Kept(users, Some(level));
    KeptSelected(users, Some(level));
    forall x | x in users && "level" in x.1 && x.1["level"] == level
      ensures exists row :: row in r && row.id == x.0
    {
      assert x in kept;
      var i :| 0 <= i < |kept| && kept[i] == x;
      assert r[i] in r;
    }
  }

  /** Reports of two snapshot halves concatenate: rows keep snapshot order. */
  lemma ReportAppend(a: UserList, b: UserList, attendance: Option<AttendanceTree>, level: Option<string>)
    ensures BuildReport(Some(a + b), attendance, level)
         == BuildReport(Some(a), attendance, level) + BuildReport(Some(b), attendance, level)
  {
    KeptAppend(a, b, level);
    var ka, kb := Kept(a, level), Kept(b, level);
    var r := BuildReport(Some(a + b), attendance, level);
    var ra, rb := BuildReport(Some(a), attendance, level), BuildReport(Some(b), attendance, level);
    assert Kept(a + b, level) == ka + kb;
    assert |r| == |ra| + |rb|;
    forall i | 0 <= i < |r| ensures r[i] == (ra + rb)[i] {
      if i < |ka| {
        assert (ka + kb)[i] == ka[i];
        assert r[i] == Row(ka[i].0, ka[i].1, attendance) == ra[i];
      } else {
        assert (ka + kb)[i] == kb[i - |ka|];
        assert r[i] == Row(kb[i - |ka|].0, kb[i - |ka|].1, attendance) == rb[i - |ka|];
      }
    }
  }

  /** A one-user snapshot gives one row exactly when the filter keeps that user. */
  lemma ReportSingleton(key: string, rec: Record, attendance: Option<AttendanceTree>, level: Option<string>)
    ensures BuildReport(Some([(key, rec)]), attendance, level)
         == if Selected(level, rec) then [Row(key, rec, attendance)] else []
  {
    assert [(key, rec)][1..] == [];
    if Selected(level, rec) {
      assert Kept([(key, rec)], level) == [(key, rec)];
    } else {
      assert Kept([(key, rec)], level) == [];
    }
  }

  /** When the snapshot lists the stored subtree of the user's code, the row's
      attendance has exactly one entry for each stored event, carrying that
      event's key as `id` and its fields. */
  lemma RowListsSubtree(key: string, rec: Record, attendance: AttendanceTree, m: map<string, AttRecord>)
    requires JoinKey(rec) in attendance && Lists(attendance[JoinKey(rec)], m)
    ensures forall e :: e in Row(key, rec, Some(attendance)).attendance ==>
              e.id in m && Entry((e.id, m[e.id])) == e
    ensures forall k :: k in m ==> Entry((k, m[k])) in Row(key, rec, Some(attendance)).attendance
    ensures |Row(key, rec, Some(attendance)).attendance| == |m|
  {
    var evs := attendance[JoinKey(rec)];
    var row := Row(key, rec, Some(attendance));
    var es := Entries(evs);
    forall e | e in row.attendance ensures e.id in m && Entry((e.id, m[e.id])) == e {
      assert e in multiset(row.attendance);
      assert e in es;
      var i :| 0 <= i < |es| && es[i] == e;
      assert evs[i].0 in m;
    }
    forall k | k in m ensures Entry((k, m[k])) in row.attendance {
      var i :| 0 <= i < |evs| && evs[i].0 == k;
      assert es[i] in es;
      assert es[i] in multiset(row.attendance);
    }
    ListsCount(evs, m);
    assert |row.attendance| == |multiset(row.attendance)| == |multiset(es)|;
  }

  /** No two different entries share a timestamp. */
  predicate DistinctTimes(es: seq<AttEntry>) {
    forall i, j :: 0 <= i < |es| && 0 <= j < |es| && es[i].dateTime == es[j].dateTime ==> es[i] == es[j]
  }

  /** Two newest-first arrangements of the same entries with distinct
      timestamps are the same list: only ties leave the order open. */
  lemma {:induction false} NewestFirstUnique(a: seq<AttEntry>, b: seq<AttEntry>)
    requires NewestFirst(a) && NewestFirst(b)
    requires multiset(a) == multiset(b)
    requires DistinctTimes(a)
    ensures a == b
  {
    assert |a| == |multiset(a)| == |multiset(b)| == |b|;
    if a != [] {
      assert a[0] in multiset(b) && b[0] in multiset(a);
      HeadIsNewest(b, a[0]);
      HeadIsNewest(a, b[0]);
      var k :| 0 <= k < |a| && a[k] == b[0];
      assert a[0] == a[k];
      TailKeepsOrder(a);
      TailKeepsOrder(b);
      TailMultiset(a);
      TailMultiset(b);
      NewestFirstUnique(a[1..], b[1..]);
    }
  }

  /** The head of a newest-first list is at least as new as any element. */
  lemma HeadIsNewest(es: seq<AttEntry>, x: AttEntry)
    requires NewestFirst(es) && x in es
    ensures es[0].dateTime >= x.dateTime
  {
    var j :| 0 <= j < |es| && es[j] == x;
    if j > 0 {
      assert es[0].dateTime >= es[j].dateTime;
    }
  }

  /** Dropping the head keeps a list newest first with distinct timestamps. */
  lemma TailKeepsOrder(es: seq<AttEntry>)
    requires es != []
    ensures NewestFirst(es) ==> NewestFirst(es[1..])
    ensures DistinctTimes(es) ==> DistinctTimes(es[1..])
  {
    if NewestFirst(es) {
      forall i, j | 0 <= i < j < |es| - 1 ensures es[1..][i].dateTime >= es[1..][j].dateTime {
        assert es[1..][i] == es[i + 1] && es[1..][j] == es[j + 1];
      }
    }
    if DistinctTimes(es) {
      forall i, j | 0 <= i < |es| - 1 && 0 <= j < |es| - 1 && es[1..][i].dateTime == es[1..][j].dateTime
        ensures es[1..][i] == es[1..][j]
      {
        assert es[1..][i] == es[i + 1] && es[1..][j] == es[j + 1];
      }
    }
  }

  /** The tail holds the entries of the list minus its head. */
  lemma TailMultiset(es: seq<AttEntry>)
    requires es != []
    ensures multiset(es[1..]) == multiset(es) - multiset{es[0]}
  {
    assert es == [es[0]] + es[1..];
  }

  /** With distinct timestamps, the sort's result is fixed: it is the one
      newest-first arrangement of the entries. */
  lemma SortDetermined(es: seq<AttEntry>, expected: seq<AttEntry>)
    requires NewestFirst(expected) && multiset(expected) == multiset(es)
    requires DistinctTimes(expected)
    ensures SortNewestFirst(es) == expected
  {
    NewestFirstUnique(expected, SortNewestFirst(es));
  }

  /** Records stamped T1, T3, T2 with T1 < T2 < T3 are listed T3, T2, T1. */
  lemma SortExample(a1: AttEntry, a2: AttEntry, a3: AttEntry)
    requires a1.dateTime < a2.dateTime < a3.dateTime
    ensures SortNewestFirst([a1, a3, a2]) == [a3, a2, a1]
  {
    assert multiset([a3, a2, a1]) == multiset([a1, a3, a2]);
    SortDetermined([a1, a3, a2], [a3, a2, a1]);
  }
}
