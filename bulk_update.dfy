/**
 * Bulk mode of `updateUser` (the request body is an array): the items are
 * applied one after the other to the `users` tree, and each one lands in
 * exactly one of the two result lists.
 *
 * `Apply` is the reference definition of the loop, a fold over the items;
 * the store's method is proved to compute it, and the lemmas below say what
 * it means: counts, order, which records change and how.
 */
module BulkUpdate {
  import opened Records

  /** An entry of `results.successful`: the item's code and the record read back. */
  datatype Success = Success(code: string, user: Record)

  /** An entry of `results.failed`: the item as submitted and the reason. */
  datatype Failure = Failure(user: Record, error: string)

  /** What one item does. */
  datatype ItemResult = Updated(success: Success) | Rejected(failure: Failure)

  /** The `users` tree and the two result lists after a prefix of the items. */
  datatype BulkState = BulkState(users: map<string, Record>, successful: seq<Success>, failed: seq<Failure>)

  const MISSING_CODE: string := "Missing user code"
  const NOT_FOUND: string := "User not found"

  /** The fields an item writes: all of them except `code`. */
  function UpdateData(item: Record): (d: Record)
    ensures d.Keys == item.Keys - {"code"}
    ensures forall f :: f in d ==> d[f] == item[f]
  {
    item - {"code"}
  }

  /** The item names an existing user. */
  predicate Targets(keys: set<string>, item: Record) {
    Truthy(item, "code") && item["code"] in keys
  }

  /** The failure recorded for an item that does not name an existing user. */
  function FailureOf(item: Record): Failure {
    Failure(item, if Truthy(item, "code") then NOT_FOUND else MISSING_CODE)
  }

  /** One iteration of the loop: a missing code or an unknown user is a
      failure that changes nothing; otherwise the item's fields other than
      `code` are merged into that one record, and the merged record is what
      the success entry carries. */
  function ApplyItem(users: map<string, Record>, item: Record): (res: (map<string, Record>, ItemResult))
    ensures res.0.Keys == users.Keys
    ensures res.1.Rejected? <==> !Targets(users.Keys, item)
    ensures res.1.Rejected? ==> res.0 == users && res.1.failure == FailureOf(item)
    ensures res.1.Updated? ==>
              var c := item["code"];
              && res.1.success == Success(c, res.0[c])
              && res.0[c] == Merge(users[c], UpdateData(item))
              && forall k :: k in users && k != c ==> res.0[k] == users[k]
  {
    if !Targets(users.Keys, item) then (users, Rejected(FailureOf(item)))
    else
      var c := item["code"];
      var merged := Merge(users[c], UpdateData(item));
      (users[c := merged], Updated(Success(c, merged)))
  }

  /** The state after one more item: the users tree as `ApplyItem` leaves it,
      and exactly one new entry, at the end of exactly one of the two lists. */
  function Next(st: BulkState, item: Record): (r: BulkState)
    ensures r.users == ApplyItem(st.users, item).0
    ensures Targets(st.users.Keys, item) ==>
              && r.failed == st.failed
              && r.successful == st.successful + [ApplyItem(st.users, item).1.success]
    ensures !Targets(st.users.Keys, item) ==>
              r.successful == st.successful && r.failed == st.failed + [FailureOf(item)]
  {
    var (users, res) := ApplyItem(st.users, item);
    match res
    case Updated(s) => BulkState(users, st.successful + [s], st.failed)
    case Rejected(f) => BulkState(users, st.successful, st.failed + [f])
  }

  /** The whole loop: the items applied in order to `users`. No item adds or
      removes a user, and every item is reported exactly once. */
  function Apply(users: map<string, Record>, items: seq<Record>): (st: BulkState)
    ensures st.users.Keys == users.Keys
    ensures |st.successful| + |st.failed| == |items|
  {
    if items == [] then BulkState(users, [], [])
    else Next(Apply(users, items[..|items| - 1]), items[|items| - 1])
  }

  /** A rejected item only appends its failure entry. */
  lemma NextRejected(st: BulkState, item: Record)
    requires !Targets(st.users.Keys, item)
    ensures Next(st, item) == BulkState(st.users, st.successful, st.failed + [FailureOf(item)])
  {
  }

  /** An item naming an existing user merges into that record and appends a
      success entry carrying the merged record. */
  lemma NextUpdated(st: BulkState, item: Record)
    requires Targets(st.users.Keys, item)
    ensures var c := item["code"];
            var merged := Merge(st.users[c], UpdateData(item));
            Next(st, item) == BulkState(st.users[c := merged], st.successful + [Success(c, merged)], st.failed)
  {
  }

  /** One more item extends the fold by one step. */
  lemma ApplyStep(users: map<string, Record>, items: seq<Record>, i: nat)
    requires i < |items|
    ensures Apply(users, items[..i + 1]) == Next(Apply(users, items[..i]), items[i])
  {
    assert items[..i + 1][..i] == items[..i];
  }

  /** The failure entries, in input order, of the items that do not name one
      of `keys`. */
  function FailuresOf(keys: set<string>, items: seq<Record>): seq<Failure> {
    if items == [] then []
    else
      var last := items[|items| - 1];
      FailuresOf(keys, items[..|items| - 1]) + (if Targets(keys, last) then [] else [FailureOf(last)])
  }

  /** The codes, in input order, of the items that name one of `keys`. */
  function TargetCodes(keys: set<string>, items: seq<Record>): seq<string> {
    if items == [] then []
    else
      var last := items[|items| - 1];
      TargetCodes(keys, items[..|items| - 1]) + (if Targets(keys, last) then [last["code"]] else [])
  }

  /** The codes of a list of success entries. */
  function Codes(ss: seq<Success>): seq<string> {
    seq(|ss|, i requires 0 <= i < |ss| => ss[i].code)
  }

  /** The updates, in input order, that items with code `k` write. */
  function UpdatesFor(k: string, items: seq<Record>): seq<Record> {
    if items == [] then []
    else
      var last := items[|items| - 1];
      UpdatesFor(k, items[..|items| - 1])
        + (if Truthy(last, "code") && last["code"] == k then [UpdateData(last)] else [])
  }

  /** A record after a sequence of partial updates, oldest first. */
  function MergeAll(rec: Record, updates: seq<Record>): Record {
    if updates == [] then rec
    else Merge(MergeAll(rec, updates[..|updates| - 1]), updates[|updates| - 1])
  }

  /** The failed list is exactly the failing items, in input order, each with
      its reason; which items fail depends only on the users that existed
      before the call. */
  lemma {:induction false} FailedAreNonTargets(users: map<string, Record>, items: seq<Record>)
    ensures Apply(users, items).failed == FailuresOf(users.Keys, items)
  {
    if items != [] {
      FailedAreNonTargets(users, items[..|items| - 1]);
    }
  }

  /** The successful list is exactly the items that name an existing user, in
      input order. */
  lemma {:induction false} SuccessfulAreTargets(users: map<string, Record>, items: seq<Record>)
    ensures Codes(Apply(users, items).successful) == TargetCodes(users.Keys, items)
  {
    if items != [] {
      var prefix := items[..|items| - 1];
      SuccessfulAreTargets(users, prefix);
      var st := Apply(users, prefix);
      var last := items[|items| - 1];
      if Targets(users.Keys, last) {
        assert Codes(st.successful + [ApplyItem(st.users, last).1.success])
            == Codes(st.successful) + [last["code"]];
      }
    }
  }

  /** The final record of every user is its old record with the updates of all
      items naming it merged in input order: a later item sees the effect of an
      earlier one, and a user no item names is left as it was. */
  lemma {:induction false} FinalRecord(users: map<string, Record>, items: seq<Record>, k: string)
    requires k in users
    ensures Apply(users, items).users[k] == MergeAll(users[k], UpdatesFor(k, items))
  {
    if items != [] {
      var prefix := items[..|items| - 1];
      FinalRecord(users, prefix, k);
      var last := items[|items| - 1];
      var ups := UpdatesFor(k, items);
      if Truthy(last, "code") && last["code"] == k {
        assert ups[..|ups| - 1] == UpdatesFor(k, prefix);
      } else {
        assert ups == UpdatesFor(k, prefix);
      }
    }
  }

  /** No update that strips `code` can add, drop or change a `code` field. */
  lemma {:induction false} MergeAllKeepsCode(rec: Record, updates: seq<Record>)
    requires forall i :: 0 <= i < |updates| ==> "code" !in updates[i]
    ensures "code" in MergeAll(rec, updates) <==> "code" in rec
    ensures "code" in rec ==> MergeAll(rec, updates)["code"] == rec["code"]
  {
    if updates != [] {
      MergeAllKeepsCode(rec, updates[..|updates| - 1]);
    }
  }

  /** The updates naming a user never carry `code`. */
  lemma {:induction false} UpdatesForHaveNoCode(k: string, items: seq<Record>)
    ensures forall i :: 0 <= i < |UpdatesFor(k, items)| ==> "code" !in UpdatesFor(k, items)[i]
  {
    if items != [] {
      UpdatesForHaveNoCode(k, items[..|items| - 1]);
    }
  }

  /** Bulk mode never rewrites a stored `code` field. */
  lemma {:induction false} CodeFieldUntouched(users: map<string, Record>, items: seq<Record>, k: string)
    requires k in users
    ensures "code" in Apply(users, items).users[k] <==> "code" in users[k]
    ensures "code" in users[k] ==> Apply(users, items).users[k]["code"] == users[k]["code"]
  {
    FinalRecord(users, items, k);
    UpdatesForHaveNoCode(k, items);
    MergeAllKeepsCode(users[k], UpdatesFor(k, items));
  }

  /** The record carried by the last success entry for `k`, if any. */
  function LastFor(k: string, ss: seq<Success>): Option<Record> {
    if ss == [] then None
    else if ss[|ss| - 1].code == k then Some(ss[|ss| - 1].user)
    else LastFor(k, ss[..|ss| - 1])
  }

  /** The last success entry for a user carries that user's final record, and
      there is one exactly when some item updated that user. */
  lemma {:induction false} LastSuccessIsFinal(users: map<string, Record>, items: seq<Record>, k: string)
    requires k in users
    ensures LastFor(k, Apply(users, items).successful)
         == if UpdatesFor(k, items) == [] then None else Some(Apply(users, items).users[k])
  {
    if items != [] {
      var prefix := items[..|items| - 1];
      LastSuccessIsFinal(users, prefix, k);
      var st := Apply(users, prefix);
      var last := items[|items| - 1];
      var ss := Apply(users, items).successful;
      if Targets(users.Keys, last) {
        assert ss[..|ss| - 1] == st.successful;
      }
    }
  }
}
