/**
 * Records as the handlers see them: a stored user (or pending user) is a node
 * of the tree store whose children are named string fields. Field values are
 * strings; a field that is missing reads as `undefined` in the handlers.
 */
module Records {

  /** A value that may be absent: a query parameter that was not sent, a tree
      that does not exist in the store. */
  datatype Option<+T> = None | Some(value: T)

  /** A user record: field name to value. */
  type Record = map<string, string>

  /** The JavaScript truthiness test `!!rec.field` on a string-valued field:
      false when the field is missing (undefined) or holds the empty string. */
  predicate Truthy(rec: Record, field: string) {
    field in rec && rec[field] != ""
  }

  /** The store's partial update: every field supplied in `upd` overwrites the
      stored one, every field it does not mention is kept. */
  function Merge(rec: Record, upd: Record): (m: Record)
    ensures m.Keys == rec.Keys + upd.Keys
    ensures forall f :: f in upd ==> m[f] == upd[f]
    ensures forall f :: f in rec && f !in upd ==> m[f] == rec[f]
  {
    rec + upd
  }

  /** `ps` lists the node `m` in some key order, as iterating `Object.keys`
      over it does: every child of `m` exactly once, with its value. */
  ghost predicate Lists<V>(ps: seq<(string, V)>, m: map<string, V>) {
    && (forall i, j :: 0 <= i < j < |ps| ==> ps[i].0 != ps[j].0)
    && (forall i :: 0 <= i < |ps| ==> ps[i].0 in m && m[ps[i].0] == ps[i].1)
    && (forall k :: k in m ==> exists i :: 0 <= i < |ps| && ps[i].0 == k)
  }

  /** The keys a listing names. */
  ghost function KeysOf<V>(ps: seq<(string, V)>): set<string> {
    set i | 0 <= i < |ps| :: ps[i].0
  }

  /** A listing without repeated keys names as many keys as it has pairs. */
  lemma {:induction false} DistinctKeysCount<V>(ps: seq<(string, V)>)
    requires forall i, j :: 0 <= i < j < |ps| ==> ps[i].0 != ps[j].0
    ensures |KeysOf(ps)| == |ps|
  {
    if ps != [] {
      var init := ps[..|ps| - 1];
      DistinctKeysCount(init);
      assert KeysOf(ps) == KeysOf(init) + {ps[|ps| - 1].0};
    }
  }

  /** A listing of a node has exactly one pair per child. */
  lemma ListsCount<V>(ps: seq<(string, V)>, m: map<string, V>)
    requires Lists(ps, m)
    ensures |ps| == |m|
  {
    DistinctKeysCount(ps);
    assert KeysOf(ps) == m.Keys;
  }

  /** Merging into a stored (hence non-empty) node never yields an empty node. */
  lemma MergeNonEmpty(rec: Record, upd: Record)
    requires rec != map[]
    ensures Merge(rec, upd) != map[]
  {
  }
}
