/**
 * The UserFeaturePreference table. It is a map keyed by the composite unique key
 * `userId_featureId`, so at most one row per user and feature holds by construction.
 */
module Preferences {

  datatype PrefKey = PrefKey(userId: int, featureId: int)

  type PrefTable = map<PrefKey, bool>

  /** A preference row as the service creates and returns it. */
  datatype Preference = Preference(userId: int, featureId: int, isEnabled: bool)

  function KeyOf(p: Preference): PrefKey
  {
    PrefKey(p.userId, p.featureId)
  }

  /**
   * `upsert` on `userId_featureId`: creates the row when it is absent and overwrites
   * `isEnabled` when it is present; every other row stays as it was.
   */
  function Upsert(prefs: PrefTable, p: Preference): (r: PrefTable)
    ensures r.Keys == prefs.Keys + {KeyOf(p)}
    ensures r[KeyOf(p)] == p.isEnabled
    ensures forall k :: k in prefs && k != KeyOf(p) ==> r[k] == prefs[k]
  {
    prefs[KeyOf(p) := p.isEnabled]
  }

  /** `deleteMany({ where: { userId } })`: every row of that user goes, every other row stays. */
  function DeleteUserRows(prefs: PrefTable, userId: int): (r: PrefTable)
    ensures forall k :: k in r <==> k in prefs && k.userId != userId
    ensures forall k :: k in r ==> r[k] == prefs[k]
  {
    map k | k in prefs && k.userId != userId :: prefs[k]
  }

  function RowKeys(rows: seq<Preference>): set<PrefKey>
  {
    set p | p in rows :: KeyOf(p)
  }

  /**
   * The rows upserted one after the other, in list order: the table gains the keys the rows
   * name, the last row for a key decides its value, and every key no row names keeps its value.
   */
  function UpsertAll(prefs: PrefTable, rows: seq<Preference>): (r: PrefTable)
    ensures r.Keys == prefs.Keys + RowKeys(rows)
    ensures rows != [] ==> r[KeyOf(rows[|rows| - 1])] == rows[|rows| - 1].isEnabled
    ensures forall k :: k in prefs && k !in RowKeys(rows) ==> r[k] == prefs[k]
  {
    if rows == [] then prefs
    else
      var init, last := rows[..|rows| - 1], rows[|rows| - 1];
      assert rows == init + [last];
      assert RowKeys(rows) == RowKeys(init) + {KeyOf(last)};
      Upsert(UpsertAll(prefs, init), last)
  }

  /** Upserting one more row of a list extends the upserts of its prefix by that row. */
  lemma UpsertAllStep(prefs: PrefTable, rows: seq<Preference>, i: nat)
    requires i < |rows|
    ensures UpsertAll(prefs, rows[..i + 1]) == Upsert(UpsertAll(prefs, rows[..i]), rows[i])
  {
    assert rows[..i + 1][..i] == rows[..i];
  }

  predicate DistinctKeys(rows: seq<Preference>)
  {
    forall i, j :: 0 <= i < j < |rows| ==> KeyOf(rows[i]) != KeyOf(rows[j])
  }

  /**
   * Upserting rows with distinct keys leaves exactly one row per key they name, holding
   * that row's value, and keeps every other row of the table.
   */
  lemma {:induction false} UpsertAllSpec(prefs: PrefTable, rows: seq<Preference>)
    requires DistinctKeys(rows)
    ensures UpsertAll(prefs, rows).Keys == prefs.Keys + RowKeys(rows)
    ensures forall i :: 0 <= i < |rows| ==> UpsertAll(prefs, rows)[KeyOf(rows[i])] == rows[i].isEnabled
    ensures forall k :: k in prefs && k !in RowKeys(rows) ==> UpsertAll(prefs, rows)[k] == prefs[k]
  {
    if rows != [] {
      var init, last := rows[..|rows| - 1], rows[|rows| - 1];
      UpsertAllSpec(prefs, init);
      assert rows == init + [last];
      assert RowKeys(rows) == RowKeys(init) + {KeyOf(last)};
      forall i | 0 <= i < |init|
        ensures KeyOf(init[i]) != KeyOf(last)
      {
        assert init[i] == rows[i];
      }
    }
  }
}
