/**
 * `getUserFeaturePreferences`: the catalog in creation order, every feature carrying the
 * user's preference rows for it and the resolved `isEnabled` flag.
 */
module Resolution {
  import opened Catalog
  import opened Preferences

  /** A feature as resolved for one user: the feature, the user's rows for it, and its state. */
  datatype ResolvedFeature = ResolvedFeature(feature: Feature, userPreferences: seq<Preference>, isEnabled: bool)

  /** A group as resolved for one user: the group's own columns and its resolved features. */
  datatype ResolvedGroup = ResolvedGroup(id: int, name: string, createdAt: int, features: seq<ResolvedFeature>)

  /** The nested include `userPreferences: { where: { userId } }` of one feature. */
  function UserRows(prefs: PrefTable, userId: int, featureId: int): (rows: seq<Preference>)
    ensures |rows| <= 1
    ensures |rows| == 1 <==> PrefKey(userId, featureId) in prefs
    ensures forall p :: p in rows ==> p.userId == userId && p.featureId == featureId && KeyOf(p) in prefs && prefs[KeyOf(p)] == p.isEnabled
  {
    var key := PrefKey(userId, featureId);
    if key in prefs then [Preference(userId, featureId, prefs[key])] else []
  }

  /** The effective state of a feature for a user: the stored preference if there is one, else off. */
  function EffectiveState(prefs: PrefTable, userId: int, featureId: int): (b: bool)
    ensures PrefKey(userId, featureId) in prefs ==> b == prefs[PrefKey(userId, featureId)]
    ensures PrefKey(userId, featureId) !in prefs ==> !b
  {
    var key := PrefKey(userId, featureId);
    key in prefs && prefs[key]
  }

  /**
   * One feature spread with the user's rows and `isEnabled`: the first row's flag when the user
   * has a row, else `false`. That is the feature's effective state.
   */
  function ResolveFeature(prefs: PrefTable, userId: int, f: Feature): (r: ResolvedFeature)
    ensures r.feature == f
    ensures r.userPreferences == UserRows(prefs, userId, f.id)
    ensures r.isEnabled == EffectiveState(prefs, userId, f.id)
  {
    var rows := UserRows(prefs, userId, f.id);
    ResolvedFeature(f, rows, if |rows| > 0 then rows[0].isEnabled else false)
  }

  /** The catalog group a resolved group was made from: its columns and its bare features. */
  function CatalogGroup(rg: ResolvedGroup): Group
  {
    Group(rg.id, rg.name, rg.createdAt, seq(|rg.features|, j requires 0 <= j < |rg.features| => rg.features[j].feature))
  }

  function CatalogView(r: seq<ResolvedGroup>): seq<Group>
  {
    seq(|r|, i requires 0 <= i < |r| => CatalogGroup(r[i]))
  }

  /**
   * One group spread with its features resolved: the group's columns and every feature of the
   * group, once each and in order, each showing its effective state for the user.
   */
  function ResolveGroup(prefs: PrefTable, userId: int, g: Group): (r: ResolvedGroup)
    ensures CatalogGroup(r) == g
    ensures forall j :: 0 <= j < |r.features| ==>
      r.features[j].isEnabled == EffectiveState(prefs, userId, r.features[j].feature.id)
  {
    var r := ResolvedGroup(g.id, g.name, g.createdAt,
      seq(|g.features|, j requires 0 <= j < |g.features| => ResolveFeature(prefs, userId, g.features[j])));
    assert CatalogGroup(r).features == g.features;
    r
  }

  /**
   * `getUserFeaturePreferences`. The groups are those of the catalog query, in its order,
   * each with all of its features in order; a feature is enabled exactly when the user has
   * a stored preference for it that says so, and it lists the user's row for it, if any.
   */
  function GetUserFeaturePreferences(groups: seq<Group>, prefs: PrefTable, userId: int): (r: seq<ResolvedGroup>)
    ensures CatalogView(r) == GetAllGroupsWithFeatures(groups)
    ensures SortedByCreatedAt(CatalogView(r)) && multiset(CatalogView(r)) == multiset(groups)
    ensures forall i, j :: 0 <= i < |r| && 0 <= j < |r[i].features| ==>
      r[i].features[j].isEnabled == EffectiveState(prefs, userId, r[i].features[j].feature.id)
    ensures forall i, j :: 0 <= i < |r| && 0 <= j < |r[i].features| ==>
      r[i].features[j].userPreferences == UserRows(prefs, userId, r[i].features[j].feature.id)
  {
    var ordered := GetAllGroupsWithFeatures(groups);
    var r := seq(|ordered|, i requires 0 <= i < |ordered| => ResolveGroup(prefs, userId, ordered[i]));
    assert CatalogView(r) == ordered;
    r
  }

  /** Two tables that hold the same rows for a user resolve identically for that user. */
  lemma {:induction false} ResolutionReadsOnlyUserRows(groups: seq<Group>, p1: PrefTable, p2: PrefTable, userId: int)
    requires forall fid :: PrefKey(userId, fid) in p1 <==> PrefKey(userId, fid) in p2
    requires forall fid :: PrefKey(userId, fid) in p1 ==> p1[PrefKey(userId, fid)] == p2[PrefKey(userId, fid)]
    ensures GetUserFeaturePreferences(groups, p1, userId) == GetUserFeaturePreferences(groups, p2, userId)
  {
    var ordered := GetAllGroupsWithFeatures(groups);
    forall g | g in ordered ensures ResolveGroup(p1, userId, g) == ResolveGroup(p2, userId, g) {
      forall j | 0 <= j < |g.features|
        ensures ResolveFeature(p1, userId, g.features[j]) == ResolveFeature(p2, userId, g.features[j])
      {
        assert UserRows(p1, userId, g.features[j].id) == UserRows(p2, userId, g.features[j].id);
      }
    }
  }

  /** A user without any stored row sees every catalog feature off and no rows attached. */
  lemma ResolveWithoutRows(groups: seq<Group>, prefs: PrefTable, userId: int)
    requires forall k :: k in prefs ==> k.userId != userId
    ensures var r := GetUserFeaturePreferences(groups, prefs, userId);
      forall i, j :: 0 <= i < |r| && 0 <= j < |r[i].features| ==>
        !r[i].features[j].isEnabled && r[i].features[j].userPreferences == []
  {
  }
}
