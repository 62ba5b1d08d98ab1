/**
 * `FeaturesService`: the catalog and the preference table it works on, the two operations
 * that change the table, and what they do to what a user sees.
 */
module Service {
  import opened Wrappers
  import opened Catalog
  import opened Preferences
  import opened Resolution
  import opened Survey

  /** The exceptions the service raises. */
  datatype Error =
    | NotFound(featureId: int)  // NotFoundException naming the unknown feature id
    | TransactionFailure        // the store reported an error inside the survey's transaction

  /** The value `saveSurveyResults` resolves to. */
  datatype SurveyResponse = SurveyResponse(success: bool, message: string)

  const SurveySavedMessage := "Survey results saved successfully"

  /** What an operation returns, together with the preference table it leaves behind. */
  datatype Transition<T> = Transition(result: Result<T, Error>, table: PrefTable)

  /**
   * `toggleFeatureForUser`: an unknown feature id is rejected and nothing is written;
   * otherwise the user's row for the feature is upserted and returned.
   */
  function Toggle(groups: seq<Group>, prefs: PrefTable, userId: int, featureId: int, isEnabled: bool): (o: Transition<Preference>)
    ensures o.result.Failure? <==> featureId !in FeatureIds(groups)
    ensures o.result.Failure? ==> o.result.error == NotFound(featureId) && o.table == prefs
    ensures o.result.Success? ==> o.result.value == Preference(userId, featureId, isEnabled)
    ensures o.result.Success? ==>
      && o.table.Keys == prefs.Keys + {PrefKey(userId, featureId)}
      && o.table[PrefKey(userId, featureId)] == isEnabled
      && forall k :: k in prefs && k != PrefKey(userId, featureId) ==> o.table[k] == prefs[k]
  {
    match FindFeature(groups, featureId)
    case None => Transition(Failure(NotFound(featureId)), prefs)
    case Some(_) =>
      var row := Preference(userId, featureId, isEnabled);
      Transition(Success(row), Upsert(prefs, row))
  }

  /** Toggling twice with the same arguments gives the same table and the same record as once. */
  lemma ToggleIdempotent(groups: seq<Group>, prefs: PrefTable, userId: int, featureId: int, isEnabled: bool)
    ensures var once := Toggle(groups, prefs, userId, featureId, isEnabled);
      Toggle(groups, once.table, userId, featureId, isEnabled) == once
  {
  }

  /**
   * After a successful toggle the user sees the new state for that feature and the old
   * state for every other one; every other user sees exactly what they saw before.
   */
  lemma ResolveAfterToggle(groups: seq<Group>, prefs: PrefTable, userId: int, featureId: int, isEnabled: bool, otherUser: int)
    requires featureId in FeatureIds(groups)
    requires otherUser != userId
    ensures var t := Toggle(groups, prefs, userId, featureId, isEnabled).table;
      var r := GetUserFeaturePreferences(groups, t, userId);
      && (forall i, j :: 0 <= i < |r| && 0 <= j < |r[i].features| ==>
            r[i].features[j].isEnabled ==
              if r[i].features[j].feature.id == featureId then isEnabled
              else EffectiveState(prefs, userId, r[i].features[j].feature.id))
      && GetUserFeaturePreferences(groups, t, otherUser) == GetUserFeaturePreferences(groups, prefs, otherUser)
  {
    var t := Toggle(groups, prefs, userId, featureId, isEnabled).table;
    ResolutionReadsOnlyUserRows(groups, t, prefs, otherUser);
  }

  /**
   * After a survey the user has an explicit row for every catalog feature, and each feature
   * shows the policy's decision; every other user sees exactly what they saw before.
   */
  lemma ResolveAfterSurvey(groups: seq<Group>, prefs: PrefTable, userId: int, selectedCategories: seq<string>, otherUser: int)
    requires UniqueFeatureIds(groups)
    requires otherUser != userId
    ensures var t := SurveyTable(prefs, groups, userId, selectedCategories);
      var r := GetUserFeaturePreferences(groups, t, userId);
      && (forall i, j :: 0 <= i < |r| && 0 <= j < |r[i].features| ==>
            && |r[i].features[j].userPreferences| == 1
            && r[i].features[j].isEnabled == ShouldEnable(selectedCategories, r[i].name, r[i].features[j].feature.name))
      && GetUserFeaturePreferences(groups, t, otherUser) == GetUserFeaturePreferences(groups, prefs, otherUser)
  {
    var t := SurveyTable(prefs, groups, userId, selectedCategories);
    var r := GetUserFeaturePreferences(groups, t, userId);
    var ordered := GetAllGroupsWithFeatures(groups);
    SurveyTableSpec(prefs, groups, userId, selectedCategories);
    forall i, j | 0 <= i < |r| && 0 <= j < |r[i].features|
      ensures |r[i].features[j].userPreferences| == 1
      ensures r[i].features[j].isEnabled == ShouldEnable(selectedCategories, r[i].name, r[i].features[j].feature.name)
    {
      assert CatalogView(r)[i] == ordered[i];
      var g, f := ordered[i], r[i].features[j].feature;
      assert f == CatalogGroup(r[i]).features[j];
      assert g in multiset(groups);
      CatalogFeaturesMembership(groups, Placed(g, f));
    }
    ResolutionReadsOnlyUserRows(groups, t, prefs, otherUser);
  }

  /** The service: the catalog it reads and the preference table it updates. */
  class FeaturesService {
    /** The Group and Feature tables; nothing in the service writes them. */
    const groups: seq<Group>
    /** The UserFeaturePreference table. */
    var prefs: PrefTable

    /** Feature ids are unique and every preference row refers to a catalog feature. */
    ghost predicate Valid()
      reads this
    {
      && UniqueFeatureIds(groups)
      && forall k :: k in prefs ==> k.featureId in FeatureIds(groups)
    }

    constructor (groups: seq<Group>, prefs: PrefTable)
      requires UniqueFeatureIds(groups)
      requires forall k :: k in prefs ==> k.featureId in FeatureIds(groups)
      ensures Valid() && this.groups == groups && this.prefs == prefs
    {
      this.groups := groups;
      this.prefs := prefs;
    }

    /** `toggleFeatureForUser`: look the feature up, then upsert the user's row for it. */
    method ToggleFeatureForUser(userId: int, featureId: int, isEnabled: bool) returns (r: Result<Preference, Error>)
      requires Valid()
      modifies this
      ensures Valid()
      ensures Transition(r, prefs) == Toggle(groups, old(prefs), userId, featureId, isEnabled)
    {
      var feature := FindFeature(groups, featureId);
      if feature.None? {
        r := Failure(NotFound(featureId));
        return;
      }
      var row := Preference(userId, featureId, isEnabled);
      prefs := prefs[KeyOf(row) := isEnabled];
      r := Success(row);
    }

    /**
     * `saveSurveyResults`. The rows are built for the whole catalog, then the transaction
     * deletes the user's rows and upserts the new ones on a staged copy of the table, which
     * replaces the table only when every step succeeded. `storeFault` is the step at which
     * the store reports an error, if any: step 0 is the delete, step i + 1 the i-th upsert.
     * `primaryCategory` is accepted and not used.
     */
    method SaveSurveyResults(userId: int, primaryCategory: string, selectedCategories: seq<string>, storeFault: Option<nat>)
      returns (r: Result<SurveyResponse, Error>)
      requires Valid()
      modifies this
      ensures Valid()
      ensures storeFault.Some? && storeFault.value <= |CatalogFeatures(groups)| ==>
        r == Failure(TransactionFailure) && prefs == old(prefs)
      ensures !(storeFault.Some? && storeFault.value <= |CatalogFeatures(groups)|) ==>
        && r == Success(SurveyResponse(true, SurveySavedMessage))
        && prefs == SurveyTable(old(prefs), groups, userId, selectedCategories)
    {
      var featurePreferences := BuildSurveyPreferences(userId, groups, selectedCategories);
      if storeFault == Some(0) {
        r := Failure(TransactionFailure);
        return;
      }
      var failStep: int := if storeFault.Some? then storeFault.value else -1;
      var staged := DeleteUserRows(prefs, userId);
      ghost var kept := staged;
      var i := 0;
      while i < |featurePreferences|
        invariant 0 <= i <= |featurePreferences| == |CatalogFeatures(groups)|
        invariant failStep < 0 || failStep > i
        invariant prefs == old(prefs)
        invariant staged == UpsertAll(kept, featurePreferences[..i])
      {
        if failStep == i + 1 {
          r := Failure(TransactionFailure);
          return;
        }
        UpsertAllStep(kept, featurePreferences, i);
        staged := Upsert(staged, featurePreferences[i]);
        i := i + 1;
      }
      assert featurePreferences[..i] == featurePreferences;
      prefs := staged;
      r := Success(SurveyResponse(true, SurveySavedMessage));
    }
  }
}
