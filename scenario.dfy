/**
 * A worked example: one group "Wellness" with a basic and a pro feature, and a user who
 * first has no rows, then toggles the basic feature on, then takes the survey.
 */
module Scenario {
  import opened Wrappers
  import opened Catalog
  import opened Preferences
  import opened Resolution
  import opened Survey
  import opened Service

  const Basic := Feature(10, "Wellness Basic Feature")
  const Pro := Feature(11, "Wellness Pro")
  const Wellness := Group(1, "Wellness", 0, [Basic, Pro])

  lemma BasicIsEssential()
    ensures IsEssentialName(Basic.name)
  {
    var lower := ToLowerCase(Basic.name);
    assert lower[9..14] == "basic";
    assert OccursAt(lower, "basic", 9);
  }

  /** A string that never starts `sub`'s first character cannot contain `sub`. */
  lemma {:induction false} MissingFirstChar(s: string, sub: string)
    requires |sub| > 0 && sub[0] !in s
    ensures !Includes(s, sub)
  {
  }

  lemma NoEssentialAt(i: nat)
    ensures !OccursAt("wellness pro", "essential", i)
  {
    var s := "wellness pro";
    if i + 9 <= |s| {
      assert s[i..i + 9][0] == s[i] && s[i..i + 9][1] == s[i + 1];
    }
  }

  lemma ProIsNotEssential()
    ensures !IsEssentialName(Pro.name)
  {
    var lower := ToLowerCase(Pro.name);
    assert lower == "wellness pro";
    MissingFirstChar(lower, "basic");
    MissingFirstChar(lower, "core");
    forall i: nat ensures !OccursAt(lower, "essential", i) {
      NoEssentialAt(i);
    }
  }

  lemma WellnessFeatures()
    ensures CatalogFeatures([Wellness]) == [Placed(Wellness, Basic), Placed(Wellness, Pro)]
    ensures FeatureIds([Wellness]) == {10, 11}
    ensures UniqueFeatureIds([Wellness])
  {
  }

  /** What user 7 sees, feature by feature: the basic feature's state, then the pro feature's. */
  function Shown(prefs: PrefTable): (r: seq<bool>)
    ensures r == [EffectiveState(prefs, 7, 10), EffectiveState(prefs, 7, 11)]
  {
    var r := GetUserFeaturePreferences([Wellness], prefs, 7);
    assert CatalogView(r)[0] == Wellness;
    assert CatalogGroup(r[0]).features == [Basic, Pro];
    seq(|r[0].features|, j requires 0 <= j < |r[0].features| => r[0].features[j].isEnabled)
  }

  /** A user without rows sees both features off. */
  lemma WellnessInitially()
    ensures Shown(map[]) == [false, false]
  {
  }

  /** Toggling the basic feature on creates the row, returns it, and leaves the pro feature off. */
  lemma WellnessAfterToggle()
    ensures var toggled := Toggle([Wellness], map[], 7, 10, true);
      && toggled.result == Success(Preference(7, 10, true))
      && Shown(toggled.table) == [true, false]
  {
    WellnessFeatures();
  }

  /** The survey selecting Wellness then writes explicit rows: basic on, pro off. */
  lemma WellnessAfterSurvey(prefs: PrefTable)
    ensures var surveyed := SurveyTable(prefs, [Wellness], 7, ["Wellness"]);
      && PrefKey(7, 10) in surveyed && PrefKey(7, 11) in surveyed
      && Shown(surveyed) == [true, false]
  {
    WellnessFeatures();
    BasicIsEssential();
    ProIsNotEssential();
    SurveyTableSpec(prefs, [Wellness], 7, ["Wellness"]);
    assert Placed(Wellness, Basic) in CatalogFeatures([Wellness]);
    assert Placed(Wellness, Pro) in CatalogFeatures([Wellness]);
  }

  /** The same group as the database might list it, with its features in the other order. */
  const WellnessSwapped := Group(1, "Wellness", 0, [Pro, Basic])

  /** Whichever order the survey's query lists the Wellness features in, the same table is committed. */
  lemma WellnessFeatureOrder(prefs: PrefTable, selectedCategories: seq<string>)
    ensures SurveyTable(prefs, [Wellness], 7, selectedCategories)
         == SurveyTable(prefs, [WellnessSwapped], 7, selectedCategories)
  {
    WellnessFeatures();
    assert CatalogFeatures([WellnessSwapped]) == [Placed(WellnessSwapped, Pro), Placed(WellnessSwapped, Basic)];
    assert NamedFeatures([Wellness]) == NamedFeatures([WellnessSwapped]) == {("Wellness", Basic), ("Wellness", Pro)};
    SurveyTableOrderIndependent(prefs, [Wellness], [WellnessSwapped], 7, selectedCategories);
  }
}
