/**
 * The survey initialisation policy of `saveSurveyResults`: which features a survey turns on,
 * and the preference rows it builds for the whole catalog.
 */
module Survey {
  import opened Catalog
  import opened Preferences

  /** Lower-casing of one character, over the ASCII letters. */
  function LowerChar(c: char): char
  {
    if 'A' <= c <= 'Z' then (c as int - 'A' as int + 'a' as int) as char else c
  }

  /** `toLowerCase`, over the ASCII letters. */
  function ToLowerCase(s: string): (r: string)
    ensures |r| == |s|
    ensures forall i :: 0 <= i < |s| ==> r[i] == LowerChar(s[i])
    ensures forall i :: 0 <= i < |r| ==> !('A' <= r[i] <= 'Z')
  {
    seq(|s|, i requires 0 <= i < |s| => LowerChar(s[i]))
  }

  /** `sub` occurs in `s` starting at position `i`. */
  predicate OccursAt(s: string, sub: string, i: nat)
  {
    i + |sub| <= |s| && s[i..i + |sub|] == sub
  }

  /** `String.prototype.includes`: `sub` occurs somewhere in `s` (the empty string occurs everywhere). */
  function Includes(s: string, sub: string): (b: bool)
    ensures b <==> exists i: nat :: OccursAt(s, sub, i)
  {
    if |sub| > |s| then
      assert forall i: nat :: !OccursAt(s, sub, i);
      false
    else if s[..|sub|] == sub then
      assert OccursAt(s, sub, 0);
      true
    else
      var b := Includes(s[1..], sub);
      assert forall i: nat :: OccursAt(s[1..], sub, i) <==> OccursAt(s, sub, i + 1) by {
        forall i: nat ensures OccursAt(s[1..], sub, i) <==> OccursAt(s, sub, i + 1) {
          if i + |sub| <= |s[1..]| {
            assert s[1..][i..i + |sub|] == s[i + 1..i + 1 + |sub|];
          }
        }
      }
      assert b ==> exists i: nat :: OccursAt(s, sub, i) by {
        if b {
          var i: nat :| OccursAt(s[1..], sub, i);
          assert OccursAt(s, sub, i + 1);
        }
      }
      assert (exists i: nat :: OccursAt(s, sub, i)) ==> b by {
        if exists i: nat :: OccursAt(s, sub, i) {
          var i: nat :| OccursAt(s, sub, i);
          assert i != 0;
          assert OccursAt(s[1..], sub, i - 1);
        }
      }
      b
  }

  /** The words whose presence in a lower-cased feature name makes the feature essential. */
  const EssentialWords: seq<string> := ["basic", "core", "essential"]

  /** The essential-feature naming rule: the lower-cased name mentions basic, core or essential. */
  predicate IsEssentialName(name: string)
    ensures IsEssentialName(name) <==>
      exists w, i: nat :: w in EssentialWords && OccursAt(ToLowerCase(name), w, i)
  {
    var featureName := ToLowerCase(name);
    Includes(featureName, "basic") || Includes(featureName, "core") || Includes(featureName, "essential")
  }

  /**
   * A feature is turned on by a survey exactly when its group was selected and one of the
   * essential words occurs in its lower-cased name.
   */
  predicate ShouldEnable(selectedCategories: seq<string>, groupName: string, featureName: string)
    ensures ShouldEnable(selectedCategories, groupName, featureName) <==>
      && groupName in selectedCategories
      && exists w, i: nat :: w in EssentialWords && OccursAt(ToLowerCase(featureName), w, i)
  {
    groupName in selectedCategories && IsEssentialName(featureName)
  }

  /** The row the survey writes for one catalog feature. */
  function SurveyRow(userId: int, selectedCategories: seq<string>, p: Placed): Preference
  {
    Preference(userId, p.feature.id, ShouldEnable(selectedCategories, p.group.name, p.feature.name))
  }

  /**
   * One row per catalog feature, in catalog order, each carrying the policy's decision. Every
   * row is the user's and names a catalog feature; with unique feature ids no key repeats.
   */
  function SurveyRows(userId: int, groups: seq<Group>, selectedCategories: seq<string>): (rows: seq<Preference>)
    ensures |rows| == |CatalogFeatures(groups)|
    ensures forall p :: p in rows ==> p.userId == userId && p.featureId in FeatureIds(groups)
    ensures UniqueFeatureIds(groups) ==> DistinctKeys(rows)
  {
    var ps := CatalogFeatures(groups);
    seq(|ps|, i requires 0 <= i < |ps| => SurveyRow(userId, selectedCategories, ps[i]))
  }

  /**
   * The nested loops that fill `featurePreferences`: for every group, and for every feature of
   * that group, one row for the user whose flag is the policy's decision.
   */
  method BuildSurveyPreferences(userId: int, allGroups: seq<Group>, selectedCategories: seq<string>)
    returns (featurePreferences: seq<Preference>)
    ensures featurePreferences == SurveyRows(userId, allGroups, selectedCategories)
  {
    featurePreferences := [];
    var gi := 0;
    while gi < |allGroups|
      invariant 0 <= gi <= |allGroups|
      invariant featurePreferences == SurveyRows(userId, allGroups[..gi], selectedCategories)
    {
      var group := allGroups[gi];
      var isSelectedGroup := group.name in selectedCategories;
      ghost var before := featurePreferences;
      var fj := 0;
      while fj < |group.features|
        invariant 0 <= fj <= |group.features|
        invariant |featurePreferences| == |before| + fj
        invariant featurePreferences[..|before|] == before
        invariant forall j :: 0 <= j < fj ==>
          featurePreferences[|before| + j] == SurveyRow(userId, selectedCategories, Placed(group, group.features[j]))
      {
        var feature := group.features[fj];
        var shouldEnable := false;
        if isSelectedGroup {
          shouldEnable := IsEssentialName(feature.name);
        }
        featurePreferences := featurePreferences + [Preference(userId, feature.id, shouldEnable)];
        fj := fj + 1;
      }
      assert allGroups[..gi + 1][..gi] == allGroups[..gi];
      assert featurePreferences == SurveyRows(userId, allGroups[..gi + 1], selectedCategories) by {
        var ps := CatalogFeatures(allGroups[..gi + 1]);
        assert ps == CatalogFeatures(allGroups[..gi]) + Placements(group);
      }
      gi := gi + 1;
    }
    assert allGroups[..gi] == allGroups;
  }

  /**
   * The table a survey commits: every earlier row of the user removed, then one upsert per
   * catalog feature.
   */
  function SurveyTable(prefs: PrefTable, groups: seq<Group>, userId: int, selectedCategories: seq<string>): (t: PrefTable)
    ensures forall k: PrefKey :: k.userId != userId ==> (k in t <==> k in prefs)
    ensures forall k: PrefKey :: k in prefs && k.userId != userId ==> t[k] == prefs[k]
    ensures forall k: PrefKey :: k in t && k.userId == userId ==> k.featureId in FeatureIds(groups)
  {
    UpsertAll(DeleteUserRows(prefs, userId), SurveyRows(userId, groups, selectedCategories))
  }

  /**
   * The survey writes one row per catalog feature, for the user, with the policy's value;
   * no earlier row of the user survives and the rows of every other user are untouched.
   */
  lemma SurveyTableSpec(prefs: PrefTable, groups: seq<Group>, userId: int, selectedCategories: seq<string>)
    requires UniqueFeatureIds(groups)
    ensures var t := SurveyTable(prefs, groups, userId, selectedCategories);
      && (forall k: PrefKey :: k.userId != userId ==> (k in t <==> k in prefs))
      && (forall k: PrefKey :: k in prefs && k.userId != userId ==> t[k] == prefs[k])
      && (forall fid :: PrefKey(userId, fid) in t <==> fid in FeatureIds(groups))
      && (forall p :: p in CatalogFeatures(groups) ==>
            t[PrefKey(userId, p.feature.id)] == ShouldEnable(selectedCategories, p.group.name, p.feature.name))
  {
    var ps := CatalogFeatures(groups);
    var rows := SurveyRows(userId, groups, selectedCategories);
    var kept := DeleteUserRows(prefs, userId);
    assert DistinctKeys(rows);
    UpsertAllSpec(kept, rows);
    assert RowKeys(rows) == set fid | fid in FeatureIds(groups) :: PrefKey(userId, fid) by {
      forall k | k in RowKeys(rows) ensures k.userId == userId && k.featureId in FeatureIds(groups) {
        var i :| 0 <= i < |rows| && KeyOf(rows[i]) == k;
        assert ps[i] in ps;
      }
      forall fid | fid in FeatureIds(groups) ensures PrefKey(userId, fid) in RowKeys(rows) {
        var p :| p in ps && p.feature.id == fid;
        var i :| 0 <= i < |ps| && ps[i] == p;
        assert rows[i] in rows;
      }
    }
    forall p | p in ps
      ensures SurveyTable(prefs, groups, userId, selectedCategories)[PrefKey(userId, p.feature.id)]
        == ShouldEnable(selectedCategories, p.group.name, p.feature.name)
    {
      var i :| 0 <= i < |ps| && ps[i] == p;
      assert KeyOf(rows[i]) == PrefKey(userId, p.feature.id);
    }
  }

  /** Saving the same survey twice leaves the same table as saving it once. */
  lemma SurveyIdempotent(prefs: PrefTable, groups: seq<Group>, userId: int, selectedCategories: seq<string>)
    ensures var once := SurveyTable(prefs, groups, userId, selectedCategories);
      SurveyTable(once, groups, userId, selectedCategories) == once
  {
    var once := SurveyTable(prefs, groups, userId, selectedCategories);
    assert DeleteUserRows(once, userId) == DeleteUserRows(prefs, userId);
  }

  /**
   * What the survey reads of a catalog: each feature with the name of the group that lists it.
   * Group ids, timestamps and the order of groups and of features are not part of it.
   */
  function NamedFeatures(groups: seq<Group>): (nfs: set<(string, Feature)>)
    ensures forall p :: p in CatalogFeatures(groups) ==> (p.group.name, p.feature) in nfs
  {
    set p | p in CatalogFeatures(groups) :: (p.group.name, p.feature)
  }

  /** The survey's characterisation restated over the named features of the catalog. */
  lemma SurveyTableNamed(prefs: PrefTable, groups: seq<Group>, userId: int, selectedCategories: seq<string>)
    requires UniqueFeatureIds(groups)
    ensures var t := SurveyTable(prefs, groups, userId, selectedCategories);
      && (forall fid :: PrefKey(userId, fid) in t <==> fid in set nf | nf in NamedFeatures(groups) :: nf.1.id)
      && (forall nf :: nf in NamedFeatures(groups) ==>
            t[PrefKey(userId, nf.1.id)] == ShouldEnable(selectedCategories, nf.0, nf.1.name))
  {
    var t := SurveyTable(prefs, groups, userId, selectedCategories);
    var nfs := NamedFeatures(groups);
    SurveyTableSpec(prefs, groups, userId, selectedCategories);
    assert FeatureIds(groups) == set nf | nf in nfs :: nf.1.id by {
      forall fid | fid in FeatureIds(groups) ensures fid in set nf | nf in nfs :: nf.1.id {
        var p :| p in CatalogFeatures(groups) && p.feature.id == fid;
        assert (p.group.name, p.feature) in nfs;
      }
    }
    forall nf | nf in nfs
      ensures t[PrefKey(userId, nf.1.id)] == ShouldEnable(selectedCategories, nf.0, nf.1.name)
    {
      var p :| p in CatalogFeatures(groups) && (p.group.name, p.feature) == nf;
    }
  }

  /**
   * The committed table does not depend on how the catalog query lists the catalog: neither
   * the order of the groups nor the order of the features inside a group matters, only which
   * feature each named group lists.
   */
  lemma SurveyTableOrderIndependent(prefs: PrefTable, g1: seq<Group>, g2: seq<Group>, userId: int, selectedCategories: seq<string>)
    requires NamedFeatures(g1) == NamedFeatures(g2)
    requires UniqueFeatureIds(g1) && UniqueFeatureIds(g2)
    ensures SurveyTable(prefs, g1, userId, selectedCategories) == SurveyTable(prefs, g2, userId, selectedCategories)
  {
    var t1 := SurveyTable(prefs, g1, userId, selectedCategories);
    var t2 := SurveyTable(prefs, g2, userId, selectedCategories);
    SurveyTableNamed(prefs, g1, userId, selectedCategories);
    SurveyTableNamed(prefs, g2, userId, selectedCategories);
    SameOutcomeSameTable(t1, t2, prefs, NamedFeatures(g1), userId, selectedCategories);
  }

  /** Two tables that both satisfy the survey's characterisation for the same named features are equal. */
  lemma SameOutcomeSameTable(t1: PrefTable, t2: PrefTable, prefs: PrefTable, nfs: set<(string, Feature)>,
                             userId: int, selectedCategories: seq<string>)
    requires forall k: PrefKey :: k.userId != userId ==> (k in t1 <==> k in prefs) && (k in t2 <==> k in prefs)
    requires forall k: PrefKey :: k in prefs && k.userId != userId ==> t1[k] == prefs[k] && t2[k] == prefs[k]
    requires forall fid :: PrefKey(userId, fid) in t1 <==> fid in set nf | nf in nfs :: nf.1.id
    requires forall fid :: PrefKey(userId, fid) in t2 <==> fid in set nf | nf in nfs :: nf.1.id
    requires forall nf :: nf in nfs ==>
      && t1[PrefKey(userId, nf.1.id)] == ShouldEnable(selectedCategories, nf.0, nf.1.name)
      && t2[PrefKey(userId, nf.1.id)] == ShouldEnable(selectedCategories, nf.0, nf.1.name)
    ensures t1 == t2
  {
    forall k | k in t1 ensures k in t2 && t1[k] == t2[k] {
      if k.userId == userId {
        assert PrefKey(userId, k.featureId) == k;
        var nf :| nf in nfs && nf.1.id == k.featureId;
      }
    }
    forall k | k in t2 ensures k in t1 {
      if k.userId == userId {
        assert PrefKey(userId, k.featureId) == k;
      }
    }
  }
}
