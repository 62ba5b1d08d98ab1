/**
 * The read-only catalog: the Group table with each group's features included,
 * as the Prisma queries of the features service return it.
 */
module Catalog {
  import opened Wrappers

  /** A row of the Feature table. Its owning group is the group whose `features` list holds it. */
  datatype Feature = Feature(id: int, name: string)

  /** A row of the Group table with its features included; `createdAt` is the creation timestamp. */
  datatype Group = Group(id: int, name: string, createdAt: int, features: seq<Feature>)

  /** A catalog feature together with the group that owns it. */
  datatype Placed = Placed(group: Group, feature: Feature)

  function Placements(g: Group): seq<Placed>
  {
    seq(|g.features|, j requires 0 <= j < |g.features| => Placed(g, g.features[j]))
  }

  /** Every feature of the catalog, group after group, each group's features in their listed order. */
  function CatalogFeatures(groups: seq<Group>): seq<Placed>
  {
    if groups == [] then []
    else CatalogFeatures(groups[..|groups| - 1]) + Placements(groups[|groups| - 1])
  }

  /** The ids of all catalog features. */
  function FeatureIds(groups: seq<Group>): set<int>
  {
    set p | p in CatalogFeatures(groups) :: p.feature.id
  }

  /** Feature ids are the primary key of the Feature table: no two catalog features share one. */
  predicate UniqueFeatureIds(groups: seq<Group>)
  {
    var ps := CatalogFeatures(groups);
    forall i, j :: 0 <= i < j < |ps| ==> ps[i].feature.id != ps[j].feature.id
  }

  /** A feature is listed in the catalog exactly when its group is a catalog group that lists it. */
  lemma {:induction false} CatalogFeaturesMembership(groups: seq<Group>, p: Placed)
    ensures p in CatalogFeatures(groups) <==> p.group in groups && p.feature in p.group.features
  {
    if groups != [] {
      var init, last := groups[..|groups| - 1], groups[|groups| - 1];
      CatalogFeaturesMembership(init, p);
      assert groups == init + [last];
      assert p in Placements(last) <==> p.group == last && p.feature in last.features by {
        if p.group == last && p.feature in last.features {
          var j :| 0 <= j < |last.features| && last.features[j] == p.feature;
          assert Placements(last)[j] == p;
        }
      }
    }
  }

  /** Linear search for a feature id in a list of placed features. */
  function FindPlaced(ps: seq<Placed>, id: int): (r: Option<Placed>)
    ensures r.Some? ==> r.value in ps && r.value.feature.id == id
    ensures r.None? <==> forall i :: 0 <= i < |ps| ==> ps[i].feature.id != id
  {
    if ps == [] then None
    else if ps[0].feature.id == id then Some(ps[0])
    else
      var r := FindPlaced(ps[1..], id);
      assert forall i :: 1 <= i < |ps| ==> ps[i] == ps[1..][i - 1];
      r
  }

  /** `feature.findUnique({ where: { id } })`: the feature with that id, when the catalog has one. */
  function FindFeature(groups: seq<Group>, id: int): (r: Option<Feature>)
    ensures r.Some? <==> id in FeatureIds(groups)
    ensures r.Some? ==> r.value.id == id && exists g :: g in groups && r.value in g.features
  {
    var found := FindPlaced(CatalogFeatures(groups), id);
    if found.Some? then
      CatalogFeaturesMembership(groups, found.value);
      Some(found.value.feature)
    else
      None
  }

  /** Groups in ascending creation order. */
  predicate SortedByCreatedAt(gs: seq<Group>)
  {
    forall i, j :: 0 <= i < j < |gs| ==> gs[i].createdAt <= gs[j].createdAt
  }

  function InsertByCreatedAt(g: Group, gs: seq<Group>): (r: seq<Group>)
    requires SortedByCreatedAt(gs)
    ensures SortedByCreatedAt(r)
    ensures multiset(r) == multiset(gs) + multiset{g}
    ensures forall k :: 0 <= k < |r| ==> r[k] == g || r[k] in gs
  {
    if gs == [] || g.createdAt <= gs[0].createdAt then [g] + gs
    else
      var rest := InsertByCreatedAt(g, gs[1..]);
      assert gs == [gs[0]] + gs[1..];
      [gs[0]] + rest
  }

  /**
   * `getAllGroupsWithFeatures`: the Group table with features included, ordered by
   * `createdAt` ascending. Groups with equal timestamps may come in any order.
   */
  function GetAllGroupsWithFeatures(groups: seq<Group>): (r: seq<Group>)
    ensures SortedByCreatedAt(r)
    ensures multiset(r) == multiset(groups)
    ensures |r| == |groups|
  {
    if groups == [] then []
    else
      assert groups == [groups[0]] + groups[1..];
      InsertByCreatedAt(groups[0], GetAllGroupsWithFeatures(groups[1..]))
  }
}
