/**
 * The fixed catalogue of the survey: the 21 line items and the five
 * priorities, each of which offers the same item list (App.py:25-57).
 */
module Catalog {

  /** The line items, in the order the form shows them. */
  const AllItems: seq<string> := [
    "Building Maintenance",
    "Building Upgrades",
    "Children's Ministry",
    "Children's Plays",
    "Choir",
    "Congregational Care (deacons, pastoral care, etc.)",
    "Garden",
    "Handbell Choir",
    "Men's Ministry",
    "Missions",
    "Office Expenses",
    "Office Staff",
    "Outreach events - Harvest Party, etc.",
    "Praise Band",
    "Preaching/Worship Leadership",
    "Small Groups",
    "Sound System",
    "Tech - Audio/Visual (sound system, streaming, etc.)",
    "Tech - Office/Building",
    "Women's Ministry",
    "Youth Ministry"
  ]

  /** The five ministry priorities, in the order the form shows them. */
  const Priorities: seq<string> := [
    "Worship-centered",
    "Ministry/Spiritual Formation-centered",
    "Missions-Centered",
    "Community-Centered",
    "Support-Centered"
  ]

  /** Every priority offers the same items. */
  const PriorityItems: map<string, seq<string>> := map p | p in Priorities :: AllItems

  /** A catalogue: the priorities, and the items each of them offers. The
      survey's own catalogue is `TheCatalogue`; the table's operations and
      their proofs take the catalogue as a value and rely only on its names
      being distinct. */
  datatype Catalogue = Catalogue(priorities: seq<string>, items: seq<string>)

  const TheCatalogue: Catalogue := Catalogue(Priorities, AllItems)

  /** No name is listed twice. */
  ghost predicate WellFormed(c: Catalogue) {
    Distinct(c.priorities) && Distinct(c.items)
  }

  /** No name is listed twice: the position of each name is its index. */
  ghost predicate Distinct(s: seq<string>) {
    forall k :: 0 <= k < |s| ==> Position(s, s[k]) == k
  }

  /** Two different indices of a list hold different names. */
  ghost predicate PairwiseDifferent(s: seq<string>) {
    forall i, j :: 0 <= i < j < |s| ==> s[i] != s[j]
  }

  lemma DifferentIsDistinct(s: seq<string>)
    requires PairwiseDifferent(s)
    ensures Distinct(s)
  {
    forall k | 0 <= k < |s| ensures Position(s, s[k]) == k {
      var j := Position(s, s[k]);
      assert s[j] == s[k];
    }
  }

  /** The catalogue has 21 distinct items and 5 distinct priorities, and
      PRIORITY_ITEMS maps every priority, and nothing else, to the item list. */
  lemma CatalogShape()
    ensures |AllItems| == 21 && Distinct(AllItems)
    ensures |Priorities| == 5 && Distinct(Priorities)
    ensures WellFormed(TheCatalogue)
    ensures forall p :: p in PriorityItems <==> p in Priorities
    ensures forall p :: p in PriorityItems ==> PriorityItems[p] == AllItems
  {
    ItemsDifferent();
    DifferentIsDistinct(AllItems);
    PrioritiesDifferent();
    DifferentIsDistinct(Priorities);
  }

  lemma ItemsDifferent()
    ensures |AllItems| == 21 && PairwiseDifferent(AllItems)
  {
    var s := AllItems;
    forall i, j | 0 <= i < j < |s| ensures s[i] != s[j] {
      // any two items differ in length or in one of their first two letters
      assert |s[i]| != |s[j]| || s[i][0] != s[j][0] || s[i][1] != s[j][1];
    }
  }

  lemma PrioritiesDifferent()
    ensures |Priorities| == 5 && PairwiseDifferent(Priorities)
  {
  }

  /** An index at which `x` occurs in `s`, or |s| when `x` is absent. */
  ghost function Position(s: seq<string>, x: string): (k: nat)
    ensures k <= |s|
    ensures k < |s| <==> x in s
    ensures k < |s| ==> s[k] == x
  {
    if x in s then var k :| 0 <= k < |s| && s[k] == x; k else |s|
  }
}
