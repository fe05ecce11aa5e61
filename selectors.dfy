/** The memoised selectors over the reducer store's items: the items themselves, lookup by id,
    and sorted copies by name or by year then name. Names are compared under a collation
    (`localeCompare(b, 'fr', { sensitivity: 'base' })`), taken here as any total preorder on
    names: `collate(a, b)` stands for `a.localeCompare(b, ...) <= 0`. */
module Selectors {
  import opened Wrappers
  import opened Text
  import opened Robots
  import opened Sorting

  /** Name order: the comparator of the name sort. */
  function NameLe(collate: (string, string) -> bool): (Robot, Robot) -> bool {
    (a: Robot, b: Robot) => collate(a.name, b.name)
  }

  /** Year-then-name order: `a.year - b.year || a.name.localeCompare(b.name, ...)`. */
  function YearLe(collate: (string, string) -> bool): (Robot, Robot) -> bool {
    (a: Robot, b: Robot) => a.year < b.year || (a.year == b.year && collate(a.name, b.name))
  }

  lemma NameLeTotalPreorder(collate: (string, string) -> bool)
    requires TotalPreorder(collate)
    ensures TotalPreorder(NameLe(collate))
  {
    var le := NameLe(collate);
    forall x, y, z | le(x, y) && le(y, z) ensures le(x, z) {
      assert collate(x.name, y.name) && collate(y.name, z.name);
    }
    forall x, y ensures le(x, y) || le(y, x) {
      assert collate(x.name, y.name) || collate(y.name, x.name);
    }
  }

  lemma YearLeTotalPreorder(collate: (string, string) -> bool)
    requires TotalPreorder(collate)
    ensures TotalPreorder(YearLe(collate))
  {
    var le := YearLe(collate);
    forall x, y, z | le(x, y) && le(y, z) ensures le(x, z) {
      if x.year == y.year == z.year {
        assert collate(x.name, y.name) && collate(y.name, z.name);
      }
    }
    forall x, y ensures le(x, y) || le(y, x) {
      assert collate(x.name, y.name) || collate(y.name, x.name);
    }
  }

  /** Case-folded code-point order: one collation that meets the requirement, and the one the
      repository's `ORDER BY LOWER(name)` uses. */
  predicate CaseFoldLe(a: string, b: string) {
    LexLe(ToLower(a), ToLower(b))
  }

  lemma CaseFoldTotalPreorder()
    ensures TotalPreorder(CaseFoldLe)
  {
    forall a, b ensures CaseFoldLe(a, b) || CaseFoldLe(b, a) {
      LexLeTotal(ToLower(a), ToLower(b));
    }
    forall a, b, c | CaseFoldLe(a, b) && CaseFoldLe(b, c) ensures CaseFoldLe(a, c) {
      LexLeTransitive(ToLower(a), ToLower(b), ToLower(c));
    }
  }

  /** `selectRobots`: the items, unchanged. */
  function SelectRobots(items: seq<Robot>): (r: seq<Robot>)
    ensures r == items
  {
    items
  }

  /** `selectRobotById(id)`: nothing when no id (or an empty one) is given, otherwise the
      first item with that id. */
  function SelectRobotById(id: Option<string>, items: seq<Robot>): (r: Option<Robot>)
    ensures (id.None? || id.value == "") ==> r.None?
    ensures id.Some? && id.value != "" ==>
      (r.None? <==> forall i :: 0 <= i < |items| ==> items[i].id != id.value)
    ensures r.Some? ==> id.Some? && r.value.id == id.value && r.value in items
    ensures r.Some? ==> exists k :: (0 <= k < |items| && items[k] == r.value
      && forall i :: 0 <= i < k ==> items[i].id != id.value)
  {
    if id.None? || id.value == "" then None
    else
      var r := FindById(items, id.value);
      assert r.Some? ==> items[FindIndex(items, id.value)] == r.value;
      r
  }

  /** `selectRobotsSortedByName`: a sorted copy. */
  function SelectRobotsSortedByName(items: seq<Robot>, collate: (string, string) -> bool): seq<Robot> {
    Sort(items, NameLe(collate))
  }

  /** `selectRobotsSortedByYear`: a sorted copy. */
  function SelectRobotsSortedByYear(items: seq<Robot>, collate: (string, string) -> bool): seq<Robot> {
    Sort(items, YearLe(collate))
  }

  /** `makeSelectRobotsSorted(sort)`: name order for `'name'`, year-then-name otherwise. */
  function MakeSelectRobotsSorted(sort: string, items: seq<Robot>, collate: (string, string) -> bool): (r: seq<Robot>)
    ensures sort == "name" ==> r == SelectRobotsSortedByName(items, collate)
    ensures sort != "name" ==> r == SelectRobotsSortedByYear(items, collate)
  {
    var arr := items;
    if sort == "name" then Sort(arr, NameLe(collate)) else Sort(arr, YearLe(collate))
  }

  /** The name sort returns a permutation of the items whose names never decrease under the
      collation, and items whose names the collation equates keep their order. */
  lemma SortedByNameSpec(items: seq<Robot>, collate: (string, string) -> bool, x: Robot)
    requires TotalPreorder(collate)
    ensures multiset(SelectRobotsSortedByName(items, collate)) == multiset(items)
    ensures var r := SelectRobotsSortedByName(items, collate);
      forall i, j :: 0 <= i < j < |r| ==> collate(r[i].name, r[j].name)
    ensures EquivalentTo(SelectRobotsSortedByName(items, collate), x, NameLe(collate))
         == EquivalentTo(items, x, NameLe(collate))
  {
    NameLeTotalPreorder(collate);
    SortSorted(items, NameLe(collate));
    SortStable(items, x, NameLe(collate));
  }

  /** The year sort returns a permutation of the items whose years never decrease, and among
      equal years whose names never decrease; items equal on both keys keep their order. */
  lemma SortedByYearSpec(items: seq<Robot>, collate: (string, string) -> bool, x: Robot)
    requires TotalPreorder(collate)
    ensures multiset(SelectRobotsSortedByYear(items, collate)) == multiset(items)
    ensures var r := SelectRobotsSortedByYear(items, collate);
      forall i, j :: 0 <= i < j < |r| ==> r[i].year <= r[j].year
    ensures var r := SelectRobotsSortedByYear(items, collate);
      forall i, j :: 0 <= i < j < |r| && r[i].year == r[j].year ==> collate(r[i].name, r[j].name)
    ensures EquivalentTo(SelectRobotsSortedByYear(items, collate), x, YearLe(collate))
         == EquivalentTo(items, x, YearLe(collate))
  {
    YearLeTotalPreorder(collate);
    SortSorted(items, YearLe(collate));
    SortStable(items, x, YearLe(collate));
  }
}
