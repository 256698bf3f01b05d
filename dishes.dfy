/** The dish repository's queries over a scan of the dish table, and
    `DishService`'s checks and ordering for the dish selection. */
module Dishes {
  import opened Text
  import opened Notes
  import opened Sorting

  /** A dish record. Its price (a text the service parses as a `double`) is
      modelled by an integer key with the same order; `order` is its
      popularity. */
  datatype Dish = Dish(id: string, name: string, dishType: string, price: int, order: int)

  predicate UniqueIds(items: seq<Dish>) {
    forall i, j :: 0 <= i < j < |items| ==> items[i].id != items[j].id
  }

  /** `findById`: the item stored under the id, if any. The table is given as
      its scan. */
  function FindById(items: seq<Dish>, id: string): (r: Option<Dish>)
    ensures r.None? <==> forall i :: 0 <= i < |items| ==> items[i].id != id
    ensures r.Some? ==> r.value in items && r.value.id == id
  {
    if items == [] then None
    else if items[0].id == id then Some(items[0])
    else
      var r := FindById(items[1..], id);
      assert forall i :: 0 < i < |items| ==> items[i] == items[1..][i - 1];
      r
  }

  /** With ids unique, the item found is the one stored under the id. */
  lemma {:induction false} FindByIdFindsIt(items: seq<Dish>, i: nat)
    requires UniqueIds(items) && i < |items|
    ensures FindById(items, items[i].id) == Some(items[i])
  {
    if i > 0 {
      var tail := items[1..];
      assert UniqueIds(tail) by {
        assert forall a :: 0 <= a < |tail| ==> tail[a] == items[a + 1];
      }
      assert items[i] == tail[i - 1];
      FindByIdFindsIt(tail, i - 1);
    }
  }

  /** `getDishById`: the dish, or a `RuntimeException` when there is none. */
  function GetDishById(items: seq<Dish>, id: string): (r: Outcome<Dish>)
    ensures r.Raised? <==> forall i :: 0 <= i < |items| ==> items[i].id != id
    ensures r.Raised? ==> r == Raised("RuntimeException", DishNotFound(id))
    ensures r.Done? ==> r.value in items && r.value.id == id
  {
    match FindById(items, id)
    case None => Raised("RuntimeException", DishNotFound(id))
    case Some(d) => Done(d)
  }

  /** `findByDishType`: the scanned dishes whose type equals the argument
      ignoring case, in scan order. */
  function FindByDishType(items: seq<Dish>, dishType: string): (r: seq<Dish>)
    ensures |r| <= |items|
    ensures forall j :: 0 <= j < |r| ==> EqualsIgnoreCase(r[j].dishType, dishType) && r[j] in items
    ensures forall i :: 0 <= i < |items| && EqualsIgnoreCase(items[i].dishType, dishType) ==> items[i] in r
  {
    if items == [] then []
    else
      var init, last := items[..|items| - 1], items[|items| - 1];
      assert items == init + [last];
      var prior := FindByDishType(init, dishType);
      if EqualsIgnoreCase(last.dishType, dishType) then prior + [last] else prior
  }

  /** One more scanned dish is kept at the end exactly when it is of the type. */
  lemma FindByDishTypeSnoc(s: seq<Dish>, x: Dish, dishType: string)
    ensures FindByDishType(s + [x], dishType)
      == FindByDishType(s, dishType) + (if EqualsIgnoreCase(x.dishType, dishType) then [x] else [])
  {
    assert (s + [x])[..|s + [x]| - 1] == s;
  }

  /** The filter keeps scan order: it works on each part of a scan separately. */
  lemma {:induction false} FindByDishTypeAppend(a: seq<Dish>, b: seq<Dish>, dishType: string)
    ensures FindByDishType(a + b, dishType) == FindByDishType(a, dishType) + FindByDishType(b, dishType)
    decreases |b|
  {
    if b == [] {
      assert a + b == a;
    } else {
      var b', x := b[..|b| - 1], b[|b| - 1];
      assert b == b' + [x];
      assert a + b == (a + b') + [x];
      FindByDishTypeAppend(a, b', dishType);
      FindByDishTypeSnoc(a + b', x, dishType);
      FindByDishTypeSnoc(b', x, dishType);
    }
  }

  /** Each dish of the type is kept as often as the scan holds it, and no
      other dish is kept. */
  lemma {:induction false} FindByDishTypeCounts(items: seq<Dish>, dishType: string, d: Dish)
    ensures multiset(FindByDishType(items, dishType))[d]
      == if EqualsIgnoreCase(d.dishType, dishType) then multiset(items)[d] else 0
    decreases |items|
  {
    if items != [] {
      var init, last := items[..|items| - 1], items[|items| - 1];
      assert items == init + [last];
      FindByDishTypeCounts(init, dishType, d);
    }
  }

  function OrderKey(d: Dish): int {
    d.order
  }

  function PriceKey(d: Dish): int {
    d.price
  }

  /** A prefix of a list sorted by descending key is sorted, takes nothing
      the list lacks, and what it leaves out has no larger key than its last
      element. */
  lemma TopOfSorted<T>(sorted: seq<T>, k: nat, key: T -> int)
    requires k <= |sorted| && (k > 0 || sorted == []) && SortedBy(sorted, key, true)
    ensures SortedBy(sorted[..k], key, true)
    ensures multiset(sorted[..k]) <= multiset(sorted)
    ensures forall x :: x in multiset(sorted) - multiset(sorted[..k]) ==> k > 0 && key(x) <= key(sorted[k - 1])
  {
    PrefixSorted(sorted, k, key, true);
    assert sorted == sorted[..k] + sorted[k..];
    assert multiset(sorted) - multiset(sorted[..k]) == multiset(sorted[k..]);
    forall x | x in multiset(sorted[k..])
      ensures k > 0 && key(x) <= key(sorted[k - 1])
    {
      var q :| 0 <= q < |sorted[k..]| && sorted[k..][q] == x;
      assert sorted[k + q] == x;
    }
  }

  /** `findAllSortedByPopularity`: the scan sorted by descending `order`
      (a stable sort), then the first four. */
  function FindAllSortedByPopularity(items: seq<Dish>): (r: seq<Dish>)
    ensures |r| == if |items| < 4 then |items| else 4
    ensures SortedBy(r, OrderKey, true)
    ensures multiset(r) <= multiset(items)
    ensures forall d :: d in multiset(items) - multiset(r) ==> |r| > 0 && d.order <= r[|r| - 1].order
  {
    var sorted := SortBy(items, OrderKey, true);
    var k := if |sorted| < 4 then |sorted| else 4;
    TopOfSorted(sorted, k, OrderKey);
    sorted[..k]
  }

  /** A non-empty table leads the popular list with a dish of the highest
      order count. */
  lemma PopularLeadsWithMostOrdered(items: seq<Dish>)
    requires items != []
    ensures var r := FindAllSortedByPopularity(items);
      r != [] && forall d :: d in items ==> d.order <= r[0].order
  {
    var r := FindAllSortedByPopularity(items);
    forall d | d in items
      ensures d.order <= r[0].order
    {
      assert d in multiset(items);
      if d in multiset(r) {
        var i :| 0 <= i < |r| && r[i] == d;
        if i > 0 {
          assert InOrder(OrderKey(r[0]), OrderKey(r[i]), true);
        }
      } else {
        assert d in multiset(items) - multiset(r);
        assert InOrder(OrderKey(r[0]), OrderKey(r[|r| - 1]), true) || |r| == 1;
      }
    }
  }

  datatype Basis = ByPrice | ByPopularity

  /** The checks of `getSelectedDishes` on the parts of the sort criteria:
      two parts, a basis of price or popularity and an order of asc or desc. */
  function ParseDishSort(parts: seq<string>): (r: Outcome<(Basis, bool)>)
    ensures r.Raised? ==> r.exception == "IllegalArgumentException"
    ensures r.Raised? ==> r.note.DishSortFormat? || r.note.DishSortBasis? || r.note.SortOrder?
    ensures r.Raised? && r.note.DishSortFormat? <==> |parts| != 2
    ensures r.Raised? && r.note.DishSortBasis? <==>
      |parts| == 2 && Lower(Trim(parts[0])) != "price" && Lower(Trim(parts[0])) != "popularity"
    ensures r.Raised? && r.note.SortOrder? <==>
      |parts| == 2 && (Lower(Trim(parts[0])) == "price" || Lower(Trim(parts[0])) == "popularity")
      && Lower(Trim(parts[1])) != "asc" && Lower(Trim(parts[1])) != "desc"
    ensures r.Done? <==>
      |parts| == 2 && (Lower(Trim(parts[0])) == "price" || Lower(Trim(parts[0])) == "popularity")
      && (Lower(Trim(parts[1])) == "asc" || Lower(Trim(parts[1])) == "desc")
    ensures r.Done? ==>
      |parts| == 2
      && (r.value.0 == ByPrice <==> Lower(Trim(parts[0])) == "price")
      && (r.value.0 == ByPopularity <==> Lower(Trim(parts[0])) == "popularity")
      && (r.value.1 <==> Lower(Trim(parts[1])) == "desc")
      && (!r.value.1 <==> Lower(Trim(parts[1])) == "asc")
  {
    if |parts| != 2 then Raised("IllegalArgumentException", DishSortFormat)
    else
      var basis := Lower(Trim(parts[0]));
      var order := Lower(Trim(parts[1]));
      if basis != "price" && basis != "popularity" then Raised("IllegalArgumentException", DishSortBasis)
      else if order != "asc" && order != "desc" then Raised("IllegalArgumentException", SortOrder)
      else Done((if basis == "popularity" then ByPopularity else ByPrice, order == "desc"))
  }

  function DishKey(basis: Basis): Dish -> int {
    if basis == ByPopularity then OrderKey else PriceKey
  }

  predicate IsDishType(normalized: string) {
    normalized == "appetizers" || normalized == "main courses" || normalized == "desserts"
  }

  /** `getSelectedDishes`: the type check, the dishes of the type (none means
      an empty answer whatever the criteria), the criteria checks, then the
      stable sort. */
  function GetSelectedDishes(items: seq<Dish>, dishType: string, sortCriteria: string): (r: Outcome<seq<Dish>>)
    ensures r.Raised? ==> r.exception == "IllegalArgumentException"
    ensures r.Raised? && r.note.BadDishType? <==> !IsDishType(Lower(Trim(dishType)))
    ensures r.Raised? && !r.note.BadDishType? ==>
      FindByDishType(items, Lower(Trim(dishType))) != [] && ParseDishSort(JavaSplit(sortCriteria, ',')).Raised?
    ensures IsDishType(Lower(Trim(dishType))) && FindByDishType(items, Lower(Trim(dishType))) == [] ==>
      r == Done([])
    ensures IsDishType(Lower(Trim(dishType))) && ParseDishSort(JavaSplit(sortCriteria, ',')).Done? ==> r.Done?
  {
    var normalized := Lower(Trim(dishType));
    if !IsDishType(normalized) then Raised("IllegalArgumentException", BadDishType)
    else
      var dishes := FindByDishType(items, normalized);
      if dishes == [] then Done([])
      else
        match ParseDishSort(JavaSplit(sortCriteria, ','))
        case Raised(e, note) => Raised(e, note)
        case Done(spec) => Done(SortBy(dishes, DishKey(spec.0), spec.1))
  }

  /** An accepted selection is the type's dishes, reordered by the criteria. */
  lemma SelectedIsSortedPermutation(items: seq<Dish>, dishType: string, sortCriteria: string)
    requires GetSelectedDishes(items, dishType, sortCriteria).Done?
    requires FindByDishType(items, Lower(Trim(dishType))) != []
    ensures
      var r := GetSelectedDishes(items, dishType, sortCriteria).value;
      var spec := ParseDishSort(JavaSplit(sortCriteria, ',')).value;
      multiset(r) == multiset(FindByDishType(items, Lower(Trim(dishType))))
      && SortedBy(r, DishKey(spec.0), spec.1)
  {
  }

  /** Dishes of equal price or popularity keep the order of the scan in an
      accepted selection, whichever direction the criteria ask for. */
  lemma SelectedKeepsTies(items: seq<Dish>, dishType: string, sortCriteria: string, k: int)
    requires GetSelectedDishes(items, dishType, sortCriteria).Done?
    requires FindByDishType(items, Lower(Trim(dishType))) != []
    ensures
      var r := GetSelectedDishes(items, dishType, sortCriteria).value;
      var spec := ParseDishSort(JavaSplit(sortCriteria, ',')).value;
      WithKey(r, DishKey(spec.0), k) == WithKey(FindByDishType(items, Lower(Trim(dishType))), DishKey(spec.0), k)
  {
    var spec := ParseDishSort(JavaSplit(sortCriteria, ',')).value;
    SortByStable(FindByDishType(items, Lower(Trim(dishType))), DishKey(spec.0), spec.1, k);
  }

  /** Among dishes of equal popularity, the four popular ones are the first
      the scan met. */
  lemma PopularTiesInScanOrder(items: seq<Dish>, k: int)
    ensures var p := WithKey(FindAllSortedByPopularity(items), OrderKey, k);
      var w := WithKey(items, OrderKey, k);
      |p| <= |w| && p == w[..|p|]
  {
    var sorted := SortBy(items, OrderKey, true);
    var n := if |sorted| < 4 then |sorted| else 4;
    assert FindAllSortedByPopularity(items) == sorted[..n];
    WithKeyPrefix(sorted, n, OrderKey, k);
    SortByStable(items, OrderKey, true, k);
  }

  /** Every selected dish is of the requested type, and every dish of the
      type is selected. */
  lemma SelectedAreOfType(items: seq<Dish>, dishType: string, sortCriteria: string)
    requires GetSelectedDishes(items, dishType, sortCriteria).Done?
    ensures
      var r := GetSelectedDishes(items, dishType, sortCriteria).value;
      (forall j :: 0 <= j < |r| ==> EqualsIgnoreCase(r[j].dishType, Lower(Trim(dishType))))
      && forall i :: 0 <= i < |items| && EqualsIgnoreCase(items[i].dishType, Lower(Trim(dishType))) ==>
           items[i] in r
  {
    var r := GetSelectedDishes(items, dishType, sortCriteria).value;
    var dishes := FindByDishType(items, Lower(Trim(dishType)));
    if dishes != [] {
      SelectedIsSortedPermutation(items, dishType, sortCriteria);
    }
    assert multiset(r) == multiset(dishes);
    forall j | 0 <= j < |r|
      ensures EqualsIgnoreCase(r[j].dishType, Lower(Trim(dishType)))
    {
      assert r[j] in multiset(dishes);
    }
    forall i | 0 <= i < |items| && EqualsIgnoreCase(items[i].dishType, Lower(Trim(dishType)))
      ensures items[i] in r
    {
      assert items[i] in multiset(dishes);
    }
  }

  /** A selected dish is selected as often as the table holds it. */
  lemma SelectedKeepCounts(items: seq<Dish>, dishType: string, sortCriteria: string, d: Dish)
    requires GetSelectedDishes(items, dishType, sortCriteria).Done?
    requires d in GetSelectedDishes(items, dishType, sortCriteria).value
    ensures multiset(GetSelectedDishes(items, dishType, sortCriteria).value)[d] == multiset(items)[d]
  {
    var r := GetSelectedDishes(items, dishType, sortCriteria).value;
    var dishes := FindByDishType(items, Lower(Trim(dishType)));
    if dishes != [] {
      SelectedIsSortedPermutation(items, dishType, sortCriteria);
    }
    assert multiset(r) == multiset(dishes);
    FindByDishTypeCounts(items, Lower(Trim(dishType)), d);
  }
}
