/** The report `main` prints: the cube priced at its cheapest versions, split into the cards not
    owned and those owned, the owned ones listed by price, and the two totals. */
module Report {
  import opened Results
  import opened Dicts
  import opened Catalog

  /** The sum of the prices of a list of `(name, price)` pairs. */
  function SumPrices(items: seq<(Name, Price)>): int {
    if items == [] then 0 else items[0].1 + SumPrices(items[1..])
  }

  /** `sum(d.values())` */
  function Total(d: Dict<Price>): int
    requires Valid(d)
  {
    SumPrices(Items(d))
  }

  /** `{name: cheapest_version[name] for name in cube}`: KeyError for the first name without a
      price. A name listed twice becomes one key, placed at its first appearance. */
  function CheapestCube(cube: seq<Name>, cheapestVersion: Dict<Price>): (r: Result<Dict<Price>>)
    ensures r.Success? <==> forall i :: 0 <= i < |cube| ==> cube[i] in cheapestVersion.store
    ensures r.Success? ==> Valid(r.value) && r.value.order == FirstOccurrences(cube)
    ensures r.Success? ==>
      forall n :: n in r.value.store ==> n in cheapestVersion.store && r.value.store[n] == cheapestVersion.store[n]
  {
    if cube == [] then Success(Empty())
    else
      var init := cube[..|cube| - 1];
      var name := cube[|cube| - 1];
      var cheapestCube :- CheapestCube(init, cheapestVersion);
      if name !in cheapestVersion.store then Failure(KeyError(name))
      else Success(Set(cheapestCube, name, cheapestVersion.store[name]))
  }

  /** The comprehension fails on the first name of the cube without a price. */
  lemma {:induction false} CheapestCubeFailure(cube: seq<Name>, cheapestVersion: Dict<Price>)
    requires CheapestCube(cube, cheapestVersion).Failure?
    ensures exists i ::
      && 0 <= i < |cube|
      && cube[i] !in cheapestVersion.store
      && CheapestCube(cube, cheapestVersion).error == KeyError(cube[i])
      && forall j :: 0 <= j < i ==> cube[j] in cheapestVersion.store
  {
    var init := cube[..|cube| - 1];
    assert forall j :: 0 <= j < |init| ==> init[j] == cube[j];
    if CheapestCube(init, cheapestVersion).Failure? {
      CheapestCubeFailure(init, cheapestVersion);
      var i :| 0 <= i < |init| && init[i] !in cheapestVersion.store
        && CheapestCube(init, cheapestVersion).error == KeyError(init[i])
        && forall j :: 0 <= j < i ==> init[j] in cheapestVersion.store;
      assert cube[i] == init[i];
    } else {
      assert cube[|cube| - 1] !in cheapestVersion.store;
    }
  }

  predicate SortedByPrice(items: seq<(Name, Price)>) {
    forall i, j :: 0 <= i < j < |items| ==> items[i].1 <= items[j].1
  }

  /** Puts `item` before the first element that is not cheaper than it. */
  function InsertByPrice(item: (Name, Price), sorted: seq<(Name, Price)>): (r: seq<(Name, Price)>)
    requires SortedByPrice(sorted)
    ensures SortedByPrice(r)
    ensures multiset(r) == multiset(sorted) + multiset{item}
    ensures |r| == |sorted| + 1 && (r[0] == item || (sorted != [] && r[0] == sorted[0]))
  {
    if sorted == [] || item.1 <= sorted[0].1 then [item] + sorted
    else
      var rest := InsertByPrice(item, sorted[1..]);
      assert multiset(sorted) == multiset{sorted[0]} + multiset(sorted[1..]) by {
        assert sorted == [sorted[0]] + sorted[1..];
      }
      [sorted[0]] + rest
  }

  /** `sorted(items, key=lambda item: item[1])`: a stable insertion sort by price. */
  function SortByPrice(items: seq<(Name, Price)>): (r: seq<(Name, Price)>)
    ensures SortedByPrice(r)
    ensures multiset(r) == multiset(items)
  {
    if items == [] then []
    else
      assert items == [items[0]] + items[1..];
      InsertByPrice(items[0], SortByPrice(items[1..]))
  }

  /** The items of price `p`, in order. */
  function WithPrice(items: seq<(Name, Price)>, p: Price): seq<(Name, Price)> {
    if items == [] then []
    else (if items[0].1 == p then [items[0]] else []) + WithPrice(items[1..], p)
  }

  lemma WithPriceCons(x: (Name, Price), items: seq<(Name, Price)>, p: Price)
    ensures WithPrice([x] + items, p) == (if x.1 == p then [x] else []) + WithPrice(items, p)
  {
    assert ([x] + items)[1..] == items;
  }

  lemma {:induction false} InsertByPriceStable(item: (Name, Price), sorted: seq<(Name, Price)>, p: Price)
    requires SortedByPrice(sorted)
    ensures WithPrice(InsertByPrice(item, sorted), p) == (if item.1 == p then [item] else []) + WithPrice(sorted, p)
  {
    if sorted == [] || item.1 <= sorted[0].1 {
      WithPriceCons(item, sorted, p);
    } else {
      var rest := InsertByPrice(item, sorted[1..]);
      var mine := if item.1 == p then [item] else [];
      var first := if sorted[0].1 == p then [sorted[0]] else [];
      calc {
        WithPrice(InsertByPrice(item, sorted), p);
        WithPrice([sorted[0]] + rest, p);
        { WithPriceCons(sorted[0], rest, p); }
        first + WithPrice(rest, p);
        { InsertByPriceStable(item, sorted[1..], p); }
        first + (mine + WithPrice(sorted[1..], p));
        // `item` is dearer than `sorted[0]`, so at most one of them has price `p`.
        { assert first == [] || mine == []; }
        mine + (first + WithPrice(sorted[1..], p));
        { WithPriceCons(sorted[0], sorted[1..], p);
          assert [sorted[0]] + sorted[1..] == sorted; }
        mine + WithPrice(sorted, p);
      }
    }
  }

  /** The sort is stable: items of equal price keep their relative order. */
  lemma {:induction false} SortByPriceStable(items: seq<(Name, Price)>, p: Price)
    ensures WithPrice(SortByPrice(items), p) == WithPrice(items, p)
  {
    if items != [] {
      SortByPriceStable(items[1..], p);
      InsertByPriceStable(items[0], SortByPrice(items[1..]), p);
    }
  }

  lemma {:induction false} InsertByPriceSum(item: (Name, Price), sorted: seq<(Name, Price)>)
    requires SortedByPrice(sorted)
    ensures SumPrices(InsertByPrice(item, sorted)) == item.1 + SumPrices(sorted)
  {
    if sorted == [] || item.1 <= sorted[0].1 {
      assert ([item] + sorted)[1..] == sorted;
    } else {
      var rest := InsertByPrice(item, sorted[1..]);
      assert ([sorted[0]] + rest)[1..] == rest;
      InsertByPriceSum(item, sorted[1..]);
    }
  }

  /** Sorting does not change the sum of the prices. */
  lemma {:induction false} SortByPriceSum(items: seq<(Name, Price)>)
    ensures SumPrices(SortByPrice(items)) == SumPrices(items)
  {
    if items != [] {
      SortByPriceSum(items[1..]);
      InsertByPriceSum(items[0], SortByPrice(items[1..]));
    }
  }

  lemma {:induction false} ItemsOfAgree(keys: seq<Name>, s1: map<Name, Price>, s2: map<Name, Price>)
    requires forall k :: k in keys ==> k in s1 && k in s2 && s1[k] == s2[k]
    ensures ItemsOf(keys, s1) == ItemsOf(keys, s2)
  {
  }

  /** Splitting keys by membership in `owned` splits the sum of their prices. */
  lemma {:induction false} SumSplits(keys: seq<Name>, store: map<Name, Price>, owned: set<Name>)
    requires forall k :: k in keys ==> k in store
    ensures SumPrices(ItemsOf(keys, store))
      == SumPrices(ItemsOf(FilterKeys(keys, owned, false), store)) + SumPrices(ItemsOf(FilterKeys(keys, owned, true), store))
  {
    if keys != [] {
      SumSplits(keys[1..], store, owned);
      assert ItemsOf(keys, store)[1..] == ItemsOf(keys[1..], store);
      var unowned := FilterKeys(keys, owned, false);
      var ownedKeys := FilterKeys(keys, owned, true);
      if keys[0] in owned {
        assert ItemsOf(ownedKeys, store)[1..] == ItemsOf(ownedKeys[1..], store);
      } else {
        assert ItemsOf(unowned, store)[1..] == ItemsOf(unowned[1..], store);
      }
    }
  }

  /** The sum of a dict's values is the sum over the keys not in `s` plus the sum over those in it. */
  lemma TotalSplits(d: Dict<Price>, s: set<Name>)
    requires Valid(d)
    ensures Total(d) == Total(Select(d, s, false)) + Total(Select(d, s, true))
  {
    SumSplits(d.order, d.store, s);
    ItemsOfAgree(Select(d, s, false).order, Select(d, s, false).store, d.store);
    ItemsOfAgree(Select(d, s, true).order, Select(d, s, true).store, d.store);
  }

  /** What `main` prints. */
  datatype Report = Report(
    cheapestCube: Dict<Price>,
    cheapestCubeUnowned: Dict<Price>,
    ownedCards: seq<(Name, Price)>,
    totalCost: int,
    totalCostUnowned: int)

  /** Lines 78-96 of `main`, from the cleaned cube list, the cheapest versions and the owned names. */
  function BuildReport(cube: seq<Name>, cheapestVersion: Dict<Price>, owned: set<Name>): (r: Result<Report>)
    ensures r.Success? <==> forall i :: 0 <= i < |cube| ==> cube[i] in cheapestVersion.store
    ensures r.Success? ==>
      && r.value.cheapestCube.order == FirstOccurrences(cube)
      && r.value.cheapestCubeUnowned.order == FilterKeys(r.value.cheapestCube.order, owned, false)
  {
    var cheapestCube :- CheapestCube(cube, cheapestVersion);
    var cheapestCubeUnowned := Select(cheapestCube, owned, false);
    var ownedCards := Select(cheapestCube, owned, true);
    Success(Report(
      cheapestCube,
      cheapestCubeUnowned,
      SortByPrice(Items(ownedCards)),
      Total(cheapestCube),
      Total(cheapestCubeUnowned)))
  }

  /** The report exists exactly when every cube name has a cheapest version; otherwise the error
      is KeyError for the first cube name without one. The priced cube has one key per distinct
      cube name, in order of first appearance, each with its cheapest price. */
  lemma ReportCube(cube: seq<Name>, cheapestVersion: Dict<Price>, owned: set<Name>)
    ensures var r := BuildReport(cube, cheapestVersion, owned);
      r.Success? <==> forall n :: n in cube ==> n in cheapestVersion.store
    ensures var r := BuildReport(cube, cheapestVersion, owned);
      r.Failure? ==>
        exists i :: 0 <= i < |cube| && cube[i] !in cheapestVersion.store && r.error == KeyError(cube[i])
          && forall j :: 0 <= j < i ==> cube[j] in cheapestVersion.store
    ensures var r := BuildReport(cube, cheapestVersion, owned);
      r.Success? ==>
        && r.value.cheapestCube.order == FirstOccurrences(cube)
        && (forall n :: n in r.value.cheapestCube.store <==> n in cube)
        && forall n :: n in r.value.cheapestCube.store ==> r.value.cheapestCube.store[n] == cheapestVersion.store[n]
  {
    if CheapestCube(cube, cheapestVersion).Failure? {
      CheapestCubeFailure(cube, cheapestVersion);
    }
  }

  lemma ItemsOfMember(keys: seq<Name>, store: map<Name, Price>, item: (Name, Price))
    requires forall k :: k in keys ==> k in store
    ensures item in ItemsOf(keys, store) <==> item.0 in keys && item.1 == store[item.0]
  {
    if item.0 in keys {
      var i :| 0 <= i < |keys| && keys[i] == item.0;
      assert ItemsOf(keys, store)[i] == (keys[i], store[keys[i]]);
    }
  }

  /** The unowned dict and the owned list split the priced cube: every priced card is in exactly
      one of them, with the same price; the owned list is a permutation of the owned entries,
      sorted by price. */
  lemma ReportPartition(cube: seq<Name>, cheapestVersion: Dict<Price>, owned: set<Name>)
    requires BuildReport(cube, cheapestVersion, owned).Success?
    ensures var report := BuildReport(cube, cheapestVersion, owned).value;
      forall n :: n in report.cheapestCubeUnowned.store <==> n in report.cheapestCube.store && n !in owned
    ensures var report := BuildReport(cube, cheapestVersion, owned).value;
      forall n :: n in report.cheapestCubeUnowned.store ==>
        report.cheapestCubeUnowned.store[n] == report.cheapestCube.store[n]
    ensures var report := BuildReport(cube, cheapestVersion, owned).value;
      forall item :: item in report.ownedCards <==>
        item.0 in report.cheapestCube.store && item.0 in owned && item.1 == report.cheapestCube.store[item.0]
    ensures var report := BuildReport(cube, cheapestVersion, owned).value;
      && multiset(report.ownedCards) == multiset(Items(Select(report.cheapestCube, owned, true)))
      && SortedByPrice(report.ownedCards)
  {
    var report := BuildReport(cube, cheapestVersion, owned).value;
    var ownedDict := Select(report.cheapestCube, owned, true);
    forall item
      ensures item in report.ownedCards <==>
        item.0 in report.cheapestCube.store && item.0 in owned && item.1 == report.cheapestCube.store[item.0]
    {
      assert item in report.ownedCards <==> item in multiset(report.ownedCards);
      assert item in Items(ownedDict) <==> item in multiset(Items(ownedDict));
      ItemsOfMember(ownedDict.order, ownedDict.store, item);
    }
  }

  /** The total cost is the unowned total plus the prices of the owned cards. */
  lemma ReportTotals(cube: seq<Name>, cheapestVersion: Dict<Price>, owned: set<Name>)
    requires BuildReport(cube, cheapestVersion, owned).Success?
    ensures var report := BuildReport(cube, cheapestVersion, owned).value;
      report.totalCost == report.totalCostUnowned + SumPrices(report.ownedCards)
  {
    var report := BuildReport(cube, cheapestVersion, owned).value;
    TotalSplits(report.cheapestCube, owned);
    SortByPriceSum(Items(Select(report.cheapestCube, owned, true)));
  }
}
