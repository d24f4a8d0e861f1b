/** The card catalog: grouping card ids by name (`get_all_card_ids`) and resolving each name to
    the price of its cheapest printing (`get_cheapest_version`). */
module Catalog {
  import opened Results
  import opened Dicts

  type Id = string
  type Name = string
  /** A price in whole cents, so that minima and sums are exact. */
  type Price = int

  /** What the catalog stores under a card id; only the name is consumed. */
  datatype CardRecord = CardRecord(name: Name)

  ghost predicate Listed(ids: seq<Id>, cards: map<Id, CardRecord>) {
    forall id :: id in ids ==> id in cards
  }

  /** The names of the cards `ids`, one per id, in order. */
  function NamesOf(ids: seq<Id>, cards: map<Id, CardRecord>): (r: seq<Name>)
    requires Listed(ids, cards)
    ensures |r| == |ids|
    ensures forall i :: 0 <= i < |ids| ==> r[i] == cards[ids[i]].name
  {
    if ids == [] then []
    else NamesOf(ids[..|ids| - 1], cards) + [cards[ids[|ids| - 1]].name]
  }

  /** The ids among `ids` whose card has the given name, in their order in `ids`. */
  function IdsNamed(ids: seq<Id>, cards: map<Id, CardRecord>, name: Name): (r: seq<Id>)
    requires Listed(ids, cards)
    ensures forall id :: id in r <==> id in ids && cards[id].name == name
    ensures Distinct(ids) ==> Distinct(r)
  {
    if ids == [] then []
    else
      var last := ids[|ids| - 1];
      assert Distinct(ids) ==> last !in ids[..|ids| - 1];
      IdsNamed(ids[..|ids| - 1], cards, name) + (if cards[last].name == name then [last] else [])
  }

  /** The dict `card_ids` once the entries `ids` have been visited in order: each visit does
      `card_ids.setdefault(name, []).append(id)`. */
  function CardIdIndexOf(ids: seq<Id>, cards: map<Id, CardRecord>): (r: Dict<seq<Id>>)
    requires Listed(ids, cards)
    ensures Valid(r)
  {
    if ids == [] then Empty()
    else
      var cardIds := CardIdIndexOf(ids[..|ids| - 1], cards);
      var id := ids[|ids| - 1];
      var name := cards[id].name;
      Set(cardIds, name, (if name in cardIds.store then cardIds.store[name] else []) + [id])
  }

  /** `get_all_card_ids` */
  function CardIdIndex(catalog: Dict<CardRecord>): (r: Dict<seq<Id>>)
    requires Valid(catalog)
    ensures Valid(r)
    ensures r.order == FirstOccurrences(NamesOf(catalog.order, catalog.store))
  {
    CardIdIndexIsGrouping(catalog.order, catalog.store);
    CardIdIndexOf(catalog.order, catalog.store)
  }

  lemma IdsNamedAbsent(ids: seq<Id>, cards: map<Id, CardRecord>, n: Name)
    requires Listed(ids, cards)
    requires n !in NamesOf(ids, cards)
    ensures IdsNamed(ids, cards, n) == []
  {
  }

  /** The index lists the names in order of first appearance, and under each name exactly the
      ids with that name, in catalog order. */
  lemma {:induction false} CardIdIndexIsGrouping(ids: seq<Id>, cards: map<Id, CardRecord>)
    requires Listed(ids, cards)
    ensures CardIdIndexOf(ids, cards).order == FirstOccurrences(NamesOf(ids, cards))
    ensures forall n :: n in CardIdIndexOf(ids, cards).store ==> CardIdIndexOf(ids, cards).store[n] == IdsNamed(ids, cards, n)
  {
    if ids != [] {
      var init := ids[..|ids| - 1];
      var id := ids[|ids| - 1];
      var name := cards[id].name;
      var names := NamesOf(init, cards);
      var before := CardIdIndexOf(init, cards);
      var after := CardIdIndexOf(ids, cards);
      CardIdIndexIsGrouping(init, cards);
      assert NamesOf(ids, cards) == names + [name];
      assert (names + [name])[..|names|] == names;
      assert name in before.store <==> name in names;
      forall n | n in after.store
        ensures after.store[n] == IdsNamed(ids, cards, n)
      {
        if n == name && name !in before.store {
          IdsNamedAbsent(init, cards, n);
        }
      }
    }
  }

  /** One more catalog entry of the loop: its id is appended to the group of its name, which is
      created empty at the end of the order when the name is new. */
  lemma CardIdIndexStep(ids: seq<Id>, i: nat, cards: map<Id, CardRecord>)
    requires Listed(ids, cards) && i < |ids|
    ensures Listed(ids[..i], cards) && Listed(ids[..i + 1], cards)
    ensures var cardIds := CardIdIndexOf(ids[..i], cards);
      var name := cards[ids[i]].name;
      CardIdIndexOf(ids[..i + 1], cards)
        == Set(cardIds, name, (if name in cardIds.store then cardIds.store[name] else []) + [ids[i]])
  {
    assert ids[..i + 1][..i] == ids[..i];
    assert forall x :: x in ids[..i + 1] ==> x in ids;
  }

  /** `get_all_card_ids`: loops over the catalog and appends each id to the list of its name. */
  method GetAllCardIds(catalog: Dict<CardRecord>) returns (cardIds: Dict<seq<Id>>)
    requires Valid(catalog)
    ensures cardIds == CardIdIndex(catalog)
  {
    cardIds := Empty();
    assert catalog.order[..0] == [];
    for i := 0 to |catalog.order|
      invariant Listed(catalog.order[..i], catalog.store)
      invariant cardIds == CardIdIndexOf(catalog.order[..i], catalog.store)
    {
      var id := catalog.order[i];
      var name := catalog.store[id].name;
      var group := if name in cardIds.store then cardIds.store[name] else [];
      CardIdIndexStep(catalog.order, i, catalog.store);
      cardIds := Set(cardIds, name, group + [id]);
    }
    assert catalog.order[..|catalog.order|] == catalog.order;
  }

  /** The keys of `card_ids` are exactly the names in the catalog. */
  lemma GroupingKeys(catalog: Dict<CardRecord>)
    requires Valid(catalog)
    ensures forall n :: n in CardIdIndex(catalog).store <==>
      exists id :: id in catalog.store && catalog.store[id].name == n
  {
    forall n
      ensures n in CardIdIndex(catalog).store <==> exists id :: id in catalog.store && catalog.store[id].name == n
    {
      GroupingKey(catalog, n);
    }
  }

  lemma GroupingKey(catalog: Dict<CardRecord>, n: Name)
    requires Valid(catalog)
    ensures n in CardIdIndex(catalog).store <==> exists id :: id in catalog.store && catalog.store[id].name == n
  {
    var names := NamesOf(catalog.order, catalog.store);
    assert n in CardIdIndex(catalog).store <==> n in names by {
      CardIdIndexIsGrouping(catalog.order, catalog.store);
    }
    if n in names {
      var i :| 0 <= i < |names| && names[i] == n;
      assert catalog.order[i] in catalog.store;
    }
    if id :| id in catalog.store && catalog.store[id].name == n {
      var i :| 0 <= i < |catalog.order| && catalog.order[i] == id;
      assert names[i] == n;
    }
  }

  /** The group of a name is non-empty, holds each id at most once, and holds exactly the
      catalog ids with that name. */
  lemma GroupOf(catalog: Dict<CardRecord>, n: Name)
    requires Valid(catalog)
    requires n in CardIdIndex(catalog).store
    ensures var group := CardIdIndex(catalog).store[n];
      && group != []
      && Distinct(group)
      && forall id :: id in group <==> id in catalog.store && catalog.store[id].name == n
  {
    CardIdIndexIsGrouping(catalog.order, catalog.store);
    GroupingKeys(catalog);
    var id :| id in catalog.store && catalog.store[id].name == n;
    assert id in IdsNamed(catalog.order, catalog.store, n);
  }

  /** Every catalog id is in the group of its own name. */
  lemma GroupOfId(catalog: Dict<CardRecord>, id: Id)
    requires Valid(catalog)
    requires id in catalog.store
    ensures var n := catalog.store[id].name;
      n in CardIdIndex(catalog).store && id in CardIdIndex(catalog).store[n]
  {
    GroupingKeys(catalog);
    GroupOf(catalog, catalog.store[id].name);
  }

  /** Every group is non-empty and holds each id at most once; every catalog id is in the
      group of its own name and in no other. */
  lemma GroupingGroups(catalog: Dict<CardRecord>)
    requires Valid(catalog)
    ensures var idx := CardIdIndex(catalog);
      forall n :: n in idx.store ==> idx.store[n] != [] && Distinct(idx.store[n])
    ensures var idx := CardIdIndex(catalog);
      forall n, id :: n in idx.store && id in idx.store[n] ==> id in catalog.store && catalog.store[id].name == n
    ensures var idx := CardIdIndex(catalog);
      forall id :: id in catalog.store ==> catalog.store[id].name in idx.store && id in idx.store[catalog.store[id].name]
  {
    var idx := CardIdIndex(catalog);
    forall n | n in idx.store
      ensures idx.store[n] != [] && Distinct(idx.store[n])
      ensures forall id :: id in idx.store[n] ==> id in catalog.store && catalog.store[id].name == n
    {
      GroupOf(catalog, n);
    }
    forall id | id in catalog.store
      ensures catalog.store[id].name in idx.store && id in idx.store[catalog.store[id].name]
    {
      GroupOfId(catalog, id);
    }
  }

  /** `[price_history[id] for id in ids]`: KeyError for the first id without a price. */
  function PricesOf(ids: seq<Id>, priceHistory: map<Id, Price>): (r: Result<seq<Price>>)
    ensures r.Success? <==> forall id :: id in ids ==> id in priceHistory
    ensures r.Success? ==> |r.value| == |ids|
    ensures r.Success? ==> forall i :: 0 <= i < |ids| ==> ids[i] in priceHistory && r.value[i] == priceHistory[ids[i]]
    ensures r.Failure? ==>
      exists i :: 0 <= i < |ids| && r.error == KeyError(ids[i]) && ids[i] !in priceHistory
        && forall j :: 0 <= j < i ==> ids[j] in priceHistory
  {
    if ids == [] then Success([])
    else if ids[0] !in priceHistory then Failure(KeyError(ids[0]))
    else
      var rest :- PricesOf(ids[1..], priceHistory);
      Success([priceHistory[ids[0]]] + rest)
  }

  /** The built-in `min` of a non-empty list. */
  function Min(s: seq<Price>): (m: Price)
    requires s != []
    ensures m in s
    ensures forall i :: 0 <= i < |s| ==> m <= s[i]
  {
    if |s| == 1 then s[0]
    else
      var rest := Min(s[1..]);
      if s[0] <= rest then s[0] else rest
  }

  /** `min([price_history[id] for id in ids])`: the lowest price among `ids`; KeyError for the
      first id without a price, ValueError (from `min`) when `ids` is empty. */
  function CheapestPrice(ids: seq<Id>, priceHistory: map<Id, Price>): (r: Result<Price>)
    ensures r.Success? <==> ids != [] && forall id :: id in ids ==> id in priceHistory
    ensures r.Success? ==> forall id :: id in ids ==> id in priceHistory && r.value <= priceHistory[id]
    ensures r.Success? ==> exists id :: id in ids && id in priceHistory && priceHistory[id] == r.value
    ensures r.Failure? ==>
      || (ids == [] && r.error == ValueError)
      || (r.error.KeyError? && r.error.key in ids && r.error.key !in priceHistory)
  {
    var prices :- PricesOf(ids, priceHistory);
    if prices == [] then Failure(ValueError) else Success(Min(prices))
  }

  /** The dict `cheapest_cards` after the loop of `get_cheapest_version` has visited `names`
      in order: each name mapped to the cheapest price of its ids; the first failure aborts. */
  function CheapestOver(names: seq<Name>, cardIds: Dict<seq<Id>>, priceHistory: map<Id, Price>): (r: Result<Dict<Price>>)
    requires forall n :: n in names ==> n in cardIds.store
    ensures r.Success? ==> Valid(r.value)
  {
    if names == [] then Success(Empty())
    else
      var name := names[|names| - 1];
      var cheapest :- CheapestOver(names[..|names| - 1], cardIds, priceHistory);
      var price :- CheapestPrice(cardIds.store[name], priceHistory);
      Success(Set(cheapest, name, price))
  }

  /** `get_cheapest_version` */
  function CheapestVersion(catalog: Dict<CardRecord>, priceHistory: map<Id, Price>): (r: Result<Dict<Price>>)
    requires Valid(catalog)
    ensures r.Success? ==> Valid(r.value) && r.value.order == CardIdIndex(catalog).order
  {
    var cardIds := CardIdIndex(catalog);
    CheapestOverSpec(cardIds.order, cardIds, priceHistory);
    CheapestOver(cardIds.order, cardIds, priceHistory)
  }

  /** Once a prefix of the names fails, the whole loop fails with the same error. */
  lemma {:induction false} CheapestOverFailureSticks(names: seq<Name>, i: nat, cardIds: Dict<seq<Id>>, priceHistory: map<Id, Price>)
    requires i <= |names|
    requires forall n :: n in names ==> n in cardIds.store
    requires CheapestOver(names[..i], cardIds, priceHistory).Failure?
    ensures CheapestOver(names, cardIds, priceHistory) == CheapestOver(names[..i], cardIds, priceHistory)
    decreases |names|
  {
    if i < |names| {
      var init := names[..|names| - 1];
      assert init[..i] == names[..i];
      CheapestOverFailureSticks(init, i, cardIds, priceHistory);
    } else {
      assert names[..i] == names;
    }
  }

  /** The loop succeeds exactly when every visited name has a cheapest price; it then maps each
      visited name, in order, to that price, and otherwise raises the error of one of them. */
  lemma {:induction false} CheapestOverSpec(names: seq<Name>, cardIds: Dict<seq<Id>>, priceHistory: map<Id, Price>)
    requires Distinct(names)
    requires forall n :: n in names ==> n in cardIds.store
    ensures var r := CheapestOver(names, cardIds, priceHistory);
      r.Success? <==> forall n :: n in names ==> CheapestPrice(cardIds.store[n], priceHistory).Success?
    ensures var r := CheapestOver(names, cardIds, priceHistory);
      r.Success? ==>
        && r.value.order == names
        && forall n :: n in names ==> CheapestPrice(cardIds.store[n], priceHistory) == Success(r.value.store[n])
    ensures var r := CheapestOver(names, cardIds, priceHistory);
      r.Failure? ==> exists n :: n in names && CheapestPrice(cardIds.store[n], priceHistory) == Failure(r.error)
  {
    if names != [] {
      var init := names[..|names| - 1];
      var name := names[|names| - 1];
      assert names == init + [name];
      assert name !in init;
      CheapestOverSpec(init, cardIds, priceHistory);
    }
  }

  /** `get_cheapest_version` succeeds exactly when every catalog id has a price; otherwise it
      raises KeyError for a catalog id without one. */
  lemma CheapestVersionFails(catalog: Dict<CardRecord>, priceHistory: map<Id, Price>)
    requires Valid(catalog)
    ensures CheapestVersion(catalog, priceHistory).Success? <==> forall id :: id in catalog.store ==> id in priceHistory
    ensures var r := CheapestVersion(catalog, priceHistory);
      r.Failure? ==> r.error.KeyError? && r.error.key in catalog.store && r.error.key !in priceHistory
  {
    var idx := CardIdIndex(catalog);
    var r := CheapestVersion(catalog, priceHistory);
    CheapestOverSpec(idx.order, idx, priceHistory);
    if forall id :: id in catalog.store ==> id in priceHistory {
      forall n | n in idx.order
        ensures CheapestPrice(idx.store[n], priceHistory).Success?
      {
        GroupOf(catalog, n);
      }
    } else {
      var id :| id in catalog.store && id !in priceHistory;
      GroupOfId(catalog, id);
      var n := catalog.store[id].name;
      assert !CheapestPrice(idx.store[n], priceHistory).Success?;
    }
    if r.Failure? {
      var n :| n in idx.order && CheapestPrice(idx.store[n], priceHistory) == Failure(r.error);
      GroupOf(catalog, n);
    }
  }

  /** For every catalog name, `get_cheapest_version` gives a price no higher than that of any id
      with that name, and equal to the price of one of them; its keys are the catalog's names. */
  lemma CheapestVersionIsMinimum(catalog: Dict<CardRecord>, priceHistory: map<Id, Price>)
    requires Valid(catalog)
    requires CheapestVersion(catalog, priceHistory).Success?
    ensures var cheapest := CheapestVersion(catalog, priceHistory).value;
      forall n :: n in cheapest.store <==> exists id :: id in catalog.store && catalog.store[id].name == n
    ensures var cheapest := CheapestVersion(catalog, priceHistory).value;
      forall id :: id in catalog.store ==>
        var n := catalog.store[id].name;
        n in cheapest.store && id in priceHistory && cheapest.store[n] <= priceHistory[id]
    ensures var cheapest := CheapestVersion(catalog, priceHistory).value;
      forall n :: n in cheapest.store ==>
        exists id :: id in catalog.store && catalog.store[id].name == n
          && id in priceHistory && priceHistory[id] == cheapest.store[n]
  {
    var idx := CardIdIndex(catalog);
    var cheapest := CheapestVersion(catalog, priceHistory).value;
    CheapestOverSpec(idx.order, idx, priceHistory);
    assert cheapest.order == idx.order;
    GroupingKeys(catalog);
    forall id | id in catalog.store
      ensures var n := catalog.store[id].name;
        n in cheapest.store && id in priceHistory && cheapest.store[n] <= priceHistory[id]
    {
      GroupOfId(catalog, id);
    }
    forall n | n in cheapest.store
      ensures exists id ::
        id in catalog.store && catalog.store[id].name == n && id in priceHistory && priceHistory[id] == cheapest.store[n]
    {
      GroupOf(catalog, n);
      var id :| id in idx.store[n] && id in priceHistory && priceHistory[id] == cheapest.store[n];
    }
  }

  /** One more name of the loop: its cheapest price is added, or its error ends the loop. */
  lemma CheapestOverStep(names: seq<Name>, i: nat, cardIds: Dict<seq<Id>>, priceHistory: map<Id, Price>)
    requires i < |names|
    requires forall n :: n in names ==> n in cardIds.store
    requires CheapestOver(names[..i], cardIds, priceHistory).Success?
    ensures var before := CheapestOver(names[..i], cardIds, priceHistory).value;
      var price := CheapestPrice(cardIds.store[names[i]], priceHistory);
      CheapestOver(names[..i + 1], cardIds, priceHistory)
        == if price.Failure? then Failure(price.error) else Success(Set(before, names[i], price.value))
  {
    assert names[..i + 1][..i] == names[..i];
  }

  /** The price of one name is the price of one of its printings. */
  lemma CheapestVersionAt(catalog: Dict<CardRecord>, priceHistory: map<Id, Price>, n: Name)
    requires Valid(catalog)
    requires CheapestVersion(catalog, priceHistory).Success?
    requires n in CheapestVersion(catalog, priceHistory).value.store
    ensures exists id ::
      && id in catalog.store && catalog.store[id].name == n
      && id in priceHistory && priceHistory[id] == CheapestVersion(catalog, priceHistory).value.store[n]
  {
    CheapestVersionIsMinimum(catalog, priceHistory);
  }

  /** `get_cheapest_version` as written: builds `card_ids`, then visits its names in order. */
  method GetCheapestVersion(catalog: Dict<CardRecord>, priceHistory: map<Id, Price>) returns (r: Result<Dict<Price>>)
    requires Valid(catalog)
    ensures r == CheapestVersion(catalog, priceHistory)
  {
    var cardIds := GetAllCardIds(catalog);
    var cheapestCards := Empty();
    assert cardIds.order[..0] == [];
    for i := 0 to |cardIds.order|
      invariant CheapestOver(cardIds.order[..i], cardIds, priceHistory) == Success(cheapestCards)
    {
      var name := cardIds.order[i];
      var price := CheapestPrice(cardIds.store[name], priceHistory);
      CheapestOverStep(cardIds.order, i, cardIds, priceHistory);
      if price.Failure? {
        CheapestOverFailureSticks(cardIds.order, i + 1, cardIds, priceHistory);
        return Failure(price.error);
      }
      cheapestCards := Set(cheapestCards, name, price.value);
    }
    assert cardIds.order[..|cardIds.order|] == cardIds.order;
    return Success(cheapestCards);
  }

  /** Two printings of one card: the cheaper price wins. */
  lemma TwoPrintings(id1: Id, id2: Id, name: Name, price1: Price, price2: Price)
    requires id1 != id2
    ensures var catalog := Dict([id1, id2], map[id1 := CardRecord(name), id2 := CardRecord(name)]);
      var r := CheapestVersion(catalog, map[id1 := price1, id2 := price2]);
      r.Success? && r.value.store == map[name := if price1 <= price2 then price1 else price2]
  {
    var catalog := Dict([id1, id2], map[id1 := CardRecord(name), id2 := CardRecord(name)]);
    var prices := map[id1 := price1, id2 := price2];
    var cheapest := if price1 <= price2 then price1 else price2;
    assert Valid(catalog) by {
      assert catalog.store.Keys == {id1, id2};
    }
    var r := CheapestVersion(catalog, prices);
    assert r.Success? by {
      CheapestVersionFails(catalog, prices);
    }
    var cheapestVersion := r.value;
    assert id1 in catalog.store && catalog.store[id1].name == name && prices[id1] == price1;
    assert id2 in catalog.store && catalog.store[id2].name == name && prices[id2] == price2;
    forall n | n in cheapestVersion.store
      ensures n == name
    {
      CheapestVersionAt(catalog, prices, n);
      var id :| id in catalog.store && catalog.store[id].name == n;
    }
    assert name in cheapestVersion.store && cheapestVersion.store[name] <= price1 && cheapestVersion.store[name] <= price2 by {
      CheapestVersionIsMinimum(catalog, prices);
    }
    CheapestVersionAt(catalog, prices, name);
    var id :| id in catalog.store && id in prices && prices[id] == cheapestVersion.store[name];
    assert id == id1 || id == id2;
    SingletonMap(cheapestVersion.store, name, cheapest);
  }

  lemma SingletonMap(m: map<Name, Price>, name: Name, v: Price)
    requires name in m && m[name] == v
    requires forall n :: n in m ==> n == name
    ensures m == map[name := v]
  {
  }

  lemma CheapestVersionExample()
    ensures var catalog := Dict(["id1", "id2"], map["id1" := CardRecord("Lightning Bolt"), "id2" := CardRecord("Lightning Bolt")]);
      var r := CheapestVersion(catalog, map["id1" := 5, "id2" := 3]);
      r.Success? && r.value.store == map["Lightning Bolt" := 3]
  {
    assert "id1" != "id2";
    TwoPrintings("id1", "id2", "Lightning Bolt", 5, 3);
  }
}
