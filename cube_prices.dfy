/** The whole computation of `main` between reading the four inputs and printing: clean the cube
    list, resolve cheapest versions, and build the report. */
module CubePrices {
  import opened Results
  import opened Dicts
  import opened CubeList
  import opened Catalog
  import opened OwnedCards
  import opened Report

  /** `main` on already-read inputs, failing with the first exception it would raise. The owned
      table is read before the cube list is cleaned, as in the script. */
  function CubeReport(
    catalog: Dict<CardRecord>,
    priceHistory: map<Id, Price>,
    cubeLines: seq<string>,
    ownedRows: seq<seq<string>>): (r: Result<Report>)
    requires Valid(catalog)
    ensures OwnedCardNames(ownedRows).Failure? ==> r == Failure(OwnedCardNames(ownedRows).error)
    ensures OwnedCardNames(ownedRows).Success? && Maybeboard !in cubeLines ==> r == Failure(ValueError)
    ensures r.Success? ==> Maybeboard in cubeLines && CheapestVersion(catalog, priceHistory).Success?
  {
    var owned :- OwnedCardNames(ownedRows);
    var cube :- CleanList(cubeLines);
    var cheapestVersion :- CheapestVersion(catalog, priceHistory);
    BuildReport(cube, cheapestVersion, owned)
  }

  /** `main`, step by step, on already-read inputs. */
  method PriceCube(
    catalog: Dict<CardRecord>,
    priceHistory: map<Id, Price>,
    cubeLines: seq<string>,
    ownedRows: seq<seq<string>>) returns (r: Result<Report>)
    requires Valid(catalog)
    ensures r == CubeReport(catalog, priceHistory, cubeLines, ownedRows)
  {
    var owned := ReadOwnedRows(ownedRows);
    if owned.Failure? {
      return Failure(owned.error);
    }
    var cube := CleanList(cubeLines);
    if cube.Failure? {
      return Failure(cube.error);
    }
    var cheapestVersion := GetCheapestVersion(catalog, priceHistory);
    if cheapestVersion.Failure? {
      return Failure(cheapestVersion.error);
    }
    r := BuildReport(cube.value, cheapestVersion.value, owned.value);
  }

  /** When the run succeeds, every card of the cleaned cube list is priced at its cheapest
      printing in the catalog, each distinct card once, and the total cost is the unowned total
      plus the prices of the owned cards. */
  lemma CubeReportSound(
    catalog: Dict<CardRecord>,
    priceHistory: map<Id, Price>,
    cubeLines: seq<string>,
    ownedRows: seq<seq<string>>)
    requires Valid(catalog)
    requires CubeReport(catalog, priceHistory, cubeLines, ownedRows).Success?
    ensures var report := CubeReport(catalog, priceHistory, cubeLines, ownedRows).value;
      forall n :: n in report.cheapestCube.store <==> n in CleanList(cubeLines).value
    ensures var report := CubeReport(catalog, priceHistory, cubeLines, ownedRows).value;
      forall id :: id in catalog.store && catalog.store[id].name in report.cheapestCube.store ==>
        id in priceHistory && report.cheapestCube.store[catalog.store[id].name] <= priceHistory[id]
    ensures var report := CubeReport(catalog, priceHistory, cubeLines, ownedRows).value;
      forall n :: n in report.cheapestCube.store ==>
        exists id :: id in catalog.store && catalog.store[id].name == n
          && id in priceHistory && priceHistory[id] == report.cheapestCube.store[n]
    ensures var report := CubeReport(catalog, priceHistory, cubeLines, ownedRows).value;
      report.totalCost == report.totalCostUnowned + SumPrices(report.ownedCards)
  {
    var owned := OwnedCardNames(ownedRows).value;
    var cube := CleanList(cubeLines).value;
    var cheapestVersion := CheapestVersion(catalog, priceHistory).value;
    CheapestVersionIsMinimum(catalog, priceHistory);
    ReportCube(cube, cheapestVersion, owned);
    ReportTotals(cube, cheapestVersion, owned);
  }

  /** The run fails exactly when the owned table is malformed, the cube list has no maybeboard
      line, a catalog id has no price, or a cleaned cube name is not in the catalog. */
  lemma CubeReportFails(
    catalog: Dict<CardRecord>,
    priceHistory: map<Id, Price>,
    cubeLines: seq<string>,
    ownedRows: seq<seq<string>>)
    requires Valid(catalog)
    ensures CubeReport(catalog, priceHistory, cubeLines, ownedRows).Success? <==>
      && OwnedCardNames(ownedRows).Success?
      && Maybeboard in cubeLines
      && (forall id :: id in catalog.store ==> id in priceHistory)
      && forall n :: n in CleanList(cubeLines).value ==>
           exists id :: id in catalog.store && catalog.store[id].name == n
  {
    CheapestVersionFails(catalog, priceHistory);
    if OwnedCardNames(ownedRows).Success? && Maybeboard in cubeLines
      && CheapestVersion(catalog, priceHistory).Success? {
      CheapestVersionIsMinimum(catalog, priceHistory);
      ReportCube(CleanList(cubeLines).value, CheapestVersion(catalog, priceHistory).value, OwnedCardNames(ownedRows).value);
    }
  }
}
