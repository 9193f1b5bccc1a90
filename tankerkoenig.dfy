/**
 * The Tankerkönig side of the exporter: the fuel types and their names, the
 * conversion of a station of the API's response into the exporter's station
 * (keeping only the prices the station reports), and the decision whether a
 * decoded response is a list of stations or an API error.
 */
module Tankerkoenig {
  import opened Outcomes

  datatype FuelType = E10 | E5 | Diesel

  /** `Display` for a fuel type: the name the exporter labels its prices with. */
  function FuelText(fuel: FuelType): (s: string)
    ensures s == "E10" || s == "E5" || s == "Diesel"
  {
    match fuel
    case E10 => "E10"
    case E5 => "E5"
    case Diesel => "Diesel"
  }

  /** The conversion of a fuel type into a `String`, written out separately; it agrees with `Display`. */
  function FuelName(fuel: FuelType): (s: string)
    ensures s == FuelText(fuel)
  {
    match fuel
    case Diesel => "Diesel"
    case E10 => "E10"
    case E5 => "E5"
  }

  /** Different fuel types have different names, so no two prices share a label. */
  lemma FuelTextInjective(a: FuelType, b: FuelType)
    ensures FuelText(a) == FuelText(b) <==> a == b
  {
    if a != b {
      assert |FuelText(a)| != |FuelText(b)|;
    }
  }

  /** The price of one fuel at one station. */
  datatype Price = Price(fuel: FuelType, price: real)

  /** A point as the API gives it: longitude and latitude in degrees. */
  datatype Coordinate = Coordinate(lng: real, lat: real)

  /** A station of the API's response, as decoded. */
  datatype ApiStation = ApiStation(
    id: string, name: string, brand: string,
    lat: real, lng: real, dist: real,
    diesel: Option<real>, e5: Option<real>, e10: Option<real>,
    isOpen: bool)

  /** A station of the exporter, with the prices it reports. */
  datatype Station = Station(
    id: string, name: string, brand: string,
    isOpen: bool, dist: real,
    prices: seq<Price>,
    location: Coordinate)

  /** The position of a fuel type in the list a station's prices are read from: Diesel, E5, E10. */
  function FuelRank(fuel: FuelType): (k: nat)
    ensures k < 3
  {
    match fuel
    case Diesel => 0
    case E5 => 1
    case E10 => 2
  }

  /** The optional price field of an API station for a fuel type. */
  function PriceField(api: ApiStation, fuel: FuelType): Option<real>
  {
    match fuel
    case Diesel => api.diesel
    case E5 => api.e5
    case E10 => api.e10
  }

  /** The number of reported prices among `entries`. */
  function Reported(entries: seq<(FuelType, Option<real>)>): (n: nat)
    ensures n <= |entries|
  {
    if entries == [] then 0
    else (if entries[0].1.Some? then 1 else 0) + Reported(entries[1..])
  }

  /** `filter_map` over fuel types and optional prices: a price for each reported one, in order. */
  function PricesOf(entries: seq<(FuelType, Option<real>)>): (prices: seq<Price>)
    ensures |prices| == Reported(entries)
  {
    if entries == [] then []
    else
      var head := match entries[0].1
        case Some(p) => [Price(entries[0].0, p)]
        case None => [];
      head + PricesOf(entries[1..])
  }

  /** A price is kept exactly when its fuel type was reported with that price. */
  lemma {:induction false} PricesOfMember(entries: seq<(FuelType, Option<real>)>, fuel: FuelType, p: real)
    ensures Price(fuel, p) in PricesOf(entries) <==> (fuel, Some(p)) in entries
  {
    if entries != [] {
      PricesOfMember(entries[1..], fuel, p);
      assert entries == [entries[0]] + entries[1..];
    }
  }

  /** Keeping a price keeps an entry of the list it came from. */
  lemma {:induction false} PricesOfFrom(entries: seq<(FuelType, Option<real>)>, i: nat)
    requires i < |PricesOf(entries)|
    ensures (PricesOf(entries)[i].fuel, Some(PricesOf(entries)[i].price)) in entries
  {
    var q := PricesOf(entries)[i];
    PricesOfMember(entries, q.fuel, q.price);
    assert q in PricesOf(entries);
  }

  /** Fuel types ranked strictly increasingly along a list. */
  predicate RankedEntries(entries: seq<(FuelType, Option<real>)>)
  {
    forall i, j | 0 <= i < j < |entries| :: FuelRank(entries[i].0) < FuelRank(entries[j].0)
  }

  predicate RankedPrices(prices: seq<Price>)
  {
    forall i, j | 0 <= i < j < |prices| :: FuelRank(prices[i].fuel) < FuelRank(prices[j].fuel)
  }

  /** Filtering keeps the order of the fuel types; in particular no fuel type is kept twice. */
  lemma {:induction false} PricesOfRanked(entries: seq<(FuelType, Option<real>)>)
    requires RankedEntries(entries)
    ensures RankedPrices(PricesOf(entries))
  {
    if entries != [] {
      var rest := entries[1..];
      assert RankedEntries(rest) by {
        forall i, j | 0 <= i < j < |rest|
          ensures FuelRank(rest[i].0) < FuelRank(rest[j].0)
        {
          assert rest[i] == entries[i + 1] && rest[j] == entries[j + 1];
        }
      }
      PricesOfRanked(rest);
      var tail := PricesOf(rest);
      forall j | 0 <= j < |tail|
        ensures FuelRank(entries[0].0) < FuelRank(tail[j].fuel)
      {
        PricesOfFrom(rest, j);
        var k :| 0 <= k < |rest| && rest[k] == (tail[j].fuel, Some(tail[j].price));
        assert rest[k] == entries[k + 1];
      }
    }
  }

  /** The fuel types and optional prices of an API station, in the order its prices are read. */
  function PriceEntries(api: ApiStation): seq<(FuelType, Option<real>)>
  {
    [(Diesel, api.diesel), (E5, api.e5), (E10, api.e10)]
  }

  /** `From<TankerAPIStation> for TankerStation` */
  function StationFrom(api: ApiStation): (s: Station)
    ensures |s.prices| <= 3
  {
    Station(api.id, api.name, api.brand, api.isOpen, api.dist, PricesOf(PriceEntries(api)), Coordinate(api.lng, api.lat))
  }

  /**
   * A converted station keeps the identity, state and distance of the API
   * station, places it at the API station's longitude and latitude, and has a
   * price for a fuel exactly when the API station reports that price.
   */
  lemma StationFromFields(api: ApiStation, fuel: FuelType, p: real)
    ensures var s := StationFrom(api);
      s.id == api.id && s.name == api.name && s.brand == api.brand
      && s.isOpen == api.isOpen && s.dist == api.dist
      && s.location.lng == api.lng && s.location.lat == api.lat
    ensures Price(fuel, p) in StationFrom(api).prices <==> PriceField(api, fuel) == Some(p)
  {
    PricesOfMember(PriceEntries(api), fuel, p);
  }

  /** A converted station lists its prices as Diesel, E5, E10, skipping unreported ones, so no fuel twice. */
  lemma StationPricesOrdered(api: ApiStation)
    ensures RankedPrices(StationFrom(api).prices)
    ensures forall i, j | 0 <= i < j < |StationFrom(api).prices| :: StationFrom(api).prices[i].fuel != StationFrom(api).prices[j].fuel
  {
    PricesOfRanked(PriceEntries(api));
  }

  /** A station has as many prices as it reports: all three when it reports all, none when it reports none. */
  lemma StationPriceCount(api: ApiStation)
    ensures |StationFrom(api).prices|
      == (if api.diesel.Some? then 1 else 0) + (if api.e5.Some? then 1 else 0) + (if api.e10.Some? then 1 else 0)
  {
    var e := PriceEntries(api);
    assert e[1..] == [(E5, api.e5), (E10, api.e10)];
    assert e[1..][1..] == [(E10, api.e10)];
    assert e[1..][1..][1..] == [];
    assert Reported(e[1..][1..]) == if api.e10.Some? then 1 else 0;
    assert Reported(e[1..]) == (if api.e5.Some? then 1 else 0) + Reported(e[1..][1..]);
  }

  /** The errors of a price request. */
  datatype TankerError = ReqwestError(failure: TransportFailure) | ApiError(message: Option<string>)

  /** The decoded body of the API's answer. */
  datatype ApiResponse = ApiResponse(ok: bool, stations: Option<seq<ApiStation>>, message: Option<string>)

  /**
   * The end of `load_prices`: a transport failure is passed on; a response
   * that is `ok` and carries stations is those stations, converted in order;
   * any other response is an API error with the response's message.
   */
  function LoadPrices(response: Result<ApiResponse, TransportFailure>): (r: Result<seq<Station>, TankerError>)
    ensures response.Err? ==> r == Err(ReqwestError(response.error))
    ensures response.Ok? ==> (r.Ok? <==> response.value.ok && response.value.stations.Some?)
    ensures response.Ok? && r.Err? ==> r.error == ApiError(response.value.message)
    ensures r.Ok? ==>
      (|r.value| == |response.value.stations.value|
       && forall i | 0 <= i < |r.value| :: r.value[i] == StationFrom(response.value.stations.value[i]))
  {
    match response
    case Err(failure) => Err(ReqwestError(failure))
    case Ok(result) =>
      match (result.ok, result.stations)
      case (true, Some(stations)) => Ok(seq(|stations|, i requires 0 <= i < |stations| => StationFrom(stations[i])))
      case _ => Err(ApiError(result.message))
  }

  /**
   * Every station of a successful request is one of the response's stations,
   * in the response's order, with its prices in the order Diesel, E5, E10.
   */
  lemma LoadedStations(response: Result<ApiResponse, TransportFailure>, i: nat)
    requires LoadPrices(response).Ok? && i < |LoadPrices(response).value|
    ensures var api := response.value.stations.value[i];
      var s := LoadPrices(response).value[i];
      s.id == api.id && s.location == Coordinate(api.lng, api.lat) && RankedPrices(s.prices)
  {
    StationPricesOrdered(response.value.stations.value[i]);
  }
}
