/** Result selection of the address search (`get_latlon`). The search request
    itself is network traffic; its response is an input here. */
module Geocoder {
  import opened Common
  import opened Http

  /** One ranked search hit; coordinates stay the decimal strings the API sends. */
  datatype SearchHit = SearchHit(latitude: string, longitude: string)

  /** The search payload: the number of matches and the hits, best first. */
  datatype SearchResult = SearchResult(found: int, results: seq<SearchHit>)

  /** The `(lat, lon)` tuple; `None` stands for Python's `None`. */
  datatype LatLon = LatLon(lat: Option<string>, lon: Option<string>)

  /** Validates the response, then answers `(None, None)` when nothing was
      found and otherwise the coordinates of the top-ranked hit, latitude
      first. A response that claims matches but lists no hit fails on the
      subscript `results[0]`. */
  function GetLatLon(response: Response<SearchResult>): (r: Result<LatLon>)
    ensures response.statusCode != STATUS_OK ==>
      r == Failure(HttpError(response.statusCode, response.text))
    ensures r.Failure? <==>
      response.statusCode != STATUS_OK || (response.json.found != 0 && |response.json.results| == 0)
    ensures r.Failure? && response.statusCode == STATUS_OK ==> r.error == IndexError
    ensures r.Success? ==> (r.value.lat.None? <==> response.json.found == 0)
    ensures r.Success? ==> (r.value.lon.None? <==> r.value.lat.None?)
    ensures r.Success? && response.json.found != 0 ==>
      r.value.lat == Some(response.json.results[0].latitude) &&
      r.value.lon == Some(response.json.results[0].longitude)
  {
    match CheckResponse(response)
    case Failure(e) => Failure(e)
    case Success(search) =>
      if search.found == 0 then Success(LatLon(None, None))
      else if |search.results| == 0 then Failure(IndexError)
      else Success(LatLon(Some(search.results[0].latitude), Some(search.results[0].longitude)))
  }
}
