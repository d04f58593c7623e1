/** The HTTP response validator (`check_response`). */
module Http {
  import opened Common

  /** A completed exchange: status code, raw body text and the parsed JSON body. */
  datatype Response<T> = Response(statusCode: int, text: string, json: T)

  const STATUS_OK := 200

  /** The parsed payload when the status code is 200; otherwise an
      HTTP error carrying the status code and the raw body text. */
  function CheckResponse<T>(response: Response<T>): (r: Result<T>)
    ensures r.Success? <==> response.statusCode == STATUS_OK
    ensures r.Success? ==> r.value == response.json
    ensures r.Failure? ==> r.error == HttpError(response.statusCode, response.text)
  {
    if response.statusCode == STATUS_OK then Success(response.json)
    else Failure(HttpError(response.statusCode, response.text))
  }
}
