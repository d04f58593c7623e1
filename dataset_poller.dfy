/** The initiate / poll / ready download protocol of the property dataset
    (`download_hdb_property_info` up to the download URL, and `poll_download`).
    Every HTTP request is recorded as a value; the poll answers the upstream
    gives, in order, are an input. */
module DatasetPoller {
  import opened Common

  const DOWNLOAD_SUCCESS := "DOWNLOAD_SUCCESS"

  /** The column projection both requests ask for. */
  const PROPERTY_INFO_COLUMNS: seq<string> := [
    "blk_no", "street", "max_floor_lvl", "year_completed", "bldg_contract_town",
    "residential", "2room_sold", "3room_sold", "4room_sold", "5room_sold"
  ]

  datatype Filter = Filter(columnName: string, kind: string, value: int)

  datatype Endpoint = InitiateDownload | PollDownload

  datatype DownloadRequest = DownloadRequest(endpoint: Endpoint, columnNames: seq<string>, filters: seq<Filter>)

  /** The `data` part of a poll answer. */
  datatype PollResponse = PollResponse(status: string, url: string)

  /** Both endpoints select the buildings completed five years before `year`. */
  function YearFilter(year: int): Filter {
    Filter("year_completed", "EQ", year - 5)
  }

  function RequestTo(endpoint: Endpoint, year: int): DownloadRequest {
    DownloadRequest(endpoint, PROPERTY_INFO_COLUMNS, [YearFilter(year)])
  }

  /** Issues the initiate request, then polls until a poll answer has status
      DOWNLOAD_SUCCESS and yields that answer's URL. `responses[k]` is the
      answer to poll number `k`; `sent` lists the requests issued, in order.
      `download_hdb_property_info` polls forever when the upstream never succeeds; here that is
      the `None` outcome, reached once every scripted answer is used up. */
  method AwaitDownloadUrl(year: int, responses: seq<PollResponse>)
    returns (url: Option<string>, sent: seq<DownloadRequest>)
    ensures |sent| >= 1 && sent[0] == RequestTo(InitiateDownload, year)
    ensures forall k :: 1 <= k < |sent| ==> sent[k] == RequestTo(PollDownload, year)
    ensures forall k :: 0 <= k < |sent| ==> sent[k].filters == [Filter("year_completed", "EQ", year - 5)]
    ensures url.None? <==> forall i :: 0 <= i < |responses| ==> responses[i].status != DOWNLOAD_SUCCESS
    ensures url.None? ==> |sent| == |responses| + 1
    ensures url.Some? ==>
      var i := |sent| - 2;
      0 <= i < |responses| && responses[i].status == DOWNLOAD_SUCCESS && url.value == responses[i].url &&
      forall j :: 0 <= j < i ==> responses[j].status != DOWNLOAD_SUCCESS
  {
    sent := [RequestTo(InitiateDownload, year)];
    if |responses| == 0 {
      return None, sent;
    }
    var data := responses[0];
    sent := sent + [RequestTo(PollDownload, year)];
    var polls := 1;
    while data.status != DOWNLOAD_SUCCESS
      invariant 1 <= polls <= |responses|
      invariant data == responses[polls - 1]
      invariant |sent| == polls + 1 && sent[0] == RequestTo(InitiateDownload, year)
      invariant forall k :: 1 <= k < |sent| ==> sent[k] == RequestTo(PollDownload, year)
      invariant forall j :: 0 <= j < polls - 1 ==> responses[j].status != DOWNLOAD_SUCCESS
      decreases |responses| - polls
    {
      if polls == |responses| {
        return None, sent;
      }
      data := responses[polls];
      sent := sent + [RequestTo(PollDownload, year)];
      polls := polls + 1;
    }
    url := Some(data.url);
  }
}
