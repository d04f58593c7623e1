/** The presence-based cache gate of `download_data`: each acquisition runs
    only when its output file is absent. File existence is an input. */
module CacheGate {

  datatype Acquisition = DownloadPropertyInfo | DownloadNameInfo

  /** The acquisitions run, in order, given which of the two cache files
      (property info for the year, name-to-coordinates) already exist. */
  function DownloadPlan(propertyInfoExists: bool, nameInfoExists: bool): (plan: seq<Acquisition>)
    ensures DownloadPropertyInfo in plan <==> !propertyInfoExists
    ensures DownloadNameInfo in plan <==> !nameInfoExists
    ensures plan == [] <==> propertyInfoExists && nameInfoExists
    ensures forall i, j :: 0 <= i < j < |plan| ==> plan[i] == DownloadPropertyInfo && plan[j] == DownloadNameInfo
  {
    (if propertyInfoExists then [] else [DownloadPropertyInfo]) +
    (if nameInfoExists then [] else [DownloadNameInfo])
  }

  /** Which cache files exist once `plan` has run: each acquisition writes its file. */
  function ExistsAfter(propertyInfoExists: bool, nameInfoExists: bool, plan: seq<Acquisition>): (bool, bool) {
    (propertyInfoExists || DownloadPropertyInfo in plan, nameInfoExists || DownloadNameInfo in plan)
  }

  /** Running the gate a second time, after a successful first run, acquires nothing. */
  lemma GateIdempotent(propertyInfoExists: bool, nameInfoExists: bool)
    ensures var after := ExistsAfter(propertyInfoExists, nameInfoExists, DownloadPlan(propertyInfoExists, nameInfoExists));
      after == (true, true) && DownloadPlan(after.0, after.1) == []
  {
  }
}
