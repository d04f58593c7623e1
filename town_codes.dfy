/** Decoding of the town codes: locating the `bldg_contract_town` column in
    the dataset metadata and parsing its description text into
    (code, area) pairs. */
module TownCodes {
  import opened Common
  import opened Text
  import Http

  const TOWN_COLUMN := "bldg_contract_town"
  const SEPARATOR := " - "

  /** The column metadata of the dataset: the ordered `map` from column key to
      column label, and `metaMapping` from column key to that column's fields. */
  datatype Metadata = Metadata(columnMap: seq<(string, string)>, metaMapping: map<string, map<string, string>>)

  datatype TownPair = TownPair(code: string, area: string)

  /** The first key, in mapping order, whose label is `bldg_contract_town`. */
  function FindTownKey(columnMap: seq<(string, string)>): (key: Option<string>)
    ensures key.None? <==> forall i :: 0 <= i < |columnMap| ==> columnMap[i].1 != TOWN_COLUMN
    ensures key.Some? ==>
      exists i :: 0 <= i < |columnMap| && columnMap[i] == (key.value, TOWN_COLUMN) &&
        (forall j :: 0 <= j < i ==> columnMap[j].1 != TOWN_COLUMN)
  {
    if |columnMap| == 0 then None
    else if columnMap[0].1 == TOWN_COLUMN then Some(columnMap[0].0)
    else
      var key := FindTownKey(columnMap[1..]);
      assert forall i :: 1 <= i < |columnMap| ==> columnMap[i] == columnMap[1..][i - 1];
      key
  }

  /** The description of the town column, read from a validated metadata
      response. A missing town key (Python's `None`) or a key without a
      `description` entry is a failed dictionary subscript. */
  function TownDescription(response: Http.Response<Metadata>): (r: Result<string>)
    ensures response.statusCode != Http.STATUS_OK ==>
      r == Failure(HttpError(response.statusCode, response.text))
    ensures response.statusCode == Http.STATUS_OK && FindTownKey(response.json.columnMap).None? ==>
      r == Failure(KeyError)
    ensures r.Success? <==>
      && response.statusCode == Http.STATUS_OK
      && FindTownKey(response.json.columnMap).Some?
      && FindTownKey(response.json.columnMap).value in response.json.metaMapping
      && "description" in response.json.metaMapping[FindTownKey(response.json.columnMap).value]
    ensures r.Failure? && response.statusCode == Http.STATUS_OK ==> r.error == KeyError
    ensures r.Success? ==>
      exists key :: FindTownKey(response.json.columnMap) == Some(key) &&
        key in response.json.metaMapping && "description" in response.json.metaMapping[key] &&
        r.value == response.json.metaMapping[key]["description"]
  {
    match Http.CheckResponse(response)
    case Failure(e) => Failure(e)
    case Success(metadata) =>
      match FindTownKey(metadata.columnMap)
      case None => Failure(KeyError)
      case Some(key) =>
        if key !in metadata.metaMapping || "description" !in metadata.metaMapping[key] then Failure(KeyError)
        else Success(metadata.metaMapping[key]["description"])
  }

  /** `pair` is what segments `i` and `i + 1` give: the code is the last word
      of segment `i`, the area is segment `i + 1` without its last word. */
  predicate PairFor(towns: seq<string>, i: nat, pair: TownPair)
    requires i + 1 < |towns|
  {
    && towns[i] == RSplitSpace(towns[i])[0] + " " + pair.code
    && ' ' !in pair.code
    && pair.area == RSplitSpace(towns[i + 1])[0]
  }

  /** Every segment but the last has a space before its code. */
  predicate EveryCodeSegmentHasSpace(towns: seq<string>) {
    forall i :: 0 <= i < |towns| - 1 ==> ' ' in towns[i]
  }

  /** Each pair is the one its segments give. */
  predicate PairsOf(towns: seq<string>, pairs: seq<TownPair>) {
    forall i :: 0 <= i < |pairs| ==> i + 1 < |towns| && PairFor(towns, i, pairs[i])
  }

  /** The loop over `towns[:-1]`: pairs, for each segment but the last, the
      word after its last space (the code) with the next segment cut before
      its last space (the area). A non-final segment without a space has no
      code, and the subscript `[1]` fails. */
  method PairSegments(towns: seq<string>) returns (r: Result<seq<TownPair>>)
    ensures r.Success? <==> EveryCodeSegmentHasSpace(towns)
    ensures r.Failure? ==> r.error == IndexError
    ensures r.Success? ==> |r.value| == if |towns| == 0 then 0 else |towns| - 1
    ensures r.Success? ==> PairsOf(towns, r.value)
  {
    var pairs: seq<TownPair> := [];
    var idx := 0;
    while idx + 1 < |towns|
      invariant |pairs| == idx
      invariant idx == 0 || idx < |towns|
      invariant forall i :: 0 <= i < idx ==> ' ' in towns[i]
      invariant PairsOf(towns, pairs)
    {
      var codeParts := RSplitSpace(towns[idx]);
      if |codeParts| < 2 {
        assert ' ' !in towns[idx];
        return Failure(IndexError);
      }
      var pair := TownPair(codeParts[1], RSplitSpace(towns[idx + 1])[0]);
      assert PairFor(towns, idx, pair);
      pairs := pairs + [pair];
      idx := idx + 1;
    }
    return Success(pairs);
  }

  /** Splits the description on " - " and pairs consecutive segments. A
      description without " - " gives no pairs. */
  method ParseTownPairs(description: string) returns (r: Result<seq<TownPair>>)
    ensures var towns := Split(description, SEPARATOR);
      r.Success? <==> EveryCodeSegmentHasSpace(towns)
    ensures r.Failure? ==> r.error == IndexError
    ensures var towns := Split(description, SEPARATOR);
      r.Success? ==> |r.value| == |towns| - 1 && PairsOf(towns, r.value)
    ensures !Occurs(SEPARATOR, description) ==> r == Success([])
  {
    var towns := Split(description, SEPARATOR);
    r := PairSegments(towns);
  }
}
