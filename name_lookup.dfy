/** Point-in-polygon name resolution (`find_name_for_point`). Polygon
    containment is floating-point geometry done by a foreign library, so it
    is a parameter here: any containment test over any geometry type. */
module NameLookup {
  import opened Common

  /** A planar point, built as `Point(lon, lat)`. */
  datatype Point = Point(lon: real, lat: real)

  /** The name of the first entry, in mapping order, whose geometry contains `pt`. */
  function FirstContaining<G>(nameToGeom: seq<(string, G)>, pt: Point, contains: (G, Point) -> bool): (r: Option<string>)
    ensures r.None? <==> forall i :: 0 <= i < |nameToGeom| ==> !contains(nameToGeom[i].1, pt)
    ensures r.Some? ==>
      exists i :: 0 <= i < |nameToGeom| && nameToGeom[i].0 == r.value && contains(nameToGeom[i].1, pt) &&
        (forall j :: 0 <= j < i ==> !contains(nameToGeom[j].1, pt))
  {
    if |nameToGeom| == 0 then None
    else if contains(nameToGeom[0].1, pt) then Some(nameToGeom[0].0)
    else
      var r := FirstContaining(nameToGeom[1..], pt, contains);
      assert forall i :: 1 <= i < |nameToGeom| ==> nameToGeom[i] == nameToGeom[1..][i - 1];
      r
  }

  /** Scans the entries in order and returns the first name whose geometry
      contains the point `(lon, lat)`, or `None` when no geometry does. */
  method FindNameForPoint<G>(lon: real, lat: real, nameToGeom: seq<(string, G)>, contains: (G, Point) -> bool)
    returns (name: Option<string>)
    ensures name == FirstContaining(nameToGeom, Point(lon, lat), contains)
  {
    var pt := Point(lon, lat);
    for i := 0 to |nameToGeom|
      invariant FirstContaining(nameToGeom[i..], pt, contains) == FirstContaining(nameToGeom, pt, contains)
    {
      if contains(nameToGeom[i].1, pt) {
        return Some(nameToGeom[i].0);
      }
      assert nameToGeom[i..][1..] == nameToGeom[i + 1..];
    }
    return None;
  }

  /** The converse direction: an entry whose geometry contains the point, with
      no earlier entry containing it, is the one whose name is returned. */
  lemma FirstContainingAt<G>(nameToGeom: seq<(string, G)>, pt: Point, contains: (G, Point) -> bool, k: nat)
    requires k < |nameToGeom| && contains(nameToGeom[k].1, pt)
    requires forall j :: 0 <= j < k ==> !contains(nameToGeom[j].1, pt)
    ensures FirstContaining(nameToGeom, pt, contains) == Some(nameToGeom[k].0)
  {
  }

  /** When exactly one geometry contains the point, its name is the answer,
      whatever the order of the mapping. */
  lemma ExclusiveContainment<G>(nameToGeom: seq<(string, G)>, pt: Point, contains: (G, Point) -> bool, k: nat)
    requires k < |nameToGeom| && contains(nameToGeom[k].1, pt)
    requires forall j :: 0 <= j < |nameToGeom| && j != k ==> !contains(nameToGeom[j].1, pt)
    ensures FirstContaining(nameToGeom, pt, contains) == Some(nameToGeom[k].0)
  {
    FirstContainingAt(nameToGeom, pt, contains, k);
  }

  /** With a single polygon the answer is its name exactly when it contains the point. */
  lemma SinglePolygon<G>(name: string, geom: G, pt: Point, contains: (G, Point) -> bool)
    ensures FirstContaining([(name, geom)], pt, contains) == (if contains(geom, pt) then Some(name) else None)
  {
  }
}
