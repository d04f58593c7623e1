/** The row-level logic of the property-information acquisition: the
    residency / units-sold filter and the derived address column. Rows arrive
    with their four sold counts already coerced to integers. */
module PropertyInfo {
  import opened Common
  import Text

  /** One dataset record, with the ten columns the download projects. */
  datatype Row = Row(
    blkNo: string,
    street: string,
    maxFloorLvl: int,
    yearCompleted: int,
    bldgContractTown: string,
    residential: string,
    sold2Room: int,
    sold3Room: int,
    sold4Room: int,
    sold5Room: int)

  /** The boolean mask: a residential block with at least one flat sold. */
  predicate KeepRow(row: Row) {
    row.residential == "Y" &&
    (row.sold2Room > 0 || row.sold3Room > 0 || row.sold4Room > 0 || row.sold5Room > 0)
  }

  /** `a` is `b` with some rows deleted, the rest kept in order. */
  predicate IsSubsequence(a: seq<Row>, b: seq<Row>)
    decreases |b|
  {
    if |b| == 0 then |a| == 0
    else (|a| > 0 && a[0] == b[0] && IsSubsequence(a[1..], b[1..])) || IsSubsequence(a, b[1..])
  }

  /** The rows the mask keeps, in their original order. */
  function FilterRows(rows: seq<Row>): (kept: seq<Row>)
    ensures |kept| <= |rows|
    ensures IsSubsequence(kept, rows)
    ensures forall i :: 0 <= i < |kept| ==> KeepRow(kept[i])
  {
    if |rows| == 0 then []
    else
      var rest := FilterRows(rows[1..]);
      if KeepRow(rows[0]) then
        assert ([rows[0]] + rest)[1..] == rest;
        [rows[0]] + rest
      else rest
  }

  /** Exactly the rows the mask accepts survive, each as often as in the input. */
  lemma {:induction false} FilterContents(rows: seq<Row>)
    ensures forall row :: multiset(FilterRows(rows))[row] == if KeepRow(row) then multiset(rows)[row] else 0
    ensures forall row :: row in FilterRows(rows) <==> row in rows && KeepRow(row)
  {
    if |rows| > 0 {
      FilterContents(rows[1..]);
      assert rows == [rows[0]] + rows[1..];
    }
  }

  /** Filtering twice keeps the same rows as filtering once. */
  lemma {:induction false} FilterIdempotent(rows: seq<Row>)
    ensures FilterRows(FilterRows(rows)) == FilterRows(rows)
  {
    if |rows| > 0 {
      FilterIdempotent(rows[1..]);
      if KeepRow(rows[0]) {
        assert ([rows[0]] + FilterRows(rows[1..]))[1..] == FilterRows(rows[1..]);
      }
    }
  }

  /** The mask is row-wise: filtering a concatenation filters each part. */
  lemma {:induction false} FilterAppend(a: seq<Row>, b: seq<Row>)
    ensures FilterRows(a + b) == FilterRows(a) + FilterRows(b)
  {
    if |a| > 0 {
      assert (a + b)[1..] == a[1..] + b;
      FilterAppend(a[1..], b);
    } else {
      assert a + b == b;
    }
  }

  /** The derived `address` column: block number, a space, the street. */
  function Address(blkNo: string, street: string): string {
    blkNo + " " + street
  }

  /** Cuts an address at its first space: the inverse `Address` is checked against. */
  function SplitAddress(address: string): (parts: (string, string)) {
    match Text.FindFrom(address, " ", 0)
    case None => (address, "")
    case Some(i) => (address[..i], address[i + 1..])
  }

  /** A block number without spaces can be read back from the address,
      and so can the street. */
  lemma AddressRoundTrip(blkNo: string, street: string)
    requires ' ' !in blkNo
    ensures SplitAddress(Address(blkNo, street)) == (blkNo, street)
  {
    var address := Address(blkNo, street);
    var n := |blkNo|;
    assert address[n..n + 1] == " ";
    assert Text.IsAt(address, " ", n);
    forall j: nat | j < n ensures !Text.IsAt(address, " ", j) {
      assert address[j] == blkNo[j];
    }
    assert address[..n] == blkNo && address[n + 1..] == street;
  }
}
