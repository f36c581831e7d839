/** Truncation of a row list at the first "new container" flag
    (`checkForContainerFlag`). */
module ContainerFlag {
  import opened Rows

  /** The rows up to and including the first one flagged as starting a new
      container; the whole list when no row is flagged. */
  function CutAtFlag(rows: seq<Row>): (r: seq<Row>)
    ensures r <= rows
    ensures forall k :: 0 <= k < |r| - 1 ==> !r[k].newContainer
    ensures r == rows || (r != [] && r[|r| - 1].newContainer)
  {
    if rows == [] then []
    else if rows[0].newContainer then [rows[0]]
    else [rows[0]] + CutAtFlag(rows[1..])
  }

  /** The loop of `checkForContainerFlag`: append, then stop after a flagged
      row. */
  method CheckForContainerFlag(rows: seq<Row>) returns (filtered: seq<Row>)
    ensures filtered == CutAtFlag(rows)
    ensures filtered <= rows
    ensures forall k :: 0 <= k < |filtered| - 1 ==> !filtered[k].newContainer
    ensures (filtered == rows && forall k :: 0 <= k < |rows| ==> !rows[k].newContainer)
            || (filtered != [] && filtered[|filtered| - 1].newContainer)
  {
    filtered := [];
    var i := 0;
    while i < |rows|
      invariant 0 <= i <= |rows|
      invariant filtered == rows[..i]
      invariant forall k :: 0 <= k < i ==> !rows[k].newContainer
    {
      filtered := filtered + [rows[i]];
      assert filtered == rows[..i + 1];
      if rows[i].newContainer {
        return;
      }
      i := i + 1;
    }
    assert rows[..i] == rows;
  }
}
