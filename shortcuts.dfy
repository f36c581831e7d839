/** Resolution of CType="shortcut" rows (`resolveShortcutElements`). */
module Shortcuts {
  import opened Rows

  /** What a single row contributes to the resolved list: a shortcut its
      linked rows, any other row itself. */
  function Piece(r: Row): seq<Row> {
    if IsShortcut(r) then r.linked else [r]
  }

  /** Every row replaced by its piece, one level deep. */
  function Expanded(rows: seq<Row>): seq<Row> {
    if rows == [] then [] else Piece(rows[0]) + Expanded(rows[1..])
  }

  function CountNonShortcuts(rows: seq<Row>): nat {
    if rows == [] then 0
    else (if IsShortcut(rows[0]) then 0 else 1) + CountNonShortcuts(rows[1..])
  }

  function TotalLinked(rows: seq<Row>): nat {
    if rows == [] then 0
    else (if IsShortcut(rows[0]) then |rows[0].linked| else 0) + TotalLinked(rows[1..])
  }

  /** Where the piece of `rows[i]` starts in the resolved list. */
  function Offset(rows: seq<Row>, i: nat): nat
    requires i <= |rows|
  {
    |Expanded(rows[..i])|
  }

  /** Resolution distributes over concatenation. */
  lemma {:induction false} ExpandedAppend(a: seq<Row>, b: seq<Row>)
    ensures Expanded(a + b) == Expanded(a) + Expanded(b)
  {
    if a == [] {
      assert a + b == b;
    } else {
      assert (a + b)[0] == a[0];
      assert (a + b)[1..] == a[1..] + b;
      ExpandedAppend(a[1..], b);
    }
  }

  /** The resolved list has one entry per non-shortcut row plus all the
      linked rows of every shortcut. */
  lemma {:induction false} ExpandedLength(rows: seq<Row>)
    ensures |Expanded(rows)| == CountNonShortcuts(rows) + TotalLinked(rows)
  {
    if rows != [] {
      ExpandedLength(rows[1..]);
    }
  }

  /** Each row is replaced IN PLACE: the piece of `rows[i]` sits in the
      resolved list at `Offset(rows, i)`, a shortcut's linked rows exactly
      as fetched (not resolved again) and any other row unchanged. */
  lemma ExpandedInPlace(rows: seq<Row>, i: nat)
    requires i < |rows|
    ensures Offset(rows, i) + |Piece(rows[i])| == Offset(rows, i + 1) <= |Expanded(rows)|
    ensures Expanded(rows)[Offset(rows, i)..Offset(rows, i + 1)] == Piece(rows[i])
  {
    assert rows == rows[..i] + [rows[i]] + rows[i + 1..];
    assert rows[..i + 1] == rows[..i] + [rows[i]];
    ExpandedAppend(rows[..i], [rows[i]]);
    ExpandedAppend(rows[..i + 1], rows[i + 1..]);
    assert Expanded([rows[i]]) == Piece(rows[i]) + Expanded([]);
  }

  /** Pieces keep the order of the rows they replace: an earlier row's
      piece ends before a later row's piece starts. */
  lemma {:induction false} OffsetsOrdered(rows: seq<Row>, i: nat, j: nat)
    requires i <= j <= |rows|
    ensures Offset(rows, i) <= Offset(rows, j)
    decreases j - i
  {
    if i < j {
      ExpandedInPlace(rows, i);
      OffsetsOrdered(rows, i + 1, j);
    }
  }

  /** A list without shortcuts resolves to itself; in particular every
      non-shortcut row keeps its place relative to the others. */
  lemma {:induction false} ExpandedWithoutShortcuts(rows: seq<Row>)
    requires forall k :: 0 <= k < |rows| ==> !IsShortcut(rows[k])
    ensures Expanded(rows) == rows
  {
    if rows != [] {
      ExpandedWithoutShortcuts(rows[1..]);
    }
  }

  lemma ExpandedSnoc(rows: seq<Row>, i: nat)
    requires i < |rows|
    ensures Expanded(rows[..i + 1]) == Expanded(rows[..i]) + Piece(rows[i])
  {
    assert rows[..i + 1] == rows[..i] + [rows[i]];
    ExpandedAppend(rows[..i], [rows[i]]);
    assert Expanded([rows[i]]) == Piece(rows[i]) + Expanded([]);
  }

  /** `resolveShortcutElements`: the outer loop walks the rows, the inner
      loop appends a shortcut's linked rows one by one. */
  method ResolveShortcutElements(rows: seq<Row>) returns (resolved: seq<Row>)
    ensures resolved == Expanded(rows)
  {
    resolved := [];
    var i := 0;
    while i < |rows|
      invariant 0 <= i <= |rows|
      invariant resolved == Expanded(rows[..i])
    {
      var row := rows[i];
      ghost var before := resolved;
      if IsShortcut(row) {
        var j := 0;
        while j < |row.linked|
          invariant 0 <= j <= |row.linked|
          invariant resolved == before + row.linked[..j]
        {
          resolved := resolved + [row.linked[j]];
          j := j + 1;
        }
      } else {
        resolved := resolved + [row];
      }
      assert resolved == before + Piece(row);
      ExpandedSnoc(rows, i);
      i := i + 1;
    }
    assert rows[..i] == rows;
  }
}
