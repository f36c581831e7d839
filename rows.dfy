/** tt_content rows as the container logic sees them, and the prefix scan
    every part of the container logic is built on. */
module Rows {

  /** The CType column of a tt_content row.  `Dce(d)` is the string
      'dce_dceuid' followed by the uid `d` of a DCE definition, `Shortcut`
      is 'shortcut' (an "insert records" element), and `Other` is every
      other content type. */
  datatype CType = Dce(dceUid: int) | Shortcut | Other(name: string)

  /** A tt_content row.  `newContainer` is the test
      `tx_dce_new_container === '1'`.  `linked` holds the rows that the
      shortcut's `records` field resolves to, in the order the database
      returns them (sorting column ascending); it is read only when the row
      is a shortcut. */
  datatype Row = Row(uid: int, ctype: CType, newContainer: bool, linked: seq<Row>)

  predicate IsShortcut(r: Row) {
    r.ctype == Shortcut
  }

  /** The row carries the CType of DCE definition `dceUid`. */
  predicate HasDceType(dceUid: int, r: Row) {
    r.ctype == Dce(dceUid)
  }

  /** The uids of `rows`, in order. */
  function Uids(rows: seq<Row>): (u: seq<int>)
    ensures |u| == |rows|
    ensures forall k :: 0 <= k < |rows| ==> u[k] == rows[k].uid
  {
    seq(|rows|, k requires 0 <= k < |rows| => rows[k].uid)
  }

  /** The longest prefix of `s` all of whose elements satisfy `p`. */
  function TakeWhile<T>(s: seq<T>, p: T -> bool): (r: seq<T>)
    ensures r <= s
    ensures forall k :: 0 <= k < |r| ==> p(r[k])
    ensures |r| == |s| || !p(s[|r|])
  {
    if s == [] || !p(s[0]) then [] else [s[0]] + TakeWhile(s[1..], p)
  }

  /** The three properties of `TakeWhile` determine it: a prefix of length
      `i` whose elements all satisfy `p` and that is followed by the end of
      `s` or by an element failing `p` is the result. */
  lemma {:induction false} TakeWhileStops<T>(s: seq<T>, p: T -> bool, i: nat)
    requires i <= |s|
    requires forall k :: 0 <= k < i ==> p(s[k])
    requires i == |s| || !p(s[i])
    ensures TakeWhile(s, p) == s[..i]
  {
    if i > 0 {
      assert p(s[0]);
      TakeWhileStops(s[1..], p, i - 1);
      assert s[..i] == [s[0]] + s[1..][..i - 1];
    }
  }
}
