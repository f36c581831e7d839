/** The rows a container holds, scanned forward from its first row
    (`getContentElementsInContainer`). */
module ForwardScan {
  import opened Rows
  import opened Shortcuts

  /** The query of lines 84-91 returns the rows following the anchor in its
      page and column, sorted ascending; with an item limit set it asks for
      at most `limit - 1` of them (SQL LIMIT), counted BEFORE shortcuts are
      resolved.  `following` is that query without the LIMIT. */
  function Fetched(limit: nat, following: seq<Row>): (r: seq<Row>)
    ensures r <= following
    ensures limit > 0 ==> |r| <= limit - 1
    ensures |r| == |following| || (limit > 0 && |r| == limit - 1)
  {
    if limit > 0 && limit - 1 < |following| then following[..limit - 1] else following
  }

  /** The test of lines 98-100, negated: the row has the CType of the DCE
      and, unless it has the anchor's uid, does not open a new container. */
  predicate InContainer(anchor: Row, dceUid: int, r: Row) {
    HasDceType(dceUid, r) && !(anchor.uid != r.uid && r.newContainer)
  }

  function Member(anchor: Row, dceUid: int): Row -> bool {
    r => InContainer(anchor, dceUid, r)
  }

  /** The anchor put in front of the fetched rows (`array_unshift`), then
      shortcuts resolved. */
  function Candidates(anchor: Row, limit: nat, following: seq<Row>): seq<Row> {
    Expanded([anchor] + Fetched(limit, following))
  }

  lemma CandidatesUnfold(anchor: Row, limit: nat, following: seq<Row>)
    ensures Candidates(anchor, limit, following) == Piece(anchor) + Expanded(Fetched(limit, following))
  {
    ExpandedAppend([anchor], Fetched(limit, following));
    assert Expanded([anchor]) == Piece(anchor) + Expanded([]);
  }

  /** The rows of the container whose first row is `anchor`. */
  function ContainerRows(anchor: Row, dceUid: int, limit: nat, following: seq<Row>): seq<Row> {
    TakeWhile(Candidates(anchor, limit, following), Member(anchor, dceUid))
  }

  /** `getContentElementsInContainer` from line 92 on: the longest prefix of
      the resolved candidates that stays in the container. */
  method GetContentElementsInContainer(anchor: Row, dceUid: int, limit: nat, following: seq<Row>)
    returns (inContainer: seq<Row>)
    ensures inContainer == ContainerRows(anchor, dceUid, limit, following)
    ensures inContainer <= Candidates(anchor, limit, following)
    ensures forall k :: 0 <= k < |inContainer| ==>
              HasDceType(dceUid, inContainer[k]) &&
              (inContainer[k].uid != anchor.uid ==> !inContainer[k].newContainer)
    ensures |inContainer| == |Candidates(anchor, limit, following)| ||
            !InContainer(anchor, dceUid, Candidates(anchor, limit, following)[|inContainer|])
  {
    var raw := [anchor] + Fetched(limit, following);
    var resolved := ResolveShortcutElements(raw);
    inContainer := [];
    var i := 0;
    while i < |resolved|
      invariant 0 <= i <= |resolved|
      invariant inContainer == resolved[..i]
      invariant forall k :: 0 <= k < i ==> InContainer(anchor, dceUid, resolved[k])
    {
      var row := resolved[i];
      if row.ctype != Dce(dceUid) || (anchor.uid != row.uid && row.newContainer) {
        TakeWhileStops(resolved, Member(anchor, dceUid), i);
        return;
      }
      inContainer := inContainer + [row];
      i := i + 1;
    }
    TakeWhileStops(resolved, Member(anchor, dceUid), i);
  }

  /** An anchor of the DCE's own CType heads its container, whatever its
      flag; with nothing following it, it is the whole container. */
  lemma AnchorHeadsContainer(anchor: Row, dceUid: int, limit: nat, following: seq<Row>)
    requires HasDceType(dceUid, anchor)
    ensures ContainerRows(anchor, dceUid, limit, following) != []
    ensures ContainerRows(anchor, dceUid, limit, following)[0] == anchor
    ensures following == [] ==> ContainerRows(anchor, dceUid, limit, following) == [anchor]
  {
    CandidatesUnfold(anchor, limit, following);
    if following == [] {
      assert Candidates(anchor, limit, following) == [anchor];
      TakeWhileStops(Candidates(anchor, limit, following), Member(anchor, dceUid), 1);
    }
  }

  /** The anchor itself goes through the CType test: an anchor of another
      CType that is not a shortcut yields an empty container. */
  lemma ForeignAnchorYieldsNothing(anchor: Row, dceUid: int, limit: nat, following: seq<Row>)
    requires !HasDceType(dceUid, anchor) && !IsShortcut(anchor)
    ensures ContainerRows(anchor, dceUid, limit, following) == []
  {
    CandidatesUnfold(anchor, limit, following);
    TakeWhileStops(Candidates(anchor, limit, following), Member(anchor, dceUid), 0);
  }

  /** Without shortcuts the item limit bounds the container, anchor
      included. */
  lemma ContainerWithinLimitWithoutShortcuts(anchor: Row, dceUid: int, limit: nat, following: seq<Row>)
    requires limit > 0
    requires !IsShortcut(anchor)
    requires forall k :: 0 <= k < |following| ==> !IsShortcut(following[k])
    ensures |ContainerRows(anchor, dceUid, limit, following)| <= limit
  {
    var raw := [anchor] + Fetched(limit, following);
    assert forall k :: 0 <= k < |raw| ==> !IsShortcut(raw[k]);
    ExpandedWithoutShortcuts(raw);
  }

  /** The limit counts rows before resolution, so a shortcut can take the
      container past it: with limit 2 the query returns one row, a shortcut
      to two rows of the DCE, and the container holds three rows. */
  lemma ShortcutsCanExceedLimit()
    ensures var anchor := Row(1, Dce(7), true, []);
            var target1 := Row(11, Dce(7), false, []);
            var target2 := Row(12, Dce(7), false, []);
            var shortcut := Row(2, Shortcut, false, [target1, target2]);
            ContainerRows(anchor, 7, 2, [shortcut]) == [anchor, target1, target2]
  {
    var anchor := Row(1, Dce(7), true, []);
    var target1 := Row(11, Dce(7), false, []);
    var target2 := Row(12, Dce(7), false, []);
    var shortcut := Row(2, Shortcut, false, [target1, target2]);
    CandidatesUnfold(anchor, 2, [shortcut]);
    assert Expanded([shortcut]) == [target1, target2] + Expanded([]);
    TakeWhileStops(Candidates(anchor, 2, [shortcut]), Member(anchor, 7), 3);
  }

  /** Rows A (flagged), B, C and D (flagged) of DCE 7 in one column: the
      container of A holds A, B and C. */
  lemma ExampleContainer()
    ensures var a := Row(1, Dce(7), true, []);
            var b := Row(2, Dce(7), false, []);
            var c := Row(3, Dce(7), false, []);
            var d := Row(4, Dce(7), true, []);
            ContainerRows(a, 7, 0, [b, c, d]) == [a, b, c]
  {
    var a := Row(1, Dce(7), true, []);
    var b := Row(2, Dce(7), false, []);
    var c := Row(3, Dce(7), false, []);
    var d := Row(4, Dce(7), true, []);
    CandidatesUnfold(a, 0, [b, c, d]);
    ExpandedWithoutShortcuts([b, c, d]);
    TakeWhileStops([a, b, c, d], Member(a, 7), 3);
  }

  /** The same rows with item limit 2: the container of A holds A and B. */
  lemma ExampleContainerWithLimit()
    ensures var a := Row(1, Dce(7), true, []);
            var b := Row(2, Dce(7), false, []);
            var c := Row(3, Dce(7), false, []);
            var d := Row(4, Dce(7), true, []);
            ContainerRows(a, 7, 2, [b, c, d]) == [a, b]
  {
    var a := Row(1, Dce(7), true, []);
    var b := Row(2, Dce(7), false, []);
    var c := Row(3, Dce(7), false, []);
    var d := Row(4, Dce(7), true, []);
    CandidatesUnfold(a, 2, [b, c, d]);
    assert Fetched(2, [b, c, d]) == [b];
    ExpandedWithoutShortcuts([b]);
    TakeWhileStops([a, b], Member(a, 7), 2);
  }

  /** The same rows with C a shortcut to rows X and Y of DCE 7: the
      container of A holds A, B, X and Y. */
  lemma ExampleContainerWithShortcut()
    ensures var a := Row(1, Dce(7), true, []);
            var b := Row(2, Dce(7), false, []);
            var d := Row(4, Dce(7), true, []);
            var x := Row(5, Dce(7), false, []);
            var y := Row(6, Dce(7), false, []);
            var c := Row(3, Shortcut, false, [x, y]);
            ContainerRows(a, 7, 0, [b, c, d]) == [a, b, x, y]
  {
    var a := Row(1, Dce(7), true, []);
    var b := Row(2, Dce(7), false, []);
    var d := Row(4, Dce(7), true, []);
    var x := Row(5, Dce(7), false, []);
    var y := Row(6, Dce(7), false, []);
    var c := Row(3, Shortcut, false, [x, y]);
    CandidatesUnfold(a, 0, [b, c, d]);
    assert [b, c, d] == [b] + ([c] + [d]);
    ExpandedAppend([b], [c] + [d]);
    ExpandedAppend([c], [d]);
    assert Expanded([b]) == [b] + Expanded([]);
    assert Expanded([c]) == [x, y] + Expanded([]);
    assert Expanded([d]) == [d] + Expanded([]);
    assert Candidates(a, 0, [b, c, d]) == [a, b, x, y, d];
    TakeWhileStops([a, b, x, y, d], Member(a, 7), 4);
  }
}
