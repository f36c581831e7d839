/** The list of rendered content elements and the building of a container
    (`makeContainer`, `checkContentElementForBeingRendered`,
    `clearContentElementsToSkip`). */
module Registry {
  import opened Rows
  import opened ForwardScan

  /** A built container: the uid of the row it was made for and the uids of
      the DCE instances added to it, in the order they were added. */
  datatype Container = Container(anchorUid: int, members: seq<int>)

  /** The rows whose render succeeded, in their original order; `renders`
      stands for the controller call of lines 47-58, false where it throws. */
  function Rendered(rows: seq<Row>, renders: Row -> bool): seq<Row> {
    if rows == [] then []
    else (if renders(rows[0]) then [rows[0]] else []) + Rendered(rows[1..], renders)
  }

  /** A row is kept exactly when it is a candidate and its render
      succeeds. */
  lemma {:induction false} RenderedMembers(rows: seq<Row>, renders: Row -> bool, x: Row)
    ensures x in Rendered(rows, renders) <==> x in rows && renders(x)
  {
    if rows != [] {
      RenderedMembers(rows[1..], renders, x);
      assert x in rows <==> x == rows[0] || x in rows[1..];
    }
  }

  lemma RenderedUid(rows: seq<Row>, renders: Row -> bool, x: Row)
    requires x in rows && renders(x)
    ensures x.uid in Uids(Rendered(rows, renders))
  {
    var rendered := Rendered(rows, renders);
    RenderedMembers(rows, renders, x);
    var k :| 0 <= k < |rendered| && rendered[k] == x;
    assert Uids(rendered)[k] == x.uid;
  }

  /** Filtering by render outcome distributes over concatenation, so it
      keeps the candidates' order. */
  lemma {:induction false} RenderedAppend(a: seq<Row>, b: seq<Row>, renders: Row -> bool)
    ensures Rendered(a + b, renders) == Rendered(a, renders) + Rendered(b, renders)
  {
    if a == [] {
      assert a + b == b;
    } else {
      assert (a + b)[0] == a[0];
      assert (a + b)[1..] == a[1..] + b;
      RenderedAppend(a[1..], b, renders);
    }
  }

  lemma RenderedSnoc(rows: seq<Row>, i: nat, renders: Row -> bool)
    requires i < |rows|
    ensures Rendered(rows[..i + 1], renders) ==
            Rendered(rows[..i], renders) + (if renders(rows[i]) then [rows[i]] else [])
  {
    assert rows[..i + 1] == rows[..i] + [rows[i]];
    RenderedAppend(rows[..i], [rows[i]], renders);
    assert Rendered([rows[i]], renders) == (if renders(rows[i]) then [rows[i]] else []) + Rendered([], renders);
  }

  /** A failed render skips only the failing row: the others are kept or
      dropped exactly as if that row were not among the candidates. */
  lemma OneFailureSkipsOnlyThatRow(rows: seq<Row>, i: nat, renders: Row -> bool)
    requires i < |rows|
    requires !renders(rows[i])
    ensures Rendered(rows, renders) == Rendered(rows[..i] + rows[i + 1..], renders)
  {
    var before, after := rows[..i], rows[i + 1..];
    assert rows == before + ([rows[i]] + after);
    RenderedAppend(before, [rows[i]] + after, renders);
    RenderedAppend(before, after, renders);
    assert Rendered([rows[i]] + after, renders) == Rendered(after, renders) by {
      assert ([rows[i]] + after)[0] == rows[i];
      assert ([rows[i]] + after)[1..] == after;
    }
  }

  /** When every render succeeds, every row of the container is added. */
  lemma {:induction false} AllRendered(rows: seq<Row>, renders: Row -> bool)
    requires forall k :: 0 <= k < |rows| ==> renders(rows[k])
    ensures Rendered(rows, renders) == rows
  {
    if rows != [] {
      AllRendered(rows[1..], renders);
    }
  }

  /** The factory's skip list (`$contentElementsToSkip`), a process-wide
      static in the source and an explicit object here. */
  class ContainerFactory {
    /** The uids of the content elements rendered so far, in the order they
        were registered; a uid may occur more than once. */
    var contentElementsToSkip: seq<int>

    constructor ()
      ensures contentElementsToSkip == []
    {
      contentElementsToSkip := [];
    }

    /** `makeContainer`: registers the anchor, then renders each row of the
        container in turn, adding and registering it when its render
        succeeds and skipping it when the render fails. */
    method MakeContainer(anchor: Row, dceUid: int, limit: nat, following: seq<Row>, renders: Row -> bool)
      returns (container: Container)
      modifies this
      ensures container.anchorUid == anchor.uid
      ensures container.members == Uids(Rendered(ContainerRows(anchor, dceUid, limit, following), renders))
      ensures contentElementsToSkip == old(contentElementsToSkip) + [anchor.uid] + container.members
      ensures anchor.uid in contentElementsToSkip
      ensures forall x :: x in ContainerRows(anchor, dceUid, limit, following) && renders(x) ==>
                x.uid in contentElementsToSkip
    {
      contentElementsToSkip := contentElementsToSkip + [anchor.uid];
      ghost var registered := contentElementsToSkip;
      var members := [];
      var elements := GetContentElementsInContainer(anchor, dceUid, limit, following);
      var i := 0;
      while i < |elements|
        invariant 0 <= i <= |elements|
        invariant members == Uids(Rendered(elements[..i], renders))
        invariant contentElementsToSkip == registered + members
      {
        var element := elements[i];
        RenderedSnoc(elements, i, renders);
        if renders(element) {
          members := members + [element.uid];
          contentElementsToSkip := contentElementsToSkip + [element.uid];
        }
        i := i + 1;
      }
      container := Container(anchor.uid, members);
      assert elements[..i] == elements;
      forall x | x in elements && renders(x)
        ensures x.uid in contentElementsToSkip
      {
        RenderedUid(elements, renders, x);
      }
    }

    /** `checkContentElementForBeingRendered`: the row's uid is on the skip
        list. */
    method CheckContentElementForBeingRendered(row: Row) returns (rendered: bool)
      ensures rendered <==> row.uid in contentElementsToSkip
    {
      rendered := row.uid in contentElementsToSkip;
    }

    /** `clearContentElementsToSkip`: empties the skip list. */
    method ClearContentElementsToSkip()
      modifies this
      ensures contentElementsToSkip == []
    {
      contentElementsToSkip := [];
    }
  }

  /** The life of the skip list: no row (`other`) is on it before a
      container is built, the anchor and every member that rendered are on
      it after, and no row is on it once it is cleared. */
  method SkipListLifecycle(anchor: Row, dceUid: int, limit: nat, following: seq<Row>, renders: Row -> bool,
                           member: Row, other: Row)
    returns (before: bool, anchorAfter: bool, memberAfter: bool, cleared: bool)
    requires member in ContainerRows(anchor, dceUid, limit, following) && renders(member)
    ensures !before && anchorAfter && memberAfter && !cleared
  {
    var factory := new ContainerFactory();
    before := factory.CheckContentElementForBeingRendered(other);
    var container := factory.MakeContainer(anchor, dceUid, limit, following, renders);
    anchorAfter := factory.CheckContentElementForBeingRendered(anchor);
    memberAfter := factory.CheckContentElementForBeingRendered(member);
    factory.ClearContentElementsToSkip();
    cleared := factory.CheckContentElementForBeingRendered(other);
  }
}
