/** The first row of the container a row belongs to, found by walking back
    from it (`getFirstContentObjectInContainer`). */
module BackwardScan {
  import opened Rows
  import opened Shortcuts
  import opened ContainerFlag

  function DceType(dceUid: int): Row -> bool {
    r => HasDceType(dceUid, r)
  }

  /** The list the backward loop walks: the earlier rows (nearest first)
      cut after the first flagged row, then shortcuts resolved. */
  function Walked(earlier: seq<Row>): seq<Row> {
    Expanded(CutAtFlag(earlier))
  }

  /** How many leading rows of a run of length `n` the walk may take: with
      an item limit set, the loop returns on reaching index `limit - 1`. */
  function Capped(n: nat, limit: nat): nat {
    if limit > 0 && limit - 1 < n then limit - 1 else n
  }

  /** The row the lookup returns for `content`, given the rows that precede
      it in its page and column, nearest first: `content` itself when it
      opens a new container, otherwise the last row of the longest run of
      the DCE's CType at the head of the walked list (capped by the limit),
      and `content` when that run is empty. */
  function FirstContentObject(content: Row, dceUid: int, limit: nat, earlier: seq<Row>): Row {
    if content.newContainer then content
    else
      var walked := Walked(earlier);
      var m := Capped(|TakeWhile(walked, DceType(dceUid))|, limit);
      if m == 0 then content else walked[m - 1]
  }

  /** Where the walk stops: a position no further than the run and the
      limit, at which the list ends, the limit is reached or the next row
      has another CType, is the capped length of the run. */
  lemma WalkStop(walked: seq<Row>, dceUid: int, limit: nat, i: nat)
    requires i <= |TakeWhile(walked, DceType(dceUid))|
    requires limit > 0 ==> i <= limit - 1
    requires i == |walked| || (limit > 0 && i == limit - 1) || !HasDceType(dceUid, walked[i])
    ensures Capped(|TakeWhile(walked, DceType(dceUid))|, limit) == i
  {
    var run := TakeWhile(walked, DceType(dceUid));
    if i < |run| {
      assert walked[i] == run[i];
      assert DceType(dceUid)(run[i]);
    }
  }

  /** `getFirstContentObjectInContainer` after its query: the flag cut, the
      resolution and the loop that remembers the last row of the DCE's
      CType. */
  method GetFirstContentObjectInContainer(content: Row, dceUid: int, limit: nat, earlier: seq<Row>)
    returns (first: Row)
    ensures first == FirstContentObject(content, dceUid, limit, earlier)
    ensures content.newContainer ==> first == content
    ensures first == content || (first in Walked(earlier) && HasDceType(dceUid, first))
  {
    if content.newContainer {
      return content;
    }
    var cut := CheckForContainerFlag(earlier);
    var resolved := ResolveShortcutElements(cut);
    ghost var run := TakeWhile(resolved, DceType(dceUid));
    first := content;
    var i := 0;
    while i < |resolved|
      invariant 0 <= i <= |resolved|
      invariant i <= |run|
      invariant limit > 0 ==> i <= limit - 1
      invariant first == if i == 0 then content else resolved[i - 1]
      invariant i > 0 ==> HasDceType(dceUid, first)
    {
      if limit > 0 && limit - 1 == i {
        break;
      }
      if resolved[i].ctype != Dce(dceUid) {
        break;
      }
      assert i < |run| && resolved[i] == run[i] by {
        assert DceType(dceUid)(resolved[i]);
      }
      first := resolved[i];
      i := i + 1;
    }
    WalkStop(resolved, dceUid, limit, i);
  }
}
