/** One page column as both queries see it, and how the forward container
    and the backward lookup agree on it. */
module Column {
  import opened Rows
  import opened Shortcuts
  import opened ContainerFlag
  import opened ForwardScan
  import opened BackwardScan

  /** The enabled rows of one page and column, in strictly ascending order
      of the sorting column (no two rows share a sorting value, so the strict
      comparisons of both queries drop no row), with distinct uids and no
      shortcut among them. */
  predicate Plain(col: seq<Row>) {
    NoShortcuts(col) && DistinctUids(col)
  }

  predicate NoShortcuts(col: seq<Row>) {
    forall k :: 0 <= k < |col| ==> !IsShortcut(col[k])
  }

  predicate DistinctUids(col: seq<Row>) {
    forall a, b :: 0 <= a < b < |col| ==> col[a].uid != col[b].uid
  }

  /** The rows the backward query returns for `col[i]`: those sorted before
      it, nearest first. */
  function Before(col: seq<Row>, i: nat): seq<Row>
    requires i <= |col|
  {
    seq(i, k requires 0 <= k < i => col[i - 1 - k])
  }

  /** `col[j]` starts a container of DCE `dceUid`: it is the first row of
      the column, it carries the new-container flag, or the row before it
      has another CType. */
  predicate StartsContainer(col: seq<Row>, dceUid: int, j: nat)
    requires j < |col|
  {
    j == 0 || col[j].newContainer || !HasDceType(dceUid, col[j - 1])
  }

  /** Without shortcuts the walk from `col[i]` is the flag cut of the rows
      before it, nearest first. */
  lemma WalkedBefore(col: seq<Row>, i: nat)
    requires NoShortcuts(col) && i <= |col|
    ensures Walked(Before(col, i)) == CutAtFlag(Before(col, i))
    ensures |CutAtFlag(Before(col, i))| <= i
    ensures forall k :: 0 <= k < |CutAtFlag(Before(col, i))| ==> CutAtFlag(Before(col, i))[k] == col[i - 1 - k]
  {
    var cut := CutAtFlag(Before(col, i));
    assert forall k :: 0 <= k < |cut| ==> cut[k] == col[i - 1 - k];
    ExpandedWithoutShortcuts(cut);
  }

  /** The walk from `col[i]` takes exactly the rows `col[i-1]` down to
      `col[s]` when they all have the DCE's CType, none above `col[s]` is
      flagged, and `col[s]` starts a container. */
  lemma WalkStopsAt(col: seq<Row>, dceUid: int, i: nat, s: nat)
    requires NoShortcuts(col) && s < i < |col|
    requires forall t :: s <= t < i ==> HasDceType(dceUid, col[t])
    requires forall t :: s < t < i ==> !col[t].newContainer
    requires StartsContainer(col, dceUid, s)
    ensures |TakeWhile(Walked(Before(col, i)), DceType(dceUid))| == i - s
    ensures Walked(Before(col, i))[i - s - 1] == col[s]
  {
    var q := i - s;
    var cut := CutAtFlag(Before(col, i));
    WalkedBefore(col, i);
    assert |cut| >= q;
    forall k | 0 <= k < q
      ensures DceType(dceUid)(cut[k])
    {
      assert cut[k] == col[i - 1 - k];
    }
    if |cut| > q {
      assert !cut[q - 1].newContainer;
      assert cut[q - 1] == col[s];
      assert cut[q] == col[s - 1];
    }
    TakeWhileStops(cut, DceType(dceUid), q);
  }

  /** A row that starts a container is its own first row. */
  lemma StartFindsItself(col: seq<Row>, dceUid: int, limit: nat, j: nat)
    requires NoShortcuts(col) && j < |col|
    requires StartsContainer(col, dceUid, j)
    ensures FirstContentObject(col[j], dceUid, limit, Before(col, j)) == col[j]
  {
    if !col[j].newContainer {
      var e := Before(col, j);
      var cut := CutAtFlag(e);
      if j == 0 {
        assert e == [];
      } else {
        assert cut != [] && cut[0] == col[j - 1];
        ExpandedWithoutShortcuts(cut);
        TakeWhileStops(cut, DceType(dceUid), 0);
      }
    }
  }

  /** Without shortcuts the forward container of `col[j]` is a run of the
      column starting at `col[j]`, no longer than the item limit. */
  lemma ContainerIsRun(col: seq<Row>, dceUid: int, limit: nat, j: nat)
    requires Plain(col) && j < |col|
    ensures var rows := ContainerRows(col[j], dceUid, limit, col[j + 1..]);
            |rows| <= |col| - j && (limit > 0 ==> |rows| <= limit) &&
            forall k :: 0 <= k < |rows| ==> rows[k] == col[j + k] && InContainer(col[j], dceUid, col[j + k])
  {
    var raw := [col[j]] + Fetched(limit, col[j + 1..]);
    assert forall k :: 0 <= k < |raw| ==> raw[k] == col[j + k];
    ExpandedWithoutShortcuts(raw);
  }

  /** The rows from a container start `col[j]` down to a row `col[i]` of
      its container: all of the DCE's CType, none after `col[j]` flagged,
      and no more of them than the item limit allows. */
  lemma RunUpTo(col: seq<Row>, dceUid: int, limit: nat, j: nat, i: nat)
    requires Plain(col) && j <= i < |col|
    requires i - j < |ContainerRows(col[j], dceUid, limit, col[j + 1..])|
    ensures forall t :: j <= t <= i ==> HasDceType(dceUid, col[t])
    ensures forall t :: j < t <= i ==> !col[t].newContainer
    ensures limit > 0 ==> i - j < limit
  {
    ContainerIsRun(col, dceUid, limit, j);
    var rows := ContainerRows(col[j], dceUid, limit, col[j + 1..]);
    forall t | j <= t <= i
      ensures InContainer(col[j], dceUid, col[t])
    {
      assert t - j < |rows| && rows[t - j] == col[t];
    }
  }

  /** Every row of the container that the forward scan builds from a
      container start `col[j]` is led back to `col[j]` by the backward
      lookup, item limit included. */
  lemma {:induction false} MemberFindsItsStart(col: seq<Row>, dceUid: int, limit: nat, j: nat, i: nat)
    requires Plain(col) && j <= i < |col|
    requires StartsContainer(col, dceUid, j)
    requires i - j < |ContainerRows(col[j], dceUid, limit, col[j + 1..])|
    ensures FirstContentObject(col[i], dceUid, limit, Before(col, i)) == col[j]
  {
    if i == j {
      StartFindsItself(col, dceUid, limit, j);
    } else {
      RunUpTo(col, dceUid, limit, j, i);
      WalkStopsAt(col, dceUid, i, j);
      assert Capped(i - j, limit) == i - j;
    }
  }

  /** The run of the DCE's CType that the walk from `col[i]` takes. */
  function RunAbove(col: seq<Row>, dceUid: int, i: nat): nat
    requires i <= |col|
  {
    |TakeWhile(Walked(Before(col, i)), DceType(dceUid))|
  }

  /** Without an item limit the lookup from a row that is not flagged
      returns the row at the top of the run above it. */
  lemma LookupReturnsTopOfRun(col: seq<Row>, dceUid: int, i: nat)
    requires NoShortcuts(col) && i < |col| && !col[i].newContainer
    ensures RunAbove(col, dceUid, i) <= i
    ensures FirstContentObject(col[i], dceUid, 0, Before(col, i)) == col[i - RunAbove(col, dceUid, i)]
  {
    var walked := Walked(Before(col, i));
    var n := RunAbove(col, dceUid, i);
    assert n <= |walked| <= i by {
      WalkedBefore(col, i);
    }
    if n > 0 {
      assert walked[n - 1] == col[i - n] by {
        WalkedBefore(col, i);
      }
    }
  }

  /** The walk stops only at a container start: the top of the run above
      any row starts a container. */
  lemma TopOfRunStartsContainer(col: seq<Row>, dceUid: int, i: nat)
    requires NoShortcuts(col) && i < |col|
    ensures RunAbove(col, dceUid, i) <= i
    ensures StartsContainer(col, dceUid, i - RunAbove(col, dceUid, i))
  {
    var e := Before(col, i);
    var cut := CutAtFlag(e);
    WalkedBefore(col, i);
    var p := DceType(dceUid);
    var n := |TakeWhile(cut, p)|;
    assert n == RunAbove(col, dceUid, i);
    if n < |cut| {
      assert !p(cut[n]);
      assert cut[n] == col[i - n - 1];
      assert !HasDceType(dceUid, col[i - (n + 1)]);
      assert StartsContainer(col, dceUid, i - n);
    } else if cut != e {
      assert cut != [] && cut[|cut| - 1].newContainer;
      assert cut[|cut| - 1] == col[i - n];
      assert StartsContainer(col, dceUid, i - n);
    } else {
      assert |e| == i;
      assert StartsContainer(col, dceUid, i - n);
    }
  }

  /** Without an item limit the lookup always lands on a container start,
      so looking up the row it returns gives that row back. */
  lemma LookupIdempotentWithoutLimit(col: seq<Row>, dceUid: int, i: nat)
    requires NoShortcuts(col) && i < |col|
    ensures exists j :: 0 <= j <= i &&
              FirstContentObject(col[i], dceUid, 0, Before(col, i)) == col[j] &&
              FirstContentObject(col[j], dceUid, 0, Before(col, j)) == col[j]
  {
    if col[i].newContainer {
      assert FirstContentObject(col[i], dceUid, 0, Before(col, i)) == col[i];
    } else {
      LookupReturnsTopOfRun(col, dceUid, i);
      TopOfRunStartsContainer(col, dceUid, i);
      StartFindsItself(col, dceUid, 0, i - RunAbove(col, dceUid, i));
    }
  }

  /** With an item limit the lookup is not idempotent: three rows of the
      DCE, none flagged, limit 2.  The third row is led to the second, and
      the second to the first. */
  lemma LookupNotIdempotentWithLimit()
    ensures var a := Row(1, Dce(7), false, []);
            var b := Row(2, Dce(7), false, []);
            var c := Row(3, Dce(7), false, []);
            FirstContentObject(c, 7, 2, [b, a]) == b &&
            FirstContentObject(b, 7, 2, [a]) == a
  {
    var a := Row(1, Dce(7), false, []);
    var b := Row(2, Dce(7), false, []);
    var c := Row(3, Dce(7), false, []);
    assert CutAtFlag([a]) == [a];
    assert CutAtFlag([b, a]) == [b, a];
    ExpandedWithoutShortcuts([a]);
    ExpandedWithoutShortcuts([b, a]);
    TakeWhileStops([a], DceType(7), 1);
    TakeWhileStops([b, a], DceType(7), 2);
  }

  /** With a shortcut and an item limit the two scans disagree: A (flagged),
      a shortcut S to X and Y, and C, all of DCE 7, limit 3.  The container
      of A holds A, X, Y and C, but the lookup from C stops at Y. */
  lemma ShortcutSplitsLookupFromContainer()
    ensures var a := Row(1, Dce(7), true, []);
            var x := Row(5, Dce(7), false, []);
            var y := Row(6, Dce(7), false, []);
            var sc := Row(2, Shortcut, false, [x, y]);
            var c := Row(3, Dce(7), false, []);
            ContainerRows(a, 7, 3, [sc, c]) == [a, x, y, c] &&
            FirstContentObject(c, 7, 3, [sc, a]) == y
  {
    var a := Row(1, Dce(7), true, []);
    var x := Row(5, Dce(7), false, []);
    var y := Row(6, Dce(7), false, []);
    var sc := Row(2, Shortcut, false, [x, y]);
    var c := Row(3, Dce(7), false, []);
    assert Expanded([sc]) == [x, y] + Expanded([]);
    assert ContainerRows(a, 7, 3, [sc, c]) == [a, x, y, c] by {
      CandidatesUnfold(a, 3, [sc, c]);
      assert Fetched(3, [sc, c]) == [sc] + [c];
      ExpandedAppend([sc], [c]);
      assert Expanded([c]) == [c] + Expanded([]);
      assert Candidates(a, 3, [sc, c]) == [a, x, y, c];
      TakeWhileStops([a, x, y, c], Member(a, 7), 4);
    }
    assert Walked([sc, a]) == [x, y, a] by {
      assert CutAtFlag([sc, a]) == [sc] + [a];
      ExpandedAppend([sc], [a]);
      assert Expanded([a]) == [a] + Expanded([]);
    }
    TakeWhileStops([x, y, a], DceType(7), 3);
  }
}
