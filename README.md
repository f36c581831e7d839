# DCE container grouping, modelled in Dafny

This project models the grouping logic of `ContainerFactory` in the TYPO3
extension DCE. A DCE container groups consecutive content elements
(`tt_content` rows) that have the same DCE type and sit in the same page and
column. The model covers the five pieces of that logic:

- **Shortcut resolution** (`resolveShortcutElements`). Each row with CType
  `shortcut` is replaced in place by the rows it links to, one level deep.
- **Forward scan** (`getContentElementsInContainer`). The rows of the
  container that starts at a given row.
- **Container-flag cut** (`checkForContainerFlag`). A list cut just after
  its first row flagged `tx_dce_new_container = '1'`.
- **Backward lookup** (`getFirstContentObjectInContainer`). The first row
  of the container that a given row belongs to.
- **Skip list and container build** (`makeContainer`,
  `checkContentElementForBeingRendered`, `clearContentElementsToSkip`).

Files, one module each:

- `rows.dfy` (`Rows`): the row and CType datatypes, and `TakeWhile`, the
  longest-prefix scan that both scans use.
- `shortcuts.dfy` (`Shortcuts`): shortcut resolution.
- `container_flag.dfy` (`ContainerFlag`): the flag cut.
- `forward_scan.dfy` (`ForwardScan`): the forward scan.
- `backward_scan.dfy` (`BackwardScan`): the backward lookup.
- `column.dfy` (`Column`): one page column seen by both queries, and how the
  two scans agree on it.
- `registry.dfy` (`Registry`): the skip list as a class, and the container
  build.

Each loop of the source is a method with a `while` loop. Each method is
proved equal to a specification function (`Expanded`, `CutAtFlag`,
`ContainerRows`, `FirstContentObject`, `Rendered`), and the lemmas state
what those functions promise.

How the model reads the source:

- A row is `Row(uid, ctype, newContainer, linked)`. `newContainer` is the
  test `tx_dce_new_container === '1'`. `linked` holds the rows that a
  shortcut's `records` field resolves to, in the order the database returns
  them.
- The CType `'dce_dceuid' . $dce->getUid()` is `Dce(dceUid)`. Here
  `dceUid` is the uid of the DCE *definition*, not of the anchor row. Rows
  of two containers of the same DCE therefore carry the same CType. Only
  the flag and the other CTypes separate two such containers. The anchor
  row's own uid plays no part in the CType test.
- The forward query (lines 78-91) is given as `following`: the enabled rows
  after the anchor in its page and column, ascending. The SQL `LIMIT
  limit - 1` of line 90 is modelled explicitly (`Fetched`). It applies to
  the rows before shortcuts are resolved. So a container can exceed the item
  limit (`ShortcutsCanExceedLimit`).
- The backward query (lines 147-159) is given as `earlier`: the enabled
  rows before the row in its page and column, nearest first.
- The scan at line 98 tests the anchor row too. An anchor of another CType
  gives an empty container. An anchor that is a shortcut is resolved like
  any other row. Nothing in the code guarantees that the anchor matches.
- The forward scan's result includes the anchor at position 0 when it has
  the DCE's CType. `makeContainer` then renders the anchor as a member as
  well. Its uid goes on the skip list once at line 35 and, when the anchor's
  own render succeeds, a second time at line 63. The model keeps both
  entries.
- The skip list is a `seq<int>` field of the class
  `ContainerFactory`, not a static. `in_array` is membership in it.
- The render call of lines 47-58 is a function `renders: Row -> bool`.
  It is false where the call throws.
- `Column` states the page column as `col`: its rows in strictly ascending
  order of the sorting column, with no two rows sharing a sorting value,
  and without shortcuts. Both queries compare the sorting column strictly
  (`>` at line 80, `<` at line 150), so `col[j + 1..]` is exactly what the
  forward query returns for `col[j]` and `Before(col, i)` exactly what the
  backward query returns for `col[i]` only when there are no ties. With
  distinct uids as well, `Column` proves that every row of a container
  built at a container start is led back to that start by the backward
  lookup, with or without an item limit (`MemberFindsItsStart`).
- The docblock at lines 132-135 says that a row for which the lookup
  returns the row itself is the first item of its container. Without an
  item limit and in a column without shortcuts the lookup is idempotent:
  the row it returns leads back to itself
  (`LookupIdempotentWithoutLimit`). With limit 2 and three unflagged rows it
  is not (`LookupNotIdempotentWithLimit`). A shortcut combined with a limit
  can also make the lookup from a container row stop at a shortcut target
  (`ShortcutSplitsLookupFromContainer`). With shortcuts and no limit nothing
  is shown either way.

## Model

| member | source | states |
|---|---|---|
| `Rows.TakeWhile` | Classes/Components/DceContainer/ContainerFactory.php:96-106 | the scan's result is a prefix of its input, every row in it passes the test, and it is either the whole input or followed by a row that fails the test |
| `Rows.TakeWhileStops` | Classes/Components/DceContainer/ContainerFactory.php:97-105 | a loop that returns at the first failing index `i` (or at the end) returns exactly the first `i` rows |
| `Shortcuts.ResolveShortcutElements` | Classes/Components/DceContainer/ContainerFactory.php:183-203 | the nested loops produce every row replaced by its piece: a shortcut's linked rows, any other row itself |
| `Shortcuts.ExpandedAppend` | Classes/Components/DceContainer/ContainerFactory.php:186-201 | resolving a concatenation is the concatenation of the resolutions, so rows are handled one at a time and in order |
| `Shortcuts.ExpandedLength` | Classes/Components/DceContainer/ContainerFactory.php:186-201 | the resolved list has one row per non-shortcut row plus the total number of linked rows of all shortcuts |
| `Shortcuts.ExpandedInPlace` | Classes/Components/DceContainer/ContainerFactory.php:187-200 | each row's piece sits in the resolved list at that row's offset: a shortcut's linked rows exactly as fetched and not resolved again, any other row unchanged |
| `Shortcuts.OffsetsOrdered` | Classes/Components/DceContainer/ContainerFactory.php:186-201 | an earlier row's piece starts no later than a later row's, so the original row order is kept |
| `Shortcuts.ExpandedWithoutShortcuts` | Classes/Components/DceContainer/ContainerFactory.php:198-200 | a list without shortcuts resolves to itself |
| `ContainerFlag.CutAtFlag` | Classes/Components/DceContainer/ContainerFactory.php:209-219 | the cut is a prefix of the input, no row before its last one is flagged, and it is either the whole input or ends at a flagged row |
| `ContainerFlag.CheckForContainerFlag` | Classes/Components/DceContainer/ContainerFactory.php:209-219 | the loop returns that cut: the whole input when no row is flagged, else the rows up to and including the first flagged one |
| `ForwardScan.Fetched` | Classes/Components/DceContainer/ContainerFactory.php:84-91 | the query result is a prefix of the following rows; with an item limit it holds at most `limit - 1` rows, counted before shortcuts are resolved, and it is cut short only by that limit |
| `ForwardScan.GetContentElementsInContainer` | Classes/Components/DceContainer/ContainerFactory.php:92-106 | the result is a prefix of the resolved list of anchor plus fetched rows; every row in it has the DCE's CType; no row with a uid other than the anchor's is flagged; and the prefix is maximal |
| `ForwardScan.AnchorHeadsContainer` | Classes/Components/DceContainer/ContainerFactory.php:92-104 | an anchor of the DCE's CType is the first row of its container whatever its own flag, and the only one when nothing follows it |
| `ForwardScan.ForeignAnchorYieldsNothing` | Classes/Components/DceContainer/ContainerFactory.php:97-103 | an anchor of another CType that is not a shortcut gives an empty container |
| `ForwardScan.ContainerWithinLimitWithoutShortcuts` | Classes/Components/DceContainer/ContainerFactory.php:84-94 | without shortcuts a container holds at most `limit` rows, anchor included |
| `ForwardScan.ShortcutsCanExceedLimit` | Classes/Components/DceContainer/ContainerFactory.php:90-94 | with limit 2 and one fetched shortcut to two rows, the container holds three rows |
| `ForwardScan.ExampleContainer` | Classes/Components/DceContainer/ContainerFactory.php:92-106 | rows A (flagged), B, C, D (flagged): the container of A is A, B, C |
| `ForwardScan.ExampleContainerWithLimit` | Classes/Components/DceContainer/ContainerFactory.php:84-106 | the same rows with limit 2: the container of A is A, B |
| `ForwardScan.ExampleContainerWithShortcut` | Classes/Components/DceContainer/ContainerFactory.php:92-106 | the same rows with C a shortcut to X and Y: the container of A is A, B, X, Y |
| `BackwardScan.GetFirstContentObjectInContainer` | Classes/Components/DceContainer/ContainerFactory.php:140-175 | a flagged row is returned as it is; otherwise the result is the last row of the longest run of the DCE's CType at the head of the cut and resolved earlier rows, taken from positions `0..limit-2` only when a limit is set, and the row itself when that run is empty |
| `Column.WalkStopsAt` | Classes/Components/DceContainer/ContainerFactory.php:161-174 | when the rows above a container start all have the DCE's CType and none is flagged, the walk takes exactly those rows and ends at the start |
| `Column.StartFindsItself` | Classes/Components/DceContainer/ContainerFactory.php:140-175 | a row that is flagged, first in its column, or preceded by a row of another CType is its own first row |
| `Column.ContainerIsRun` | Classes/Components/DceContainer/ContainerFactory.php:84-106 | without shortcuts a container is a run of consecutive column rows from its anchor, within the item limit |
| `Column.RunUpTo` | Classes/Components/DceContainer/ContainerFactory.php:92-106 | the rows from a container start down to any row of its container all have the DCE's CType, none after the start is flagged, and there are fewer of them than the item limit |
| `Column.MemberFindsItsStart` | Classes/Components/DceContainer/ContainerFactory.php:74-175 | every row of the container built at a container start is led back to that start by the backward lookup, item limit included |
| `Column.LookupReturnsTopOfRun` | Classes/Components/DceContainer/ContainerFactory.php:160-174 | without an item limit the lookup from an unflagged row returns the row at the top of the run of the DCE's CType directly above it |
| `Column.TopOfRunStartsContainer` | Classes/Components/DceContainer/ContainerFactory.php:160-174 | the top of that run is a container start: first in the column, flagged, or preceded by a row of another CType |
| `Column.LookupIdempotentWithoutLimit` | Classes/Components/DceContainer/ContainerFactory.php:140-175 | without an item limit, looking up the row the lookup returned gives that row back |
| `Column.LookupNotIdempotentWithLimit` | Classes/Components/DceContainer/ContainerFactory.php:164-174 | with limit 2 and three unflagged rows A, B, C, the lookup leads C to B and B to A |
| `Column.ShortcutSplitsLookupFromContainer` | Classes/Components/DceContainer/ContainerFactory.php:84-174 | with limit 3, a flagged A followed by a shortcut to X and Y and then C: the container of A is A, X, Y, C, but the lookup from C returns Y |
| `Registry.RenderedMembers` | Classes/Components/DceContainer/ContainerFactory.php:44-64 | a row is added to the container exactly when it is in the forward result and its render succeeds |
| `Registry.RenderedAppend` | Classes/Components/DceContainer/ContainerFactory.php:44-64 | the added rows keep the order of the forward result |
| `Registry.OneFailureSkipsOnlyThatRow` | Classes/Components/DceContainer/ContainerFactory.php:45-61 | a failed render skips only that row; the rest are handled as if it were absent |
| `Registry.AllRendered` | Classes/Components/DceContainer/ContainerFactory.php:44-64 | when every render succeeds, every row of the forward result is added |
| `Registry.ContainerFactory.constructor` | Classes/Components/DceContainer/ContainerFactory.php:26 | the skip list starts empty |
| `Registry.ContainerFactory.MakeContainer` | Classes/Components/DceContainer/ContainerFactory.php:32-66 | the anchor's uid is registered first; then each row of the forward result whose render succeeds is added and registered, in order, and a failed row is skipped; the anchor and every such row are on the skip list afterwards |
| `Registry.ContainerFactory.CheckContentElementForBeingRendered` | Classes/Components/DceContainer/ContainerFactory.php:115-118 | true exactly when the row's uid is on the skip list |
| `Registry.ContainerFactory.ClearContentElementsToSkip` | Classes/Components/DceContainer/ContainerFactory.php:126-129 | the skip list is empty afterwards |
| `Registry.SkipListLifecycle` | Classes/Components/DceContainer/ContainerFactory.php:26-129 | on a fresh skip list any given row is not skipped; after a build the anchor and a rendered member are; after a clear any given row is not skipped |

## Left out

- SQL construction and execution (lines 77-91 and 147-159,
  `exec_SELECTgetRows`, `DatabaseUtility::getEnabledFields`). The query
  results are inputs: `following` for the forward query and `earlier` for
  the backward one. Their scope, sort order and enabled-field filter are
  assumed. Only the `LIMIT` of line 90 is modelled.
- The `$GLOBALS['TCA']` sort-column lookup (lines 77, 147 and 193). This is
  configuration; the input order stands for it.
- The fetch of a shortcut's targets by its comma-separated `records` field
  (lines 188-194). A row's `linked` field holds the fetched rows in the
  store's order. Missing targets are simply absent from it.
- The Extbase controller bootstrap, `clone`, and the exception handling of
  lines 45-61. The render outcome is a fixed function of the row. A render
  that depends on state changed by earlier renders is not modelled.
- `GeneralUtility::makeInstance` and the `Container` and `Dce` classes,
  which are not part of this model. A container is the anchor's uid plus
  the uids of the added rows, and a `Dce` is its content row, its DCE uid
  and its item limit.
- PHP's loose typing. Uids are compared as integers. The source compares
  them with `!==`, which assumes both sides have the same PHP type (both
  strings as read from the database). `Other(name)` stands for every CType
  other than `shortcut` and `dce_dceuid<n>`.
- Rows that tie on the sorting column. Both queries drop a row whose
  sorting value equals the queried row's, so such a row can be its own
  first row while also sitting in an earlier row's container. The `Column`
  lemmas assume strictly ascending sorting values and say nothing about
  ties.
- Process-wide static state across requests. The skip list is an explicit
  object. There is no concurrency in the code.
