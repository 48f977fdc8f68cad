/**
 * The work breakdown structure model: a flat list of nodes whose tree shape comes only from
 * their indentation levels (see WBSTree), the visible rows computed from the expanded flags,
 * the largest node ID seen, and the editing operations on the list.
 */
module WBSModels {
  import opened Wrappers
  import opened Strings
  import opened WBSTree
  import opened WBSNodes

  const WORKFLOW_SOURCE_IDS_ATTR: string := "workflowSourceIDs"
  const DEFAULT_ROOT_NAME: string := "Team Project"
  const PROJECT_TYPE: string := "Project"
  /** The name and type of the node a new model starts with (TeamProcess is not part of this
    * model; the value is the one its node-type table uses). */
  const SOFTWARE_COMPONENT_TYPE: string := "Software Component"
  /** Integer.MAX_VALUE: insertNodes' "append at the end" position. */
  const INT_MAX: int := 0x7fff_ffff

  /** The root's name: the given one, or the default when it is missing or blank. */
  function RootNodeName(rootName: Option<string>): (r: string)
    ensures rootName.Some? && |Trim(rootName.value)| > 0 ==> r == rootName.value
    ensures rootName.None? || |Trim(rootName.value)| == 0 ==> r == DEFAULT_ROOT_NAME
  {
    if rootName.None? || |Trim(rootName.value)| == 0 then DEFAULT_ROOT_NAME else rootName.value
  }

  /** A node as the model's constructor creates it: expanded, writable, without attributes. */
  predicate IsNewNode(n: WBSNode, name: string, nodeType: string, level: int)
    reads n`name, n`nodeType, n`indentLevel, n`expanded, n`readOnly, n`attributes
  {
    n.name == name && n.nodeType == Some(nodeType) && n.indentLevel == level &&
    n.expanded && !n.readOnly && n.attributes == map[]
  }

  // ----- views of a node list -----

  function LevelsOf(s: seq<WBSNode>): (r: seq<int>)
    reads s`indentLevel
    ensures |r| == |s| && forall i {:trigger r[i]} :: 0 <= i < |s| ==> r[i] == s[i].indentLevel
  {
    LevelsUpTo(s, |s|)
  }

  function LevelsUpTo(s: seq<WBSNode>, n: nat): (r: seq<int>)
    requires n <= |s|
    reads s`indentLevel
    ensures |r| == n && forall i {:trigger r[i]} :: 0 <= i < n ==> r[i] == s[i].indentLevel
  {
    if n == 0 then [] else LevelsUpTo(s, n - 1) + [s[n - 1].indentLevel]
  }

  function FlagsOf(s: seq<WBSNode>): (r: seq<bool>)
    reads s`expanded
    ensures |r| == |s| && forall i {:trigger r[i]} :: 0 <= i < |s| ==> r[i] == s[i].expanded
  {
    FlagsUpTo(s, |s|)
  }

  function FlagsUpTo(s: seq<WBSNode>, n: nat): (r: seq<bool>)
    requires n <= |s|
    reads s`expanded
    ensures |r| == n && forall i {:trigger r[i]} :: 0 <= i < n ==> r[i] == s[i].expanded
  {
    if n == 0 then [] else FlagsUpTo(s, n - 1) + [s[n - 1].expanded]
  }

  function IdsOf(s: seq<WBSNode>): (r: seq<int>)
    reads s`uniqueID
    ensures |r| == |s| && forall i {:trigger r[i]} :: 0 <= i < |s| ==> r[i] == s[i].uniqueID
  {
    IdsUpTo(s, |s|)
  }

  function IdsUpTo(s: seq<WBSNode>, n: nat): (r: seq<int>)
    requires n <= |s|
    reads s`uniqueID
    ensures |r| == n && forall i {:trigger r[i]} :: 0 <= i < n ==> r[i] == s[i].uniqueID
  {
    if n == 0 then [] else IdsUpTo(s, n - 1) + [s[n - 1].uniqueID]
  }

  function NamesOf(s: seq<WBSNode>): (r: seq<string>)
    reads s`name
    ensures |r| == |s| && forall i {:trigger r[i]} :: 0 <= i < |s| ==> r[i] == s[i].name
  {
    NamesUpTo(s, |s|)
  }

  function NamesUpTo(s: seq<WBSNode>, n: nat): (r: seq<string>)
    requires n <= |s|
    reads s`name
    ensures |r| == n && forall i {:trigger r[i]} :: 0 <= i < n ==> r[i] == s[i].name
  {
    if n == 0 then [] else NamesUpTo(s, n - 1) + [s[n - 1].name]
  }

  function StatesOf(s: seq<WBSNode>): (r: seq<NodeState>)
    reads s
    ensures |r| == |s| && forall i {:trigger r[i]} :: 0 <= i < |s| ==> r[i] == s[i].State()
  {
    seq(|s|, i requires 0 <= i < |s| reads s => s[i].State())
  }

  /** No element occurs twice. */
  predicate Distinct<T(==)>(s: seq<T>)
  {
    forall i, j :: 0 <= i < j < |s| ==> s[i] != s[j]
  }

  // ----- makeNodeIDUnique -----

  /** The larger of `m` and every listed ID: the running maximum of makeNodeIDUnique. */
  function MaxOf(m: int, ids: seq<int>): (r: int)
    ensures m <= r && forall i :: 0 <= i < |ids| ==> ids[i] <= r
    ensures r == m || r in ids
  {
    if ids == [] then m
    else
      var r := MaxOf(m, ids[..|ids| - 1]);
      if ids[|ids| - 1] > r then ids[|ids| - 1] else r
  }

  /** The IDs after makeNodeIDUnique: of the outline (root first), of the inserted node, and
    * the new value of the maxID field. */
  datatype IdUpdate = IdUpdate(outline: seq<int>, node: int, maxID: int)

  /** A positive ID no outline node has is kept. Otherwise the node takes maxID+1 in an empty
    * outline, and elsewhere takes the root's ID while the root takes maxID+1. */
  function UniqueIdUpdate(ids: seq<int>, current: int, maxID: int): IdUpdate
  {
    var m := MaxOf(maxID, ids);
    if current > 0 && current !in ids then IdUpdate(ids, current, m)
    else if ids == [] then IdUpdate(ids, m + 1, m)
    else IdUpdate(ids[0 := m + 1], ids[0], m)
  }

  /** In an outline of the root alone with maxID no larger than its ID, a node without an ID
    * takes the root's ID and the root takes the next one. */
  lemma UniqueIdUpdateOfRoot(ids: seq<int>, current: int, maxID: int)
    requires |ids| == 1 && maxID <= ids[0] && current <= 0
    ensures UniqueIdUpdate(ids, current, maxID) == IdUpdate([ids[0] + 1], ids[0], ids[0])
  {
    assert MaxOf(maxID, ids) == ids[0] by {
      assert ids[..0] == [];
    }
    assert ids[0 := ids[0] + 1] == [ids[0] + 1];
  }

  /** makeNodeIDUnique keeps the outline's IDs pairwise distinct with the new node's ID added;
    * only the root's ID may change, and then to one larger than every ID seen. */
  lemma UniqueIdUpdateKeepsDistinct(ids: seq<int>, current: int, maxID: int)
    requires Distinct(ids)
    ensures Distinct(UniqueIdUpdate(ids, current, maxID).outline + [UniqueIdUpdate(ids, current, maxID).node])
    ensures |UniqueIdUpdate(ids, current, maxID).outline| == |ids|
    ensures forall i :: 1 <= i < |ids| ==> UniqueIdUpdate(ids, current, maxID).outline[i] == ids[i]
    ensures forall i :: 0 <= i < |ids| ==> ids[i] <= UniqueIdUpdate(ids, current, maxID).maxID
    ensures |ids| > 0 && UniqueIdUpdate(ids, current, maxID).outline[0] != ids[0] ==>
      UniqueIdUpdate(ids, current, maxID).outline[0] == UniqueIdUpdate(ids, current, maxID).maxID + 1
  {
    var u := UniqueIdUpdate(ids, current, maxID);
    var all := u.outline + [u.node];
    forall i, j | 0 <= i < j < |all|
      ensures all[i] != all[j]
    {
      if j == |all| - 1 && i > 0 && !(current > 0 && current !in ids) && ids != [] {
        assert all[i] == ids[i] && all[j] == ids[0];
      }
    }
  }

  // ----- row diff -----

  /** The length of the longest common prefix of `a` and `b`. */
  function CommonPrefix(a: seq<int>, b: seq<int>): (n: nat)
    ensures n <= |a| && n <= |b| && a[..n] == b[..n]
    ensures n == |a| || n == |b| || a[n] != b[n]
  {
    if |a| == 0 || |b| == 0 || a[0] != b[0] then 0
    else
      var n := CommonPrefix(a[1..], b[1..]);
      assert a[..n + 1] == [a[0]] + a[1..][..n];
      assert b[..n + 1] == [b[0]] + b[1..][..n];
      n + 1
  }

  lemma {:induction false} CommonPrefixSymmetric(a: seq<int>, b: seq<int>)
    ensures CommonPrefix(a, b) == CommonPrefix(b, a)
  {
    if |a| > 0 && |b| > 0 && a[0] == b[0] {
      CommonPrefixSymmetric(a[1..], b[1..]);
    }
  }

  /** `long` is `short` with one contiguous (possibly empty) block inserted. */
  predicate SingleBlockChange(short: seq<int>, long: seq<int>)
  {
    |short| <= |long| &&
    exists k :: 0 <= k <= |short| && short[..k] == long[..k] && short[k..] == long[k + |long| - |short|..]
  }

  lemma {:induction false} CommonPrefixAtLeast(a: seq<int>, b: seq<int>, k: nat)
    requires k <= |a| && k <= |b| && a[..k] == b[..k]
    ensures k <= CommonPrefix(a, b)
  {
    if k > 0 {
      assert a[0] == a[..k][0] && b[0] == b[..k][0];
      assert a[1..][..k - 1] == a[..k][1..] && b[1..][..k - 1] == b[..k][1..];
      CommonPrefixAtLeast(a[1..], b[1..], k - 1);
    }
  }

  /** A single-block change exists iff it can be placed right after the common prefix. */
  lemma SingleBlockAtPrefix(short: seq<int>, long: seq<int>)
    requires |short| <= |long|
    ensures SingleBlockChange(short, long) <==>
      short[CommonPrefix(short, long)..] == long[CommonPrefix(short, long) + |long| - |short|..]
  {
    var p := CommonPrefix(short, long);
    if short[p..] == long[p + |long| - |short|..] {
      BlockAt(short, long, p);
    }
    if SingleBlockChange(short, long) {
      var k :| 0 <= k <= |short| && short[..k] == long[..k] && short[k..] == long[k + |long| - |short|..];
      BlockMovesToPrefix(short, long, k);
    }
  }

  /** A block inserted after position k is a single-block change. */
  lemma BlockAt(short: seq<int>, long: seq<int>, k: nat)
    requires |short| <= |long| && k <= |short|
    requires short[..k] == long[..k] && short[k..] == long[k + |long| - |short|..]
    ensures SingleBlockChange(short, long)
  {
  }

  /** A block inserted after a position within the common prefix can be moved to its end. */
  lemma BlockMovesToPrefix(short: seq<int>, long: seq<int>, k: nat)
    requires |short| <= |long| && k <= |short|
    requires short[..k] == long[..k] && short[k..] == long[k + |long| - |short|..]
    ensures short[CommonPrefix(short, long)..] == long[CommonPrefix(short, long) + |long| - |short|..]
  {
    var p, d := CommonPrefix(short, long), |long| - |short|;
    CommonPrefixAtLeast(short, long, k);
    assert short[p..] == short[k..][p - k..];
    assert long[p + d..] == long[k + d..][p - k..];
  }

  /** The first loop of fireSimpleRowChangeEvent: the length of the matching initial run. */
  method MatchingPrefix(shortRows: seq<int>, longRows: seq<int>) returns (initialLen: nat)
    requires |shortRows| <= |longRows|
    ensures initialLen == CommonPrefix(shortRows, longRows)
  {
    initialLen := 0;
    while initialLen < |shortRows| && shortRows[initialLen] == longRows[initialLen]
      invariant initialLen <= |shortRows|
      invariant shortRows[..initialLen] == longRows[..initialLen]
    {
      initialLen := initialLen + 1;
    }
    CommonPrefixAtLeast(shortRows, longRows, initialLen);
  }

  /** The second loop: whether the rest of the short array matches the end of the long one. */
  method MatchingTails(shortRows: seq<int>, longRows: seq<int>, from: nat) returns (ok: bool)
    requires from <= |shortRows| <= |longRows|
    ensures ok <==> shortRows[from..] == longRows[from + |longRows| - |shortRows|..]
  {
    var diff := |longRows| - |shortRows|;
    for i := from to |shortRows|
      invariant forall j :: from <= j < i ==> shortRows[j] == longRows[j + diff]
    {
      if shortRows[i] != longRows[i + diff] {
        assert shortRows[from..][i - from] != longRows[from + diff..][i - from];
        return false;
      }
    }
    assert shortRows[from..] == longRows[from + diff..];
    return true;
  }

  datatype RowEvent = Update(row: int) | Insert(first: int, last: int) | Delete(first: int, last: int)

  /** fireSimpleRowChangeEvent: whether the change from `oldRows` to `newRows` is a single
    * inserted or deleted block, and the table events it sends for it. */
  method FireSimpleRowChangeEvent(oldRows: seq<int>, newRows: seq<int>) returns (simple: bool, events: seq<RowEvent>)
    ensures var short := if |oldRows| < |newRows| then oldRows else newRows;
            var long := if |oldRows| < |newRows| then newRows else oldRows;
            simple <==> SingleBlockChange(short, long)
    ensures oldRows == newRows ==> simple && events == []
    ensures !simple ==> events == []
    ensures simple && oldRows != newRows ==>
      var p := CommonPrefix(oldRows, newRows);
      var diff := if |oldRows| < |newRows| then |newRows| - |oldRows| else |oldRows| - |newRows|;
      events == [Update(p - 1)] +
        (if diff == 0 then [] else if |oldRows| < |newRows| then [Insert(p, p + diff - 1)] else [Delete(p, p + diff - 1)])
  {
    var shortRows, longRows;
    if |oldRows| < |newRows| {
      shortRows, longRows := oldRows, newRows;
    } else {
      shortRows, longRows := newRows, oldRows;
    }
    var initialLen := MatchingPrefix(shortRows, longRows);
    CommonPrefixSymmetric(oldRows, newRows);
    SingleBlockAtPrefix(shortRows, longRows);
    if initialLen == |longRows| {
      assert shortRows == longRows;
      return true, [];
    }
    var diff := |longRows| - |shortRows|;
    var tailsMatch := MatchingTails(shortRows, longRows, initialLen);
    if !tailsMatch {
      return false, [];
    }
    events := [Update(initialLen - 1)];
    if diff > 0 {
      if |oldRows| < |newRows| {
        events := events + [Insert(initialLen, initialLen + diff - 1)];
      } else {
        events := events + [Delete(initialLen, initialLen + diff - 1)];
      }
    }
    simple := true;
  }

  // ----- positions and rows -----

  /** indexOf: the first position of `x` in `s`, or -1 when it is absent. */
  function PositionOf<T(==)>(s: seq<T>, x: T): (r: int)
    ensures -1 <= r < |s|
    ensures r == -1 <==> x !in s
    ensures r >= 0 ==> s[r] == x && x !in s[..r]
  {
    if |s| == 0 then -1
    else if s[0] == x then 0
    else
      var r := PositionOf(s[1..], x);
      if r == -1 then -1
      else
        assert s[..r + 1] == [s[0]] + s[1..][..r];
        r + 1
  }

  /** In a list without repeats, the element at `j` is found at `j`. */
  lemma DistinctPosition<T>(s: seq<T>, j: nat)
    requires Distinct(s) && j < |s|
    ensures PositionOf(s, s[j]) == j
  {
  }

  /** nodePosToRow: the row showing node position `pos`, or -1 when it is hidden. */
  function RowOf(rows: seq<nat>, pos: int): (r: int)
    ensures -1 <= r < |rows|
    ensures r == -1 <==> pos !in rows
    ensures r >= 0 ==> rows[r] == pos
  {
    PositionOf(rows, pos)
  }

  /** getRowsForNodes: the rows of the listed nodes that are visible, in list order. */
  function RowsForNodes(nodes: seq<WBSNode>, rows: seq<nat>, xs: seq<WBSNode>): (r: seq<int>)
    ensures |r| <= |xs|
    ensures forall i :: 0 <= i < |r| ==> 0 <= r[i] < |rows| && rows[r[i]] < |nodes|
  {
    if xs == [] then []
    else
      var prev := RowsForNodes(nodes, rows, xs[..|xs| - 1]);
      var pos := PositionOf(nodes, xs[|xs| - 1]);
      var row := if pos == -1 then -1 else RowOf(rows, pos);
      if row == -1 then prev else prev + [row]
  }

  /** The rows showing the listed positions, skipping hidden ones: indentNodes' new selection. */
  function PositionRows(rows: seq<nat>, xs: seq<nat>): (r: seq<int>)
    ensures |r| <= |xs|
    ensures forall i :: 0 <= i < |r| ==> 0 <= r[i] < |rows| && rows[r[i]] in xs
  {
    if xs == [] then []
    else
      var prev := PositionRows(rows, xs[..|xs| - 1]);
      var row := RowOf(rows, xs[|xs| - 1]);
      if row == -1 then prev else prev + [row]
  }

  // ----- indentNodes -----

  /** getIndexesForRows: the node positions on the listed rows, skipping rows outside the
    * table and, when `excludeRoot` holds, row 0; a collapsed node brings its descendants. */
  function IndexesForRows(L: seq<int>, E: seq<bool>, rows: seq<nat>, rowNumbers: seq<int>, excludeRoot: bool): (r: seq<nat>)
    requires |E| == |L| && forall i :: 0 <= i < |rows| ==> rows[i] < |L|
    ensures forall i :: 0 <= i < |r| ==> r[i] < |L|
  {
    if rowNumbers == [] then []
    else
      var prev := IndexesForRows(L, E, rows, rowNumbers[..|rowNumbers| - 1], excludeRoot);
      var rn := rowNumbers[|rowNumbers| - 1];
      if (rn == 0 && excludeRoot) || rn < 0 || rn >= |rows| then prev
      else prev + [rows[rn]] + (if E[rows[rn]] then [] else Descendants(L, rows[rn]))
  }

  /** With the root excluded, no listed position is the root's. */
  lemma {:induction false} IndexesForRowsSkipRoot(L: seq<int>, E: seq<bool>, rowNumbers: seq<int>)
    requires |E| == |L| && |L| > 0
    ensures forall i :: 0 <= i < |IndexesForRows(L, E, Rows(L, E), rowNumbers, true)| ==>
      IndexesForRows(L, E, Rows(L, E), rowNumbers, true)[i] >= 1
  {
    RowsShape(L, E);
    if rowNumbers != [] {
      IndexesForRowsSkipRoot(L, E, rowNumbers[..|rowNumbers| - 1]);
    }
  }

  /** The levels after indentNodes' loop: each listed position moved by `delta`, in turn. */
  function Indented(L: seq<int>, xs: seq<nat>, delta: int): (r: seq<int>)
    requires forall i :: 0 <= i < |xs| ==> xs[i] < |L|
    ensures |r| == |L|
  {
    if xs == [] then L
    else
      var prev := Indented(L, xs[..|xs| - 1], delta);
      prev[xs[|xs| - 1] := prev[xs[|xs| - 1]] + delta]
  }

  /** Each level moves by `delta` once for every time its position is listed. */
  lemma {:induction false} IndentedSpec(L: seq<int>, xs: seq<nat>, delta: int, k: nat)
    requires forall i :: 0 <= i < |xs| ==> xs[i] < |L|
    requires k < |L|
    ensures Indented(L, xs, delta)[k] == L[k] + delta * multiset(xs)[k]
  {
    if xs != [] {
      var init: seq<nat>, last: nat := xs[..|xs| - 1], xs[|xs| - 1];
      IndentedSpec(L, init, delta, k);
      MultisetLastCount(xs, k);
      MulStep(delta, multiset(init)[k], k == last);
    }
  }

  lemma MultisetLastCount(xs: seq<nat>, k: nat)
    requires xs != []
    ensures multiset(xs)[k] == multiset(xs[..|xs| - 1])[k] + (if k == xs[|xs| - 1] then 1 else 0)
  {
    assert xs == xs[..|xs| - 1] + [xs[|xs| - 1]];
    assert multiset(xs) == multiset(xs[..|xs| - 1]) + multiset{xs[|xs| - 1]};
  }

  lemma MulStep(delta: int, m: nat, c: bool)
    ensures delta * m + (if c then delta else 0) == delta * (m + (if c then 1 else 0))
  {
  }

  /** indentNodes' legality test: an outdent must leave every listed node at level 1 or more. */
  predicate IndentLegal(L: seq<int>, xs: seq<nat>, delta: int)
    requires forall i :: 0 <= i < |xs| ==> xs[i] < |L|
  {
    delta >= 0 || forall i :: 0 <= i < |xs| ==> L[xs[i]] + delta >= 1
  }

  lemma {:induction false} DistinctCount(xs: seq<nat>, k: nat)
    requires Distinct(xs)
    ensures multiset(xs)[k] == if k in xs then 1 else 0
  {
    if xs != [] {
      var init := xs[..|xs| - 1];
      assert xs == init + [xs[|xs| - 1]];
      DistinctCount(init, k);
    }
  }

  /** A legal indent of distinct non-root positions keeps the root alone at level 0. */
  lemma IndentKeepsWellFormed(L: seq<int>, xs: seq<nat>, delta: int)
    requires WellFormed(L)
    requires forall i :: 0 <= i < |xs| ==> 1 <= xs[i] < |L|
    requires Distinct(xs) && IndentLegal(L, xs, delta)
    ensures WellFormed(Indented(L, xs, delta))
  {
    var r := Indented(L, xs, delta);
    forall k | 0 <= k < |L|
      ensures k == 0 ==> r[k] == 0
      ensures k > 0 ==> r[k] >= 1
    {
      IndentedSpec(L, xs, delta, k);
      DistinctCount(xs, k);
      if k in xs {
        var i :| 0 <= i < |xs| && xs[i] == k;
        assert L[xs[i]] + delta >= 1 || delta >= 0;
      }
    }
  }

  /** Indenting by `delta` and then by `-delta` restores every level. */
  lemma IndentUndo(L: seq<int>, xs: seq<nat>, delta: int)
    requires forall i :: 0 <= i < |xs| ==> xs[i] < |L|
    ensures Indented(Indented(L, xs, delta), xs, -delta) == L
  {
    var r := Indented(Indented(L, xs, delta), xs, -delta);
    forall k | 0 <= k < |L|
      ensures r[k] == L[k]
    {
      IndentedSpec(L, xs, delta, k);
      IndentedSpec(Indented(L, xs, delta), xs, -delta, k);
      assert (-delta) * multiset(xs)[k] == -(delta * multiset(xs)[k]);
    }
  }

  // ----- makeVisible -----

  /** Expanding `q` and then the rest is expanding `q` first and the rest after it. */
  lemma ExpandAllCons(E: seq<bool>, q: nat, xs: seq<nat>)
    requires q < |E|
    ensures ExpandAll(E, [q] + xs) == ExpandAll(E[q := true], xs)
  {
    var a, b := ExpandAll(E, [q] + xs), ExpandAll(E[q := true], xs);
    assert forall i :: 0 <= i < |E| ==> (i in [q] + xs <==> i == q || i in xs);
    assert forall i :: 0 <= i < |E| ==> a[i] == b[i];
  }

  /** The flags after makeVisible(p) for each listed position in turn. Positions outside
    * the list are ignored; with `skipVisible`, so are positions that are already rows. */
  function ShowEach(L: seq<int>, E: seq<bool>, ps: seq<int>, skipVisible: bool): (r: seq<bool>)
    requires |E| == |L|
    ensures |r| == |L|
  {
    if ps == [] then E
    else
      var prev := ShowEach(L, E, ps[..|ps| - 1], skipVisible);
      var p := ps[|ps| - 1];
      if 0 <= p < |L| && !(skipVisible && p in Rows(L, prev)) then ExpandAll(prev, Ancestors(L, p))
      else prev
  }

  /** ShowEach over one more position. */
  lemma ShowEachSnoc(L: seq<int>, F: seq<bool>, E: seq<bool>, ps: seq<int>, i: nat, skipVisible: bool)
    requires |E| == |L| && i < |ps| && F == ShowEach(L, E, ps[..i], skipVisible)
    ensures ShowEach(L, E, ps[..i + 1], skipVisible) ==
      if 0 <= ps[i] < |L| && !(skipVisible && ps[i] in Rows(L, F)) then ExpandAll(F, Ancestors(L, ps[i])) else F
  {
    assert ps[..i + 1][..i] == ps[..i];
  }

  /** AnyHidden over one more position. */
  lemma AnyHiddenSnoc(L: seq<int>, F: seq<bool>, E: seq<bool>, ps: seq<int>, i: nat)
    requires |E| == |L| && |L| > 0 && i < |ps| && F == ShowEach(L, E, ps[..i], true)
    ensures AnyHidden(L, E, ps[..i + 1]) == (AnyHidden(L, E, ps[..i]) || ps[i] !in Rows(L, F))
  {
    assert ps[..i + 1][..i] == ps[..i];
  }

  /** Every element of a splice comes from one of its two parts. */
  lemma SplicedMembers<T>(a: seq<T>, b: seq<T>, p: nat)
    requires p <= |a|
    ensures forall i :: 0 <= i < |a[..p] + b + a[p..]| ==> (a[..p] + b + a[p..])[i] in a + b
  {
    var r, s := a[..p] + b + a[p..], a + b;
    forall i | 0 <= i < |r|
      ensures r[i] in s
    {
      if i < p {
        assert r[i] == s[i];
      } else if i < p + |b| {
        assert r[i] == s[|a| + i - p];
      } else {
        assert r[i] == s[i - |b|];
      }
    }
  }

  /** makeVisible(int[])'s result: some listed position was not a row when it was reached. */
  function AnyHidden(L: seq<int>, E: seq<bool>, ps: seq<int>): bool
    requires |E| == |L| && |L| > 0
  {
    ps != [] &&
    (AnyHidden(L, E, ps[..|ps| - 1]) || ps[|ps| - 1] !in Rows(L, ShowEach(L, E, ps[..|ps| - 1], true)))
  }

  /** makeVisible only ever expands nodes, and only ancestors of listed positions. */
  lemma {:induction false} ShowEachExpandsAncestors(L: seq<int>, E: seq<bool>, ps: seq<int>, skipVisible: bool, k: nat)
    requires |E| == |L| && k < |L|
    ensures E[k] ==> ShowEach(L, E, ps, skipVisible)[k]
    ensures ShowEach(L, E, ps, skipVisible)[k] ==>
      E[k] || exists i :: 0 <= i < |ps| && 0 <= ps[i] < |L| && k in Ancestors(L, ps[i])
  {
    if ps != [] {
      var init := ps[..|ps| - 1];
      ShowEachExpandsAncestors(L, E, init, skipVisible, k);
      if ShowEach(L, E, init, skipVisible)[k] && !E[k] {
        var i :| 0 <= i < |init| && 0 <= init[i] < |L| && k in Ancestors(L, init[i]);
        assert ps[i] == init[i];
      }
    }
  }

  /** After makeVisible of each listed position, every listed in-range position is a row. */
  lemma {:induction false} ShowEachShows(L: seq<int>, E: seq<bool>, ps: seq<int>, skipVisible: bool, i: nat)
    requires WellFormed(L) && |E| == |L|
    requires i < |ps| && 0 <= ps[i] < |L|
    ensures ps[i] in Rows(L, ShowEach(L, E, ps, skipVisible))
  {
    var init := ps[..|ps| - 1];
    var prev := ShowEach(L, E, init, skipVisible);
    var p := ps[|ps| - 1];
    if i == |ps| - 1 {
      if !(skipVisible && p in Rows(L, prev)) {
        ExpandedAncestorsShow(L, prev, p);
      }
    } else {
      ShowEachShows(L, E, init, skipVisible, i);
      assert init[i] == ps[i];
      forall j | 0 <= j < |L| && prev[j]
        ensures ShowEach(L, E, ps, skipVisible)[j]
      {
      }
      VisibleMonotone(L, prev, ShowEach(L, E, ps, skipVisible), ps[i]);
    }
  }

  // ----- deleteNodes -----

  /** `s` without the elements listed in `del`, order kept. */
  function Without<T(==)>(s: seq<T>, del: seq<T>): (r: seq<T>)
    ensures |r| <= |s|
  {
    if s == [] then []
    else
      var prev := Without(s[..|s| - 1], del);
      assert s == s[..|s| - 1] + [s[|s| - 1]];
      if s[|s| - 1] in del then prev else prev + [s[|s| - 1]]
  }

  /** Without keeps exactly the elements of `s` that are not in `del`. */
  lemma {:induction false} WithoutMembers<T>(s: seq<T>, del: seq<T>, x: T)
    ensures x in Without(s, del) <==> x in s && x !in del
  {
    if s != [] {
      var init := s[..|s| - 1];
      WithoutMembers(init, del, x);
      assert s == init + [s[|s| - 1]];
    }
  }

  /** Without keeps a list without repeats free of repeats. */
  lemma {:induction false} WithoutDistinct<T>(s: seq<T>, del: seq<T>)
    requires Distinct(s)
    ensures Distinct(Without(s, del))
  {
    if s != [] {
      var init, y := s[..|s| - 1], s[|s| - 1];
      WithoutDistinct(init, del);
      WithoutMembers(init, del, y);
      assert y !in init;
    }
  }

  /** A first element that is not deleted stays first. */
  lemma {:induction false} WithoutHead<T>(s: seq<T>, del: seq<T>)
    requires |s| > 0 && s[0] !in del
    ensures |Without(s, del)| > 0 && Without(s, del)[0] == s[0]
  {
    if |s| > 1 {
      WithoutHead(s[..|s| - 1], del);
    }
  }

  /** Deleting nodes other than the root keeps the root alone at level 0. */
  lemma WithoutKeepsWellFormed(s: seq<WBSNode>, del: seq<WBSNode>)
    requires Distinct(s) && WellFormed(LevelsOf(s)) && s[0] !in del
    ensures WellFormed(LevelsOf(Without(s, del)))
  {
    var w := Without(s, del);
    WithoutHead(s, del);
    WithoutDistinct(s, del);
    forall k | 1 <= k < |w|
      ensures w[k].indentLevel >= 1
    {
      WithoutMembers(s, del, w[k]);
      var j := PositionOf(s, w[k]);
      assert w[k] != s[0] by {
        assert w[0] == s[0];
      }
      assert LevelsOf(s)[j] == w[k].indentLevel;
    }
  }

  /** Deleting elements none of which is present changes nothing. */
  lemma {:induction false} WithoutNone<T>(s: seq<T>, del: seq<T>)
    requires forall x :: x in del ==> x !in s
    ensures Without(s, del) == s
  {
    if s != [] {
      WithoutNone(s[..|s| - 1], del);
    }
  }

  /** Some of the first `n` listed nodes is in `s`. */
  predicate AnyListedIn(del: seq<WBSNode>, n: nat, s: seq<WBSNode>)
    requires n <= |del|
  {
    exists j :: 0 <= j < n && del[j] in s
  }

  /** List.remove: `s` without the first occurrence of `x`. */
  function RemoveFirst<T(==)>(s: seq<T>, x: T): (r: seq<T>)
  {
    var i := PositionOf(s, x);
    if i == -1 then s else s[..i] + s[i + 1..]
  }

  lemma PositionOfSnoc<T>(s: seq<T>, y: T, x: T)
    ensures x in s ==> PositionOf(s + [y], x) == PositionOf(s, x)
    ensures x !in s && x == y ==> PositionOf(s + [y], x) == |s|
  {
    var r, r' := PositionOf(s, x), PositionOf(s + [y], x);
    if x in s {
      assert (s + [y])[..r'] == s[..r'] || r' == |s|;
      assert (s + [y])[r] == x;
      assert s[..r] == (s + [y])[..r];
    }
  }

  lemma RemoveFirstSnoc<T>(w: seq<T>, y: T, x: T)
    requires y != x
    ensures RemoveFirst(w + [y], x) == RemoveFirst(w, x) + [y]
  {
    PositionOfSnoc(w, y, x);
    if x in w {
      var i := PositionOf(w, x);
      assert (w + [y])[..i] == w[..i];
      assert (w + [y])[i + 1..] == w[i + 1..] + [y];
    } else {
      assert x !in w + [y];
    }
  }

  /** Removing the listed elements one by one, first occurrence each, is the filter. */
  lemma {:induction false} RemoveFirstWithout<T>(s: seq<T>, xs: seq<T>, x: T)
    requires Distinct(s)
    ensures RemoveFirst(Without(s, xs), x) == Without(s, xs + [x])
  {
    if s != [] {
      var init, y := s[..|s| - 1], s[|s| - 1];
      RemoveFirstWithout(init, xs, x);
      var w := Without(init, xs);
      assert Without(s, xs) == if y in xs then w else w + [y];
      assert Without(s, xs + [x]) ==
        if y in xs + [x] then Without(init, xs + [x]) else Without(init, xs + [x]) + [y];
      if y !in xs {
        if y == x {
          assert x !in init;
          WithoutMembers(init, xs, x);
          PositionOfSnoc(w, x, x);
          assert RemoveFirst(w, x) == w;
          assert RemoveFirst(w + [x], x) == w;
        } else {
          RemoveFirstSnoc(w, y, x);
        }
      }
    }
  }

  /** Without a contiguous block of a list of distinct elements, the rest is what remains. */
  lemma WithoutBlock<T>(s: seq<T>, a: nat, b: nat)
    requires a <= b <= |s| && Distinct(s)
    ensures Without(s, s[a..b]) == s[..a] + s[b..]
  {
    WithoutBlockPrefix(s, a, b, |s|);
    assert s[..|s|] == s;
  }

  lemma WithoutBlockPrefix<T>(s: seq<T>, a: nat, b: nat, n: nat)
    requires a <= b <= |s| && n <= |s| && Distinct(s)
    ensures n <= a ==> Without(s[..n], s[a..b]) == s[..n]
    ensures a <= n <= b ==> Without(s[..n], s[a..b]) == s[..a]
    ensures b <= n ==> Without(s[..n], s[a..b]) == s[..a] + s[b..n]
  {
    if n <= a {
      WithoutBeforeBlock(s, a, b, n);
    }
    if a <= n <= b {
      WithoutInBlock(s, a, b, n);
    }
    if b <= n {
      WithoutAfterBlock(s, a, b, n);
    }
  }

  lemma {:induction false} WithoutBeforeBlock<T>(s: seq<T>, a: nat, b: nat, n: nat)
    requires a <= b <= |s| && n <= a && Distinct(s)
    ensures Without(s[..n], s[a..b]) == s[..n]
  {
    if n > 0 {
      WithoutBeforeBlock(s, a, b, n - 1);
      WithoutPrefixStep(s, a, b, n);
      assert s[..n] == s[..n - 1] + [s[n - 1]];
    }
  }

  lemma {:induction false} WithoutInBlock<T>(s: seq<T>, a: nat, b: nat, n: nat)
    requires a <= n <= b <= |s| && Distinct(s)
    ensures Without(s[..n], s[a..b]) == s[..a]
  {
    if n == a {
      WithoutBeforeBlock(s, a, b, n);
    } else {
      WithoutInBlock(s, a, b, n - 1);
      WithoutPrefixStep(s, a, b, n);
    }
  }

  lemma {:induction false} WithoutAfterBlock<T>(s: seq<T>, a: nat, b: nat, n: nat)
    requires a <= b <= n <= |s| && Distinct(s)
    ensures Without(s[..n], s[a..b]) == s[..a] + s[b..n]
  {
    if n == b {
      WithoutInBlock(s, a, b, n);
      assert s[b..n] == [];
    } else {
      WithoutAfterBlock(s, a, b, n - 1);
      WithoutPrefixStep(s, a, b, n);
      SliceSnoc(s, b, n - 1);
      assert (s[..a] + s[b..n - 1]) + [s[n - 1]] == s[..a] + (s[b..n - 1] + [s[n - 1]]);
    }
  }

  lemma SliceSnoc<T>(s: seq<T>, i: nat, j: nat)
    requires i <= j < |s|
    ensures s[i..j + 1] == s[i..j] + [s[j]]
  {
  }

  /** One more element of the prefix is kept exactly when it lies outside the block. */
  lemma WithoutPrefixStep<T>(s: seq<T>, a: nat, b: nat, n: nat)
    requires a <= b <= |s| && 0 < n <= |s| && Distinct(s)
    ensures Without(s[..n], s[a..b]) ==
      if a <= n - 1 < b then Without(s[..n - 1], s[a..b]) else Without(s[..n - 1], s[a..b]) + [s[n - 1]]
  {
    assert s[..n] == s[..n - 1] + [s[n - 1]];
    WithoutSnoc(s[..n - 1], s[n - 1], s[a..b]);
    if a <= n - 1 < b {
      assert s[n - 1] == s[a..b][n - 1 - a];
    } else {
      OutsideBlock(s, a, b, n - 1);
    }
  }

  /** In a list without repeats, an element outside a block is not in it. */
  lemma OutsideBlock<T>(s: seq<T>, a: nat, b: nat, j: nat)
    requires a <= b <= |s| && j < |s| && (j < a || b <= j) && Distinct(s)
    ensures s[j] !in s[a..b]
  {
  }

  lemma WithoutSnoc<T>(t: seq<T>, x: T, del: seq<T>)
    ensures Without(t + [x], del) == if x in del then Without(t, del) else Without(t, del) + [x]
  {
    assert (t + [x])[..|t|] == t;
  }

  /** moveNodeUp's list: once the block [pos, e) has left `s`, putting it back at `d` (before
    * pos) places it before the node that was at `d`. */
  lemma ReinsertBefore<T>(s: seq<T>, d: nat, pos: nat, e: nat)
    requires d <= pos <= e <= |s|
    ensures var t := s[..pos] + s[e..];
            t[..d] + s[pos..e] + t[d..] == s[..d] + s[pos..e] + s[d..pos] + s[e..]
  {
    var t := s[..pos] + s[e..];
    assert t[..d] == s[..d];
    assert t[d..] == s[d..pos] + s[e..];
  }

  /** moveNodeDown's list: once the block [pos, e) has left `s`, putting it back at
    * dest - (e - pos) places it before the node that was at `dest`. */
  lemma ReinsertAfter<T>(s: seq<T>, pos: nat, e: nat, dest: nat, k: nat)
    requires pos <= e <= dest <= |s| && k == dest - (e - pos)
    ensures (s[..pos] + s[e..])[..k] + s[pos..e] + (s[..pos] + s[e..])[k..]
            == s[..pos] + s[e..dest] + s[pos..e] + s[dest..]
  {
    var t := s[..pos] + s[e..];
    assert t[..k] == s[..pos] + s[e..dest];
    assert t[k..] == s[dest..];
  }

  /** moveNodeDown's insertion index in the list once the moving block has left it: the
    * block's new place, counted without the block. */
  function DownTarget(L: seq<int>, pos: nat): (k: nat)
    requires pos < |L| && MoveDownDest(L, pos) >= 0
    ensures pos < k <= |L| - (DescendantEnd(L, pos) - pos)
  {
    MoveDownDest(L, pos) - (DescendantEnd(L, pos) - pos)
  }

  /** The IDs of a list with a block cut out, and of the block, are the same cuts of the
    * list's IDs. */
  lemma IdsOfCut(s: seq<WBSNode>, pos: nat, e: nat)
    requires pos <= e <= |s|
    ensures IdsOf(s[..pos] + s[e..]) == IdsOf(s)[..pos] + IdsOf(s)[e..] && IdsOf(s[pos..e]) == IdsOf(s)[pos..e]
  {
  }

  /** The levels of a list with a block cut out, and of the block, are the same cuts of the
    * list's levels. */
  lemma LevelsOfCut(s: seq<WBSNode>, pos: nat, e: nat)
    requires pos <= e <= |s|
    ensures LevelsOf(s[..pos] + s[e..]) == LevelsOf(s)[..pos] + LevelsOf(s)[e..]
    ensures LevelsOf(s[pos..e]) == LevelsOf(s)[pos..e]
  {
  }

  /** The flags of a list with a block cut out, and of the block, are the same cuts of the
    * list's flags. */
  lemma FlagsOfCut(s: seq<WBSNode>, pos: nat, e: nat)
    requires pos <= e <= |s|
    ensures FlagsOf(s[..pos] + s[e..]) == FlagsOf(s)[..pos] + FlagsOf(s)[e..] && FlagsOf(s[pos..e]) == FlagsOf(s)[pos..e]
  {
  }

  /** Both a block of a list and the list without it hold only members of the list. */
  lemma CutMembers<T>(s: seq<T>, pos: nat, e: nat)
    requires pos <= e <= |s|
    ensures forall x :: x in s[pos..e] ==> x in s
    ensures forall x :: x in s[..pos] + s[e..] ==> x in s
  {
    forall x | x in s[..pos] + s[e..]
      ensures x in s
    {
      if x in s[..pos] {
        var i :| 0 <= i < pos && s[..pos][i] == x;
        assert s[i] == x;
      } else {
        var i :| 0 <= i < |s| - e && s[e..][i] == x;
        assert s[e + i] == x;
      }
    }
  }

  /** prepareNodesForInsertion keeps every ID when each ID of the batch is positive and no
    * outline node has it: each batch node is checked against the outline alone. */
  lemma {:induction false} PrepareBatchKeeps(ids: seq<int>, batch: seq<int>, maxID: int)
    requires forall i :: 0 <= i < |batch| ==> batch[i] > 0 && batch[i] !in ids
    ensures PrepareBatch(ids, batch, maxID).outline == ids && PrepareBatch(ids, batch, maxID).batch == batch
  {
    if batch != [] {
      var init := batch[..|batch| - 1];
      PrepareBatchKeeps(ids, init, maxID);
      assert batch == init + [batch[|batch| - 1]];
    }
  }

  /** Every ID listed is positive, so none of them is reassigned for being zero or less. */
  predicate Positive(ids: seq<int>)
  {
    forall i :: 0 <= i < |ids| ==> ids[i] > 0
  }

  /** A block move keeps every ID with its node when the moved IDs are positive and no ID
    * occurs twice. */
  lemma MoveKeepsIds(ids: seq<int>, pos: nat, e: nat, maxID: int)
    requires pos <= e <= |ids| && Distinct(ids)
    requires Positive(ids[pos..e])
    ensures PrepareBatch(ids[..pos] + ids[e..], ids[pos..e], maxID) ==
            BatchUpdate(ids[..pos] + ids[e..], ids[pos..e], PrepareBatch(ids[..pos] + ids[e..], ids[pos..e], maxID).maxID)
  {
    var rest := ids[..pos] + ids[e..];
    forall i | 0 <= i < e - pos
      ensures ids[pos..e][i] > 0 && ids[pos..e][i] !in rest
    {
      forall a | 0 <= a < |rest|
        ensures rest[a] != ids[pos + i]
      {
        var b := if a < pos then a else a + (e - pos);
        assert rest[a] == ids[b];
      }
    }
    PrepareBatchKeeps(rest, ids[pos..e], maxID);
  }

  /** MovedFlags in terms of the flags and the shown nodes after the deletion. */
  lemma MovedFlagsAfter(s: seq<WBSNode>, L: seq<int>, F: seq<bool>, R: seq<nat>, pos: nat, e: nat, k: nat,
                        afterDelete: seq<bool>, shown: seq<WBSNode>)
    requires |L| == |F| == |s| && pos < e <= |s| && (0 < pos || e < |s|) && k <= |s| - (e - pos)
    requires forall i :: 0 <= i < |R| ==> R[i] < |s|
    requires afterDelete == ShowEach(L[..pos] + L[e..], F[..pos] + F[e..], PositionsIn(s[..pos] + s[e..], NodesOnRows(s, R)), false)
    requires shown == NodesOnRows(s[..pos] + s[e..], Rows(L[..pos] + L[e..], afterDelete))
    ensures var rest, restLevels := s[..pos] + s[e..], L[..pos] + L[e..];
            MovedFlags(s, L, F, R, pos, e, k) ==
            ShowEach(restLevels[..k] + L[pos..e] + restLevels[k..], afterDelete[..k] + F[pos..e] + afterDelete[k..],
                     PositionsIn(rest[..k] + s[pos..e] + rest[k..], shown + [s[pos]]), false)
  {
  }

  /** The flags after a block move: deleteNodes of the block [pos, e) of `s`, which shows
    * again each node shown on `R` that stays, then insertNodesAt at position `k` of what is
    * left, which shows again each node shown after the deletion and the block's first node. */
  function MovedFlags(s: seq<WBSNode>, L: seq<int>, F: seq<bool>, R: seq<nat>, pos: nat, e: nat, k: nat): (r: seq<bool>)
    requires |L| == |F| == |s| && pos < e <= |s| && (0 < pos || e < |s|) && k <= |s| - (e - pos)
    requires forall i :: 0 <= i < |R| ==> R[i] < |s|
    ensures |r| == |s|
  {
    var rest := s[..pos] + s[e..];
    var restLevels := L[..pos] + L[e..];
    var afterDelete := ShowEach(restLevels, F[..pos] + F[e..], PositionsIn(rest, NodesOnRows(s, R)), false);
    var shown := NodesOnRows(rest, Rows(restLevels, afterDelete));
    ShowEach(restLevels[..k] + L[pos..e] + restLevels[k..], afterDelete[..k] + F[pos..e] + afterDelete[k..],
             PositionsIn(rest[..k] + s[pos..e] + rest[k..], shown + [s[pos]]), false)
  }

  /** The node on each row: the list of visible nodes deleteNodes and insertNodesAt keep. */
  function NodesOnRows(s: seq<WBSNode>, rows: seq<nat>): (r: seq<WBSNode>)
    requires forall i :: 0 <= i < |rows| ==> rows[i] < |s|
    ensures |r| == |rows| && forall i :: 0 <= i < |rows| ==> r[i] == s[rows[i]]
  {
    seq(|rows|, i requires 0 <= i < |rows| => s[rows[i]])
  }

  /** indexOf of each listed node: where makeVisible looks for it. */
  function PositionsIn(s: seq<WBSNode>, vs: seq<WBSNode>): (r: seq<int>)
    ensures |r| == |vs| && forall i :: 0 <= i < |vs| ==> r[i] == PositionOf(s, vs[i])
  {
    seq(|vs|, i requires 0 <= i < |vs| => PositionOf(s, vs[i]))
  }

  // ----- insertNodes -----

  /** insertNodes' insertion position as written: the assignment for row 0 is overwritten by
    * the if/else that follows it, so row 0 maps to rows[0], the root's own position;
    * rows outside the table append (Integer.MAX_VALUE). */
  function InsertPosAsWritten(rows: seq<nat>, beforeRow: int): int
  {
    if beforeRow < 0 || beforeRow >= |rows| then INT_MAX else rows[beforeRow]
  }

  /** With the row order of the model, the position computed as written for row 0 is the
    * root's: the nodes land before the root. */
  lemma InsertAsWrittenBeforeRoot(L: seq<int>, E: seq<bool>)
    requires |E| == |L| && |L| > 0
    ensures InsertPosAsWritten(Rows(L, E), 0) == 0
  {
    RowsShape(L, E);
  }

  /** insertNodes' insertion position as intended: row 0 maps to position 1, just after the
    * root; other rows map to the node they show; rows outside the table append. */
  function InsertPos(rows: seq<nat>, beforeRow: int): int
  {
    if beforeRow == 0 then 1
    else if beforeRow < 0 || beforeRow >= |rows| then INT_MAX
    else rows[beforeRow]
  }

  /** The intended position never puts anything before the root. */
  lemma InsertPosAfterRoot(L: seq<int>, E: seq<bool>, beforeRow: int)
    requires |E| == |L| && |L| > 0
    ensures InsertPos(Rows(L, E), beforeRow) >= 1
    ensures 0 < beforeRow < |Rows(L, E)| ==> InsertPos(Rows(L, E), beforeRow) == Rows(L, E)[beforeRow]
  {
    RowsShape(L, E);
  }

  // ----- add(beforeRow, node) -----

  /** add(beforeRow, node)'s row once clamped: nothing goes before the root's row. */
  function ClampRow(beforeRow: int): (r: int)
    ensures r >= 1 && (beforeRow >= 1 ==> r == beforeRow)
  {
    if beforeRow < 1 then 1 else beforeRow
  }

  /** Where add(beforeRow, node) puts the node: before the node shown on the clamped row, or at
    * the end of the list when that row is past the table. */
  function AddPos(rows: seq<nat>, size: nat, beforeRow: int): int
  {
    var b := ClampRow(beforeRow);
    if b >= |rows| then size else rows[b]
  }

  /** In a consistent model the node goes in after the root and no further than the end. */
  lemma AddPosAfterRoot(L: seq<int>, E: seq<bool>, beforeRow: int)
    requires |E| == |L| && |L| > 0
    ensures 1 <= AddPos(Rows(L, E), |L|, beforeRow) <= |L|
    ensures ClampRow(beforeRow) < |Rows(L, E)| ==>
      AddPos(Rows(L, E), |L|, beforeRow) == Rows(L, E)[ClampRow(beforeRow)]
  {
    RowsShape(L, E);
  }

  // ----- prepareNodesForInsertion -----

  /** The IDs after makeNodeIDUnique for each node of a batch in turn, each checked against
    * the outline alone: the batch is added to the list only afterwards. */
  datatype BatchUpdate = BatchUpdate(outline: seq<int>, batch: seq<int>, maxID: int)

  function PrepareBatch(ids: seq<int>, batch: seq<int>, maxID: int): (r: BatchUpdate)
    ensures |r.outline| == |ids| && |r.batch| == |batch|
  {
    if batch == [] then BatchUpdate(ids, [], maxID)
    else
      var prev := PrepareBatch(ids, batch[..|batch| - 1], maxID);
      var u := UniqueIdUpdate(prev.outline, batch[|batch| - 1], prev.maxID);
      BatchUpdate(u.outline, prev.batch + [u.node], u.maxID)
  }

  lemma PrepareBatchSnoc(ids: seq<int>, batch: seq<int>, maxID: int, i: nat)
    requires i < |batch|
    ensures var prev := PrepareBatch(ids, batch[..i], maxID);
            var u := UniqueIdUpdate(prev.outline, batch[i], prev.maxID);
            PrepareBatch(ids, batch[..i + 1], maxID) == BatchUpdate(u.outline, prev.batch + [u.node], u.maxID)
  {
    assert batch[..i + 1][..i] == batch[..i];
  }

  // ----- workflow source IDs -----

  /** The fields of `s` between the separators `c`, empty ones included. */
  function SplitAll(s: string, c: char): (r: seq<string>)
    ensures |r| >= 1
    decreases |s|
  {
    match LastIndexOf(s, c)
    case None => [s]
    case Some(i) => SplitAll(s[..i], c) + [s[i + 1..]]
  }

  function DropTrailingEmpty(fields: seq<string>): (r: seq<string>)
    ensures |r| <= |fields| && r == fields[..|r|]
    ensures r == [] || r[|r| - 1] != ""
  {
    if fields != [] && fields[|fields| - 1] == "" then DropTrailingEmpty(fields[..|fields| - 1]) else fields
  }

  /** String.split with a one-character separator: the whole string when it holds no
    * separator, otherwise the fields with the trailing empty ones dropped. */
  function JavaSplit(s: string, c: char): seq<string>
  {
    if !ContainsChar(s, c) then [s] else DropTrailingEmpty(SplitAll(s, c))
  }

  lemma IntToStringNoComma(i: int)
    ensures !ContainsChar(IntToString(i), ',')
  {
    var t := IntToString(i);
    if i < 0 {
      assert forall j :: 1 <= j < |t| ==> t[j] == NatToString(-i)[j - 1];
    }
  }

  /** The last comma of `a` + "," + `t`, for a comma-free `t`, is the one before `t`. */
  lemma {:induction false} LastCommaAt(a: string, t: string)
    requires !ContainsChar(t, ',')
    ensures LastIndexOf(a + "," + t, ',') == Some(|a|)
    decreases |t|
  {
    var s := a + "," + t;
    if |t| > 0 {
      var t' := t[..|t| - 1];
      assert s[|s| - 1] == t[|t| - 1];
      assert forall j :: 0 <= j < |t'| ==> t'[j] == t[j];
      LastCommaAt(a, t');
      assert s[..|s| - 1] == a + "," + t';
    }
  }

  /** Splitting `a` + "," + `t`, for a comma-free `t`, gives the fields of `a`, then `t`. */
  lemma SplitAllAppended(a: string, t: string)
    requires !ContainsChar(t, ',')
    ensures SplitAll(a + "," + t, ',') == SplitAll(a, ',') + [t]
  {
    var s := a + "," + t;
    LastCommaAt(a, t);
    assert s[..|a|] == a && s[|a| + 1..] == t;
  }

  /** A non-empty comma-free field appended after a comma is the last field of the split. */
  lemma SplitAppended(a: string, t: string)
    requires |t| > 0 && !ContainsChar(t, ',')
    ensures t in JavaSplit(a + "," + t, ',')
  {
    var s := a + "," + t;
    assert s[|a|] == ',';
    SplitAllAppended(a, t);
  }

  /** addWorkflowSourceID as intended: the new ID joins the comma-separated list held in the
    * attribute unless it is already one of its fields; any attribute value is read as text. */
  function NewSourceIDs(oldValue: Option<AttrValue>, sourceID: int): string
  {
    var newID := IntToString(sourceID);
    var oldIDs := if oldValue.Some? then oldValue.value.ToText() else "";
    if |oldIDs| == 0 then newID
    else if newID in JavaSplit(oldIDs, ',') then oldIDs
    else oldIDs + "," + newID
  }

  /** The new ID is always one of the fields of the result, and the old list is kept. */
  lemma NewSourceIDsContains(oldValue: Option<AttrValue>, sourceID: int)
    ensures IntToString(sourceID) in JavaSplit(NewSourceIDs(oldValue, sourceID), ',')
    ensures oldValue.Some? && |oldValue.value.ToText()| > 0 ==>
      StartsWith(NewSourceIDs(oldValue, sourceID), oldValue.value.ToText())
  {
    var newID := IntToString(sourceID);
    IntToStringNoComma(sourceID);
    var oldIDs := if oldValue.Some? then oldValue.value.ToText() else "";
    if |oldIDs| == 0 {
      assert JavaSplit(newID, ',') == [newID];
    } else if newID !in JavaSplit(oldIDs, ',') {
      SplitAppended(oldIDs, newID);
      assert (oldIDs + "," + newID)[..|oldIDs|] == oldIDs;
    }
  }

  /** Adding the same source ID twice is the same as adding it once. */
  lemma NewSourceIDsIdempotent(oldValue: Option<AttrValue>, sourceID: int)
    ensures NewSourceIDs(Some(Text(NewSourceIDs(oldValue, sourceID))), sourceID) == NewSourceIDs(oldValue, sourceID)
  {
    NewSourceIDsContains(oldValue, sourceID);
  }

  /** addWorkflowSourceID as written: the attribute is cast to String, which fails with a
    * ClassCastException when it holds an Integer. */
  function NewSourceIDsAsWritten(oldValue: Option<AttrValue>, sourceID: int): Result<string, string>
  {
    if oldValue.Some? && oldValue.value.Integer? then Err("ClassCastException")
    else Ok(NewSourceIDs(oldValue, sourceID))
  }

  /** appendWorkflowNode stores each inserted node's own ID as an Integer; applying a
    * workflow to such a node then fails as written, while the intended version extends the
    * list with the node's old source ID kept. */
  lemma SourceIDsAfterWorkflowInsert(node: NodeState, sourceID: int)
    ensures NewSourceIDsAsWritten(Some(Integer(node.uniqueID)), sourceID).Err?
    ensures IntToString(node.uniqueID) in JavaSplit(NewSourceIDs(Some(Integer(node.uniqueID)), sourceID), ',')
    ensures IntToString(sourceID) in JavaSplit(NewSourceIDs(Some(Integer(node.uniqueID)), sourceID), ',')
  {
    NewSourceIDsContains(Some(Integer(node.uniqueID)), sourceID);
    var t := IntToString(node.uniqueID);
    IntToStringNoComma(node.uniqueID);
    assert Integer(node.uniqueID).ToText() == t;
    assert JavaSplit(t, ',') == [t];
    var r := NewSourceIDs(Some(Integer(node.uniqueID)), sourceID);
    if r != t {
      assert r == t + "," + IntToString(sourceID);
      SplitFirst(t, IntToString(sourceID));
    }
  }

  /** A non-empty comma-free field followed by a comma is the first field of the split. */
  lemma SplitFirst(t: string, rest: string)
    requires |t| > 0 && !ContainsChar(t, ',') && |rest| > 0 && !ContainsChar(rest, ',')
    ensures JavaSplit(t + "," + rest, ',') == [t, rest]
  {
    var s := t + "," + rest;
    assert s[|t|] == ',';
    SplitAllAppended(t, rest);
    assert SplitAll(t, ',') == [t];
  }

  // ----- calcInsertWorkflow -----

  /** appendWorkflowNode's copy of a workflow node: a clone moved by `delta` levels whose
    * workflow source ID attribute is the workflow node's own ID, stored as an Integer. */
  function WorkflowCopy(s: NodeState, delta: int): NodeState
  {
    var c := CloneState(s);
    c.(indentLevel := s.indentLevel + delta,
       attributes := c.attributes[WORKFLOW_SOURCE_IDS_ATTR := Some(Integer(s.uniqueID))])
  }

  /** A workflow copy keeps every field but the level, which moves by `delta`, and the
    * attributes, which are the clone's with the source ID set to the workflow node's ID. */
  lemma WorkflowCopySpec(s: NodeState, delta: int, k: string)
    ensures var r := WorkflowCopy(s, delta);
            r.(indentLevel := s.indentLevel, attributes := s.attributes) == s &&
            r.indentLevel == s.indentLevel + delta &&
            WORKFLOW_SOURCE_IDS_ATTR in r.attributes && r.attributes[WORKFLOW_SOURCE_IDS_ATTR] == Some(Integer(s.uniqueID)) &&
            (k != WORKFLOW_SOURCE_IDS_ATTR ==>
              (k in r.attributes <==> k in s.attributes && !IsTransient(k)) &&
              (k in r.attributes ==> r.attributes[k] == s.attributes[k]))
  {
    CloneKeepsExactlyNonTransient(s, k);
  }

  /** The states of the workflow copies, shifted by `delta`, of the nodes at positions `ps` of `W`. */
  function WorkflowCopies(W: seq<NodeState>, ps: seq<nat>, delta: int): (r: seq<NodeState>)
    requires forall k :: 0 <= k < |ps| ==> ps[k] < |W|
    ensures |r| == |ps| && forall k :: 0 <= k < |ps| ==> r[k] == WorkflowCopy(W[ps[k]], delta)
  {
    seq(|ps|, k requires 0 <= k < |ps| => WorkflowCopy(W[ps[k]], delta))
  }

  lemma ConcatAtPositions<T>(a: seq<T>, pa: seq<nat>, b: seq<T>, pb: seq<nat>, s: seq<T>)
    requires |a| == |pa| && forall k :: 0 <= k < |pa| ==> pa[k] < |s| && a[k] == s[pa[k]]
    requires |b| == |pb| && forall k :: 0 <= k < |pb| ==> pb[k] < |s| && b[k] == s[pb[k]]
    ensures |a + b| == |pa + pb|
    ensures forall k :: 0 <= k < |pa + pb| ==> (pa + pb)[k] < |s| && (a + b)[k] == s[(pa + pb)[k]]
  {
  }

  /** The names of the nodes at the listed positions. */
  function NamesAt(names: seq<string>, ps: seq<nat>): (r: set<string>)
    requires forall i :: 0 <= i < |ps| ==> ps[i] < |names|
    ensures forall i :: 0 <= i < |ps| ==> names[ps[i]] in r
    ensures forall x :: x in r ==> exists i :: 0 <= i < |ps| && names[ps[i]] == x
  {
    set i | 0 <= i < |ps| :: names[ps[i]]
  }

  /** The workflow positions calcInsertWorkflow copies: for each listed child, in order,
    * whose name is not `taken`, the child and its descendants. */
  function WorkflowSources(L: seq<int>, names: seq<string>, children: seq<nat>, taken: set<string>): (r: seq<nat>)
    requires |L| == |names| && forall i :: 0 <= i < |children| ==> children[i] < |L|
    ensures forall k :: 0 <= k < |r| ==> r[k] < |L|
  {
    if children == [] then []
    else
      var c := children[|children| - 1];
      WorkflowSources(L, names, children[..|children| - 1], taken) +
      (if names[c] in taken then [] else Range(c, DescendantEnd(L, c)))
  }

  /** Nothing is copied exactly when every child's name is taken. */
  lemma {:induction false} WorkflowSourcesAllTaken(L: seq<int>, names: seq<string>, children: seq<nat>, taken: set<string>)
    requires |L| == |names| && forall i :: 0 <= i < |children| ==> children[i] < |L|
    ensures WorkflowSources(L, names, children, taken) == [] <==>
            forall i :: 0 <= i < |children| ==> names[children[i]] in taken
  {
    if children != [] {
      var c := children[|children| - 1];
      WorkflowSourcesAllTaken(L, names, children[..|children| - 1], taken);
      assert Range(c, DescendantEnd(L, c)) != [] by { assert Range(c, DescendantEnd(L, c))[0] == c; }
    }
  }

  /** Position `m` is in the subtree of the `i`th listed child, whose name is not taken. */
  predicate InUntakenSubtree(L: seq<int>, names: seq<string>, children: seq<nat>, taken: set<string>, m: nat, i: int)
  {
    0 <= i < |children| && children[i] < |L| == |names| && names[children[i]] !in taken &&
    children[i] <= m < DescendantEnd(L, children[i])
  }

  /** The positions copied for the last listed child come after those of the others. */
  lemma WorkflowSourcesSnoc(L: seq<int>, names: seq<string>, children: seq<nat>, taken: set<string>)
    requires |L| == |names| && forall i :: 0 <= i < |children| ==> children[i] < |L|
    requires children != []
    ensures var c := children[|children| - 1];
            WorkflowSources(L, names, children, taken) ==
            WorkflowSources(L, names, children[..|children| - 1], taken) +
            (if names[c] in taken then [] else Range(c, DescendantEnd(L, c)))
  {
  }

  /** Each copied position lies in the subtree of a child whose name is not taken, and
    * every such subtree is copied whole. */
  lemma {:induction false} WorkflowSourcesAreUntakenSubtrees(L: seq<int>, names: seq<string>, children: seq<nat>, taken: set<string>, m: nat)
    requires |L| == |names| && forall i :: 0 <= i < |children| ==> children[i] < |L|
    ensures m in WorkflowSources(L, names, children, taken) <==>
            exists i :: InUntakenSubtree(L, names, children, taken, m, i)
  {
    if children != [] {
      var n := |children| - 1;
      var c := children[n];
      var prefix := children[..n];
      WorkflowSourcesAreUntakenSubtrees(L, names, prefix, taken, m);
      WorkflowSourcesSnoc(L, names, children, taken);
      var tail := if names[c] in taken then [] else Range(c, DescendantEnd(L, c));
      RangeMembers(c, DescendantEnd(L, c), m);
      if m in WorkflowSources(L, names, children, taken) {
        if m in tail {
          assert InUntakenSubtree(L, names, children, taken, m, n);
        } else {
          var i :| InUntakenSubtree(L, names, prefix, taken, m, i);
          assert InUntakenSubtree(L, names, children, taken, m, i);
        }
      }
      if exists i :: InUntakenSubtree(L, names, children, taken, m, i) {
        var i :| InUntakenSubtree(L, names, children, taken, m, i);
        if i < n {
          assert InUntakenSubtree(L, names, prefix, taken, m, i);
        } else {
          assert i == n && names[c] !in taken && c <= m < DescendantEnd(L, c);
          assert tail == Range(c, DescendantEnd(L, c));
        }
      }
    }
  }

  /** Children whose subtrees come one after another give copied positions in outline
    * order, all before the end of the last child's subtree. */
  lemma {:induction false} WorkflowSourcesOrdered(L: seq<int>, names: seq<string>, children: seq<nat>, taken: set<string>)
    requires |L| == |names| && forall i :: 0 <= i < |children| ==> children[i] < |L|
    requires forall i, j :: 0 <= i < j < |children| ==> DescendantEnd(L, children[i]) <= children[j]
    ensures var r := WorkflowSources(L, names, children, taken);
            Increasing(r) &&
            (children != [] ==> forall k :: 0 <= k < |r| ==> r[k] < DescendantEnd(L, children[|children| - 1]))
  {
    if children != [] {
      var n := |children| - 1;
      var c := children[n];
      var prefix := children[..n];
      WorkflowSourcesOrdered(L, names, prefix, taken);
      var a := WorkflowSources(L, names, prefix, taken);
      var tail := if names[c] in taken then [] else Range(c, DescendantEnd(L, c));
      if prefix != [] {
        assert DescendantEnd(L, prefix[n - 1]) <= c;
      }
      assert forall k :: 0 <= k < |a| ==> a[k] < c;
      assert forall k :: 0 <= k < |tail| ==> c <= tail[k] < DescendantEnd(L, c);
      IncreasingConcat(a, tail, c);
    }
  }

  /** The positions copied from the children of a node are in outline order, none twice. */
  lemma WorkflowSourcesOfChildren(L: seq<int>, names: seq<string>, p: nat, taken: set<string>)
    requires |L| == |names| && p < |L|
    ensures Increasing(WorkflowSources(L, names, Children(L, p), taken))
  {
    var cs := Children(L, p);
    ChildrenSpec(L, p);
    forall i, j | 0 <= i < j < |cs|
      ensures DescendantEnd(L, cs[i]) <= cs[j]
    {
      assert cs[i] in cs && cs[j] in cs;
      ChildRunsDisjoint(L, p, cs[i], cs[j]);
    }
    WorkflowSourcesOrdered(L, names, cs, taken);
  }

  /** getChildIndexes' scan after position `k`: the children so far, and the smallest level
    * seen below the parent (at `smallest`) once there is one. */
  ghost predicate ChildScan(L: seq<int>, p: nat, k: nat, r: seq<nat>, hasChild: bool, minChild: int, smallest: nat)
  {
    p < k <= |L| && r == ChildrenBelow(L, p, k) &&
    (forall m :: p < m < k ==> L[m] > L[p]) &&
    (hasChild <==> k > p + 1) &&
    (hasChild ==> (forall m :: p < m < k ==> minChild <= L[m])) &&
    (hasChild ==> p < smallest < k && L[smallest] == minChild)
  }

  lemma ChildScanNext(L: seq<int>, p: nat, k: nat, r: seq<nat>, hasChild: bool, minChild: int, smallest: nat)
    requires ChildScan(L, p, k, r, hasChild, minChild, smallest) && k < |L| && L[k] > L[p]
    ensures var take := !hasChild || L[k] <= minChild;
            ChildScan(L, p, k + 1, r + (if take then [k] else []), true,
                      if take then L[k] else minChild, if take then k else smallest)
  {
    ChildScanStep(L, p, k, hasChild, minChild, smallest);
  }

  lemma ChildScanStop(L: seq<int>, p: nat, k: nat, r: seq<nat>, hasChild: bool, minChild: int, smallest: nat)
    requires ChildScan(L, p, k, r, hasChild, minChild, smallest) && (k == |L| || L[k] <= L[p])
    ensures r == Children(L, p)
  {
    if k < |L| {
      ChildrenStopAt(L, p, k, |L|);
    }
  }

  lemma ChildScanStep(L: seq<int>, p: nat, k: nat, hasChild: bool, minChild: int, smallest: nat)
    requires p < k < |L| && L[k] > L[p]
    requires forall m :: p < m < k ==> L[m] > L[p]
    requires hasChild <==> k > p + 1
    requires hasChild ==> (forall m :: p < m < k ==> minChild <= L[m])
    requires hasChild ==> p < smallest < k && L[smallest] == minChild
    ensures IsChild(L, p, k) <==> !hasChild || L[k] <= minChild
    ensures ChildrenBelow(L, p, k + 1) == ChildrenBelow(L, p, k) + (if !hasChild || L[k] <= minChild then [k] else [])
  {
  }

  // ----- the model -----

  class WBSModel {
    /** The flat node list; the root comes first. */
    var wbsNodes: seq<WBSNode>
    /** The node position shown on each table row. */
    var rows: seq<nat>
    /** The largest node ID makeNodeIDUnique has seen. */
    var maxID: int

    function States(): (r: seq<NodeState>)
      reads this`wbsNodes, wbsNodes
      ensures |r| == |wbsNodes| && forall i {:trigger r[i]} :: 0 <= i < |wbsNodes| ==> r[i] == wbsNodes[i].State()
    {
      StatesOf(wbsNodes)
    }

    function Levels(): (r: seq<int>)
      reads this`wbsNodes, wbsNodes`indentLevel
      ensures |r| == |wbsNodes| && forall i {:trigger r[i]} :: 0 <= i < |wbsNodes| ==> r[i] == wbsNodes[i].indentLevel
    {
      LevelsOf(wbsNodes)
    }

    function Flags(): (r: seq<bool>)
      reads this`wbsNodes, wbsNodes`expanded
      ensures |r| == |wbsNodes| && forall i {:trigger r[i]} :: 0 <= i < |wbsNodes| ==> r[i] == wbsNodes[i].expanded
    {
      FlagsOf(wbsNodes)
    }

    function Ids(): (r: seq<int>)
      reads this`wbsNodes, wbsNodes`uniqueID
      ensures |r| == |wbsNodes| && forall i {:trigger r[i]} :: 0 <= i < |wbsNodes| ==> r[i] == wbsNodes[i].uniqueID
    {
      IdsOf(wbsNodes)
    }

    function Names(): (r: seq<string>)
      reads this`wbsNodes, wbsNodes`name
      ensures |r| == |wbsNodes| && forall i {:trigger r[i]} :: 0 <= i < |wbsNodes| ==> r[i] == wbsNodes[i].name
    {
      NamesOf(wbsNodes)
    }

    /** Distinct nodes, at least the root, and `rows` the current preorder walk. */
    predicate Consistent()
      reads this`wbsNodes, this`rows, wbsNodes`indentLevel, wbsNodes`expanded
    {
      Distinct(wbsNodes) && |wbsNodes| > 0 && rows == Rows(Levels(), Flags())
    }

    /** Consistent, and the root alone at level 0. */
    predicate Valid()
      reads this`wbsNodes, this`rows, wbsNodes`indentLevel, wbsNodes`expanded
    {
      Consistent() && WellFormed(Levels())
    }

    /** WBSModel(rootNodeName, createDefaultNode): a root named `rootName` (the default name
      * when it is missing or blank) and optionally one component below it. The root's ID comes
      * from `randomInt`, Random.nextInt() masked to its low 24 bits. */
    constructor (rootName: Option<string>, createDefaultNode: bool, randomInt: int)
      requires -0x8000_0000 <= randomInt < 0x8000_0000
      ensures Valid()
      ensures |wbsNodes| == (if createDefaultNode then 2 else 1)
      ensures fresh(wbsNodes[0]) && IsNewNode(wbsNodes[0], RootNodeName(rootName), PROJECT_TYPE, 0)
      ensures createDefaultNode ==>
        fresh(wbsNodes[1]) && IsNewNode(wbsNodes[1], SOFTWARE_COMPONENT_TYPE, SOFTWARE_COMPONENT_TYPE, 1)
      ensures var r := randomInt % 0x100_0000;
              if createDefaultNode then wbsNodes[0].uniqueID == r + 1 && wbsNodes[1].uniqueID == r && maxID == r
              else wbsNodes[0].uniqueID == r && maxID == 0
    {
      wbsNodes := [];
      rows := [];
      maxID := 0;
      new;
      Populate(rootName, createDefaultNode, randomInt);
    }

    /** The constructor's body on the empty model. */
    method Populate(rootName: Option<string>, createDefaultNode: bool, randomInt: int)
      requires wbsNodes == [] && maxID == 0
      modifies this`wbsNodes, this`rows, this`maxID
      ensures Valid()
      ensures |wbsNodes| == (if createDefaultNode then 2 else 1)
      ensures fresh(wbsNodes[0]) && IsNewNode(wbsNodes[0], RootNodeName(rootName), PROJECT_TYPE, 0)
      ensures createDefaultNode ==>
        fresh(wbsNodes[1]) && IsNewNode(wbsNodes[1], SOFTWARE_COMPONENT_TYPE, SOFTWARE_COMPONENT_TYPE, 1)
      ensures var r := randomInt % 0x100_0000;
              if createDefaultNode then wbsNodes[0].uniqueID == r + 1 && wbsNodes[1].uniqueID == r && maxID == r
              else wbsNodes[0].uniqueID == r && maxID == 0
    {
      var r := randomInt % 0x100_0000;
      if createDefaultNode {
        AddRootAndComponent(RootNodeName(rootName), r);
      } else {
        AddRoot(RootNodeName(rootName), r);
      }
    }

    /** Both of the constructor's steps. */
    method AddRootAndComponent(name: string, r: int)
      requires wbsNodes == [] && maxID == 0 && r >= 0
      modifies this`wbsNodes, this`rows, this`maxID
      ensures |wbsNodes| == 2 && wbsNodes[0].uniqueID == r + 1 && wbsNodes[1].uniqueID == r && maxID == r
      ensures fresh(wbsNodes[0]) && IsNewNode(wbsNodes[0], name, PROJECT_TYPE, 0)
      ensures fresh(wbsNodes[1]) && IsNewNode(wbsNodes[1], SOFTWARE_COMPONENT_TYPE, SOFTWARE_COMPONENT_TYPE, 1)
      ensures Valid()
    {
      AddRoot(name, r);
      AddDefaultComponent();
    }

    /** The constructor's first step: the root node, a "Project" at level 0, with the ID `r`. */
    method AddRoot(name: string, r: int)
      requires wbsNodes == [] && maxID == 0
      modifies this`wbsNodes, this`rows, this`maxID
      ensures |wbsNodes| == 1 && wbsNodes[0].uniqueID == r && maxID == 0
      ensures fresh(wbsNodes[0]) && IsNewNode(wbsNodes[0], name, PROJECT_TYPE, 0)
      ensures Valid()
    {
      var root := new WBSNode(name, Some(PROJECT_TYPE), 0, true);
      Add(root);
      root.uniqueID := r;
      assert wbsNodes == [root];
    }

    /** The constructor's second step: a "Software Component" node at level 1 below the
      * root, which hands its ID to the new node and takes the next one. */
    method AddDefaultComponent()
      requires |wbsNodes| == 1 && wbsNodes[0].indentLevel == 0 && maxID <= wbsNodes[0].uniqueID
      modifies this`wbsNodes, this`rows, this`maxID, wbsNodes`uniqueID
      ensures |wbsNodes| == 2 && wbsNodes[0] == old(wbsNodes[0])
      ensures wbsNodes[0].uniqueID == old(wbsNodes[0].uniqueID) + 1 && wbsNodes[1].uniqueID == old(wbsNodes[0].uniqueID)
      ensures maxID == old(wbsNodes[0].uniqueID)
      ensures fresh(wbsNodes[1]) && IsNewNode(wbsNodes[1], SOFTWARE_COMPONENT_TYPE, SOFTWARE_COMPONENT_TYPE, 1)
      ensures Valid()
    {
      var component := new WBSNode(SOFTWARE_COMPONENT_TYPE, Some(SOFTWARE_COMPONENT_TYPE), 1, true);
      assert IsNewNode(component, SOFTWARE_COMPONENT_TYPE, SOFTWARE_COMPONENT_TYPE, 1);
      ghost var id := wbsNodes[0].uniqueID;
      AddUnderRoot(component);
      assert Ids()[0] == id + 1 && Ids()[1] == id;
    }

    /** add(node) for a level-1 node without an ID below a lone root. */
    method AddUnderRoot(node: WBSNode)
      requires |wbsNodes| == 1 && wbsNodes[0].indentLevel == 0 && maxID <= wbsNodes[0].uniqueID
      requires node !in wbsNodes && node.uniqueID == -1 && node.indentLevel == 1
      modifies this`wbsNodes, this`rows, this`maxID, wbsNodes`uniqueID, node`uniqueID
      ensures wbsNodes == old(wbsNodes) + [node]
      ensures Ids() == [old(Ids()[0]) + 1, old(Ids()[0])] && maxID == old(Ids()[0])
      ensures Valid()
    {
      ghost var L, ids := Levels(), Ids();
      UniqueIdUpdateOfRoot(ids, -1, maxID);
      Add(node);
      assert Levels() == L + [1];
    }

    /** add(node): the node, its ID made unique, goes to the end of the list. */
    method Add(node: WBSNode)
      requires Distinct(wbsNodes) && node !in wbsNodes
      modifies this`wbsNodes, this`rows, this`maxID, node`uniqueID, wbsNodes`uniqueID
      ensures wbsNodes == old(wbsNodes) + [node]
      ensures var u := UniqueIdUpdate(old(Ids()), old(node.uniqueID), old(maxID));
              Ids() == u.outline + [u.node] && maxID == u.maxID
      ensures Levels() == old(Levels()) + [node.indentLevel] && Flags() == old(Flags()) + [node.expanded]
      ensures Names() == old(Names()) + [node.name]
      ensures Consistent()
    {
      MakeNodeIDUnique(node);
      AppendNode(node);
    }

    /** add(beforeRow, node): the node, its ID made unique, goes in before the node shown on
      * the clamped row, and that row is the result; past the table it is appended and the
      * result is the last row. The node must not be in the list already. */
    method AddBefore(beforeRow: int, newNode: WBSNode) returns (row: int)
      requires Consistent() && newNode !in wbsNodes
      modifies this`wbsNodes, this`rows, this`maxID, wbsNodes`uniqueID, newNode`uniqueID
      ensures var p := AddPos(old(rows), old(|wbsNodes|), beforeRow);
              var u := UniqueIdUpdate(old(Ids()), old(newNode.uniqueID), old(maxID));
              1 <= p <= old(|wbsNodes|) &&
              wbsNodes == old(wbsNodes)[..p] + [newNode] + old(wbsNodes)[p..] &&
              Ids() == u.outline[..p] + [u.node] + u.outline[p..] && maxID == u.maxID &&
              Levels() == old(Levels())[..p] + [newNode.indentLevel] + old(Levels())[p..] &&
              Flags() == old(Flags())[..p] + [newNode.expanded] + old(Flags())[p..]
      ensures row == if ClampRow(beforeRow) >= old(|rows|) then |rows| - 1 else ClampRow(beforeRow)
      ensures Consistent()
    {
      var b := if beforeRow < 1 then 1 else beforeRow;
      AddPosAfterRoot(Levels(), Flags(), beforeRow);
      if b >= |rows| {
        InsertOne(newNode, |wbsNodes|);
        return |rows| - 1;
      }
      var beforePos := rows[b];
      InsertOne(newNode, beforePos);
      return b;
    }

    /** One node, its ID made unique, enters the list at `p`; the rows are recalculated. */
    method InsertOne(node: WBSNode, p: nat)
      requires Distinct(wbsNodes) && node !in wbsNodes && p <= |wbsNodes|
      modifies this`wbsNodes, this`rows, this`maxID, wbsNodes`uniqueID, node`uniqueID
      ensures wbsNodes == old(wbsNodes)[..p] + [node] + old(wbsNodes)[p..]
      ensures var u := UniqueIdUpdate(old(Ids()), old(node.uniqueID), old(maxID));
              Ids() == u.outline[..p] + [u.node] + u.outline[p..] && maxID == u.maxID
      ensures Levels() == old(Levels())[..p] + [node.indentLevel] + old(Levels())[p..]
      ensures Flags() == old(Flags())[..p] + [node.expanded] + old(Flags())[p..]
      ensures Consistent()
    {
      MakeNodeIDUnique(node);
      SpliceOne(node, p, Ids(), node.uniqueID);
    }

    /** The node enters the list at `p` and the rows are recalculated. */
    method SpliceOne(node: WBSNode, p: nat, ghost ids: seq<int>, ghost id: int)
      requires Distinct(wbsNodes) && node !in wbsNodes && p <= |wbsNodes|
      requires Ids() == ids && node.uniqueID == id
      modifies this`wbsNodes, this`rows
      ensures wbsNodes == old(wbsNodes)[..p] + [node] + old(wbsNodes)[p..]
      ensures Ids() == ids[..p] + [id] + ids[p..]
      ensures Levels() == old(Levels())[..p] + [node.indentLevel] + old(Levels())[p..]
      ensures Flags() == old(Flags())[..p] + [node.expanded] + old(Flags())[p..]
      ensures Consistent()
    {
      assert IdsOf([node]) == [node.uniqueID];
      assert LevelsOf([node]) == [node.indentLevel] && FlagsOf([node]) == [node.expanded];
      SpliceNodes([node], p);
      RecalcRows();
    }

    /** The list grows by one node, every view by that node's field, and the rows are
      * recalculated. */
    method AppendNode(node: WBSNode)
      requires Distinct(wbsNodes) && node !in wbsNodes
      modifies this`wbsNodes, this`rows
      ensures wbsNodes == old(wbsNodes) + [node]
      ensures Ids() == old(Ids()) + [node.uniqueID] && Names() == old(Names()) + [node.name]
      ensures Levels() == old(Levels()) + [node.indentLevel] && Flags() == old(Flags()) + [node.expanded]
      ensures Consistent()
    {
      wbsNodes := wbsNodes + [node];
      assert wbsNodes[..|wbsNodes| - 1] == old(wbsNodes);
      RecalcRows();
    }

    /** makeNodeIDUnique: a node whose ID is not positive or is already in use takes the root's
      * ID, and the root takes one more than the largest ID seen (in an empty list the node
      * takes that number itself). */
    method MakeNodeIDUnique(node: WBSNode)
      requires Distinct(wbsNodes) && node !in wbsNodes
      modifies this`maxID, node`uniqueID, wbsNodes`uniqueID
      ensures var u := UniqueIdUpdate(old(Ids()), old(node.uniqueID), old(maxID));
              Ids() == u.outline && node.uniqueID == u.node && maxID == u.maxID
    {
      ghost var ids := Ids();
      ghost var u := UniqueIdUpdate(ids, node.uniqueID, maxID);
      var m, isUnique := ScanIds(node.uniqueID);
      if !isUnique {
        assert u == if ids == [] then IdUpdate(ids, m + 1, m) else IdUpdate(ids[0 := m + 1], ids[0], m);
        RenumberNode(node, m, ids);
      } else {
        assert u == IdUpdate(ids, node.uniqueID, m);
      }
      assert IdUpdate(Ids(), node.uniqueID, m) == u;
      maxID := m;
    }

    /** makeNodeIDUnique when the node's ID cannot stay: it takes the root's ID and the root
      * one more than the largest ID `m`, or, in an empty list, that number itself. */
    method RenumberNode(node: WBSNode, m: int, ghost ids: seq<int>)
      requires Distinct(wbsNodes) && node !in wbsNodes && Ids() == ids
      modifies node`uniqueID, wbsNodes`uniqueID
      ensures IdUpdate(Ids(), node.uniqueID, m) ==
        if ids == [] then IdUpdate(ids, m + 1, m) else IdUpdate(ids[0 := m + 1], ids[0], m)
    {
      if |wbsNodes| == 0 {
        node.uniqueID := m + 1;
        assert Ids() == [] == ids;
      } else {
        RenumberRoot(node, wbsNodes[0], m);
      }
    }

    /** The renumbering step of makeNodeIDUnique: the node takes the root's ID and the root
      * takes one more than the largest ID `m`. */
    method RenumberRoot(node: WBSNode, root: WBSNode, m: int)
      requires Distinct(wbsNodes) && node !in wbsNodes && |wbsNodes| > 0 && root == wbsNodes[0]
      modifies node`uniqueID, root`uniqueID
      ensures node.uniqueID == old(root.uniqueID)
      ensures Ids() == old(Ids())[0 := m + 1]
      ensures Levels() == old(Levels()) && Flags() == old(Flags()) && Names() == old(Names())
    {
      node.uniqueID := root.uniqueID;
      root.uniqueID := m + 1;
      assert forall i :: 1 <= i < |wbsNodes| ==> wbsNodes[i] != root && wbsNodes[i] != node;
    }

    /** makeNodeIDUnique's scan: the largest ID seen, and whether `currentID` is positive and
      * held by no node. */
    method ScanIds(currentID: int) returns (m: int, isUnique: bool)
      ensures m == MaxOf(maxID, Ids())
      ensures isUnique <==> currentID > 0 && currentID !in Ids()
    {
      isUnique := currentID > 0;
      ghost var ids := Ids();
      m := maxID;
      for i := 0 to |wbsNodes|
        invariant m == MaxOf(maxID, ids[..i])
        invariant isUnique <==> currentID > 0 && currentID !in ids[..i]
      {
        var oneID := wbsNodes[i].uniqueID;
        assert ids[..i + 1] == ids[..i] + [oneID];
        m := if m >= oneID then m else oneID;
        if oneID == currentID {
          isUnique := false;
        }
      }
      assert ids[..|wbsNodes|] == ids;
    }

    /** recalcRows: the rows become the preorder walk of the current list. */
    method RecalcRows()
      requires |wbsNodes| > 0
      modifies this`rows
      ensures rows == Rows(Levels(), Flags())
    {
      var result := AppendVisible([], 0);
      rows := result;
    }

    /** recalcRows(resultList, nodePos): the walk from `pos` appended to `acc`. */
    method AppendVisible(acc: seq<nat>, pos: nat) returns (result: seq<nat>)
      requires pos < |wbsNodes|
      ensures result == acc + Visible(Levels(), Flags(), pos)
      ensures Levels() == old(Levels()) && Flags() == old(Flags())
      decreases |wbsNodes| - pos, 1
    {
      result := acc + [pos];
      var node := wbsNodes[pos];
      if pos == 0 || node.expanded {
        var children := ChildIndexesAt(pos);
        result := AppendChildren(result, pos, children);
      }
    }

    /** The loop of recalcRows over the children of `pos`. */
    method AppendChildren(acc: seq<nat>, pos: nat, children: seq<nat>) returns (result: seq<nat>)
      requires pos < |wbsNodes| && children == Children(Levels(), pos)
      ensures result == acc + VisibleKids(Levels(), Flags(), pos, children)
      decreases |wbsNodes| - pos, 0
    {
      ghost var L, E := Levels(), Flags();
      result := acc;
      for i := 0 to |children|
        invariant result == acc + VisibleKids(L, E, pos, children[..i])
      {
        VisibleKidsSnoc(L, E, pos, children, i);
        result := AppendVisible(result, children[i]);
      }
      assert children[..|children|] == children;
    }

    /** getIndexOfNode: the node's position, or -1. */
    method IndexOfNode(n: WBSNode) returns (pos: int)
      ensures pos == PositionOf(wbsNodes, n)
    {
      for i := 0 to |wbsNodes|
        invariant n !in wbsNodes[..i]
      {
        if wbsNodes[i] == n {
          return i;
        }
        assert wbsNodes[..i + 1] == wbsNodes[..i] + [wbsNodes[i]];
      }
      assert wbsNodes[..|wbsNodes|] == wbsNodes;
      return -1;
    }

    /** getParent: the nearest earlier node with a smaller level, or null when there is none
      * or the node is not in the list. */
    method GetParent(n: WBSNode?) returns (parent: WBSNode?)
      ensures n == null || n !in wbsNodes ==> parent == null
      ensures n != null && n in wbsNodes ==>
        match ParentIndex(Levels(), PositionOf(wbsNodes, n))
        case None => parent == null
        case Some(j) => parent == wbsNodes[j]
    {
      if n == null {
        return null;
      }
      var pos := IndexOfNode(n);
      if pos == -1 {
        return null;
      }
      ghost var L := Levels();
      var level := n.indentLevel;
      var j := pos;
      while j > 0
        invariant 0 <= j <= pos
        invariant ParentBelow(L, level, j) == ParentIndex(L, pos)
      {
        j := j - 1;
        var candidate := wbsNodes[j];
        if candidate.indentLevel < level {
          return candidate;
        }
      }
      return null;
    }

    /** getFullName: the path of names from the root, or None for a node not in the list. */
    method GetFullName(n: WBSNode) returns (name: Option<string>)
      requires Distinct(wbsNodes) && |wbsNodes| > 0
      ensures name == if n !in wbsNodes then None else FullName(Levels(), Names(), PositionOf(wbsNodes, n))
      decreases PositionOf(wbsNodes, n) + 1
    {
      var parent := GetParent(n);
      if parent != null {
        var j := ParentIndex(Levels(), PositionOf(wbsNodes, n)).value;
        assert PositionOf(wbsNodes, parent) == j;
        var prefix := GetFullName(parent);
        return Some((if prefix.Some? then prefix.value else "null") + "/" + n.name);
      } else if n == wbsNodes[0] {
        return Some("/" + n.name);
      } else {
        return None;
      }
    }

    /** getChildIndexes(node): None for a node not in the list, else its children. */
    method GetChildIndexes(n: WBSNode) returns (r: Option<seq<nat>>)
      ensures n !in wbsNodes ==> r.None?
      ensures n in wbsNodes ==> r == Some(Children(Levels(), PositionOf(wbsNodes, n)))
    {
      var pos := IndexOfNode(n);
      if pos == -1 {
        return None;
      }
      var children := ChildIndexesAt(pos);
      return Some(children);
    }

    /** getChildIndexes(node, pos): the following nodes, up to the first one not deeper than
      * the parent, that are no deeper than every child before them. */
    method ChildIndexesAt(pos: nat) returns (r: seq<nat>)
      requires pos < |wbsNodes|
      ensures r == Children(Levels(), pos)
    {
      ghost var L := Levels();
      var parentLevel := wbsNodes[pos].indentLevel;
      assert parentLevel == L[pos];
      var hasChild := false;
      var minChild := 0;
      ghost var smallest := pos;
      r := [];
      var k := pos + 1;
      while k < |wbsNodes|
        invariant ChildScan(L, pos, k, r, hasChild, minChild, smallest)
      {
        var level := wbsNodes[k].indentLevel;
        assert level == L[k];
        if level <= parentLevel {
          ChildScanStop(L, pos, k, r, hasChild, minChild, smallest);
          return;
        }
        ChildScanNext(L, pos, k, r, hasChild, minChild, smallest);
        if !hasChild || level <= minChild {
          r := r + [k];
          minChild := level;
          smallest := k;
        }
        hasChild := true;
        k := k + 1;
      }
      ChildScanStop(L, pos, k, r, hasChild, minChild, smallest);
    }

    /** getDescendantIndexes(node, pos): the positions after `pos` as long as they are deeper
      * than `node` (the node at `pos` when none is given). */
    method GetDescendantIndexes(node: WBSNode?, pos: int) returns (r: seq<nat>)
      requires -1 <= pos < |wbsNodes| && (node == null ==> pos >= 0)
      ensures var level := if node == null then Levels()[pos] else node.indentLevel;
              r == Range(pos + 1, RunEnd(Levels(), level, pos + 1))
      ensures pos >= 0 && (node == null || node == wbsNodes[pos]) ==> r == Descendants(Levels(), pos)
    {
      var n := if node == null then wbsNodes[pos] else node;
      r := RunFrom(n.indentLevel, pos + 1);
    }

    /** The positions from `start` on as long as they are deeper than `level`. */
    method RunFrom(level: int, start: nat) returns (r: seq<nat>)
      requires start <= |wbsNodes|
      ensures r == Range(start, RunEnd(Levels(), level, start))
    {
      ghost var L := Levels();
      r := [];
      var k := start;
      while k < |wbsNodes| && wbsNodes[k].indentLevel > level
        invariant start <= k <= |wbsNodes|
        invariant forall m :: start <= m < k ==> L[m] > level
        invariant r == Range(start, k)
      {
        RangeSnoc(start, k);
        r := r + [k];
        k := k + 1;
      }
      RunEndIs(L, level, start, k);
    }

    /** makeVisible(nodePos): each ancestor of the node at `pos` is expanded, walking up
      * from parent to parent, and the rows are recalculated; a position outside the list
      * changes nothing. */
    method MakeVisible(pos: int)
      requires Consistent()
      modifies wbsNodes`expanded, this`rows
      ensures 0 <= pos < |wbsNodes| ==> Flags() == ExpandAll(old(Flags()), Ancestors(Levels(), pos))
      ensures !(0 <= pos < |wbsNodes|) ==> Flags() == old(Flags()) && rows == old(rows)
      ensures Consistent()
    {
      if pos < 0 || pos > |wbsNodes| - 1 {
        return;
      }
      ghost var L := Levels();
      ExpandAncestors(pos);
      ghost var F := Flags();
      RecalcRows();
      assert Levels() == L && Flags() == F;
    }

    /** makeVisible's walk: each parent in turn, up to the root, is set to expanded. */
    method ExpandAncestors(pos: nat)
      requires Distinct(wbsNodes) && pos < |wbsNodes|
      modifies wbsNodes`expanded
      ensures Flags() == ExpandAll(old(Flags()), Ancestors(Levels(), pos))
    {
      ghost var L, E := Levels(), Flags();
      var j: nat := pos;
      while true
        invariant j < |wbsNodes| && Levels() == L
        invariant ExpandAll(Flags(), Ancestors(L, j)) == ExpandAll(E, Ancestors(L, pos))
        decreases j
      {
        var parent := ParentPosition(j);
        if parent.None? {
          break;
        }
        var q := parent.value;
        ExpandAllCons(Flags(), q, Ancestors(L, q));
        SetExpanded(wbsNodes[q], q);
        j := q;
      }
    }

    /** getParent's scan on positions: the nearest earlier position with a smaller level. */
    method ParentPosition(pos: nat) returns (parent: Option<nat>)
      requires pos < |wbsNodes|
      ensures parent == ParentIndex(Levels(), pos)
    {
      ghost var L := Levels();
      var level := wbsNodes[pos].indentLevel;
      var j := pos;
      while j > 0
        invariant 0 <= j <= pos
        invariant ParentBelow(L, level, j) == ParentIndex(L, pos)
      {
        j := j - 1;
        if wbsNodes[j].indentLevel < level {
          return Some(j);
        }
      }
      return None;
    }

    /** setExpanded(true) on the node at position `k`. */
    method SetExpanded(node: WBSNode, k: nat)
      requires Distinct(wbsNodes) && k < |wbsNodes| && node == wbsNodes[k]
      modifies node`expanded
      ensures Flags() == old(Flags())[k := true]
    {
      node.expanded := true;
      assert forall i :: 0 <= i < |wbsNodes| && i != k ==> wbsNodes[i] != node;
    }

    /** makeVisible(nodePosList): makeVisible for each listed position that is not a row when
      * it is reached; the result tells whether any was not. */
    method MakeVisibleList(ps: seq<int>) returns (expandedNodes: bool)
      requires Consistent()
      modifies wbsNodes`expanded, this`rows
      ensures Flags() == ShowEach(Levels(), old(Flags()), ps, true)
      ensures expandedNodes == AnyHidden(Levels(), old(Flags()), ps)
      ensures Consistent()
    {
      ghost var L, E := Levels(), Flags();
      expandedNodes := false;
      for i := 0 to |ps|
        invariant Levels() == L && Consistent()
        invariant Flags() == ShowEach(L, E, ps[..i], true)
        invariant expandedNodes == AnyHidden(L, E, ps[..i])
      {
        expandedNodes := MakeVisibleStep(ps, i, L, E, expandedNodes);
      }
      assert ps[..|ps|] == ps;
    }

    /** Step `i` of makeVisible(nodePosList), accumulating whether a node was hidden. */
    method MakeVisibleStep(ps: seq<int>, i: nat, ghost L: seq<int>, ghost E: seq<bool>, acc: bool)
      returns (expandedNodes: bool)
      requires i < |ps| && Consistent() && Levels() == L && |E| == |L|
      requires Flags() == ShowEach(L, E, ps[..i], true) && acc == AnyHidden(L, E, ps[..i])
      modifies wbsNodes`expanded, this`rows
      ensures Levels() == L && Consistent()
      ensures Flags() == ShowEach(L, E, ps[..i + 1], true) && expandedNodes == AnyHidden(L, E, ps[..i + 1])
    {
      ShowEachSnoc(L, Flags(), E, ps, i, true);
      AnyHiddenSnoc(L, Flags(), E, ps, i);
      var hidden := MakeVisibleIfHidden(ps[i]);
      expandedNodes := acc || hidden;
    }

    /** One step of makeVisible(nodePosList): a position that is not a row is made visible. */
    method MakeVisibleIfHidden(p: int) returns (hidden: bool)
      requires Consistent()
      modifies wbsNodes`expanded, this`rows
      ensures hidden == (p !in old(rows))
      ensures Flags() == if 0 <= p < |wbsNodes| && p !in old(rows) then ExpandAll(old(Flags()), Ancestors(Levels(), p)) else old(Flags())
      ensures Consistent()
    {
      var row := NodePosToRow(p);
      hidden := row == -1;
      if hidden {
        MakeVisible(p);
      }
    }

    /** getNodeForRow: the node shown on `row`, or null outside the table. */
    method GetNodeForRow(row: int) returns (node: WBSNode?)
      requires Consistent()
      ensures !(0 <= row < |rows|) ==> node == null
      ensures 0 <= row < |rows| ==> node == wbsNodes[rows[row]]
    {
      if row < 0 || row >= |rows| {
        return null;
      }
      RowsShape(Levels(), Flags());
      return wbsNodes[rows[row]];
    }

    /** getIndexesForRows: the positions shown on the listed rows, each collapsed node with
      * its hidden descendants. */
    method GetIndexesForRows(rowNumbers: seq<int>, excludeRoot: bool) returns (r: seq<nat>)
      requires Consistent()
      ensures r == IndexesForRows(Levels(), Flags(), rows, rowNumbers, excludeRoot)
    {
      ghost var L, E := Levels(), Flags();
      RowsShape(L, E);
      r := [];
      for i := 0 to |rowNumbers|
        invariant r == IndexesForRows(L, E, rows, rowNumbers[..i], excludeRoot)
      {
        assert rowNumbers[..i + 1][..i] == rowNumbers[..i];
        var rn := rowNumbers[i];
        if rn == 0 && excludeRoot {
          continue;
        }
        var node := GetNodeForRow(rn);
        if node == null {
          continue;
        }
        r := r + [rows[rn]];
        if !node.expanded {
          var d := GetDescendantIndexes(node, rows[rn]);
          r := r + d;
        }
      }
      assert rowNumbers[..|rowNumbers|] == rowNumbers;
    }

    /** indentNodes' legality loop, run only for an outdent. */
    method CheckIndent(xs: seq<nat>, delta: int) returns (legal: bool)
      requires forall i :: 0 <= i < |xs| ==> xs[i] < |wbsNodes|
      ensures legal == IndentLegal(Levels(), xs, delta)
    {
      if delta < 0 {
        for i := 0 to |xs|
          invariant forall j :: 0 <= j < i ==> Levels()[xs[j]] + delta >= 1
        {
          if wbsNodes[xs[i]].indentLevel + delta < 1 {
            return false;
          }
        }
      }
      return true;
    }

    /** indentNodes' second loop: each listed node's level moves by `delta`. */
    method ShiftLevels(xs: seq<nat>, delta: int)
      requires Distinct(wbsNodes) && forall i :: 0 <= i < |xs| ==> xs[i] < |wbsNodes|
      modifies wbsNodes`indentLevel
      ensures Levels() == Indented(old(Levels()), xs, delta)
    {
      ghost var L := Levels();
      for i := 0 to |xs|
        invariant Levels() == Indented(L, xs[..i], delta)
      {
        assert xs[..i + 1][..i] == xs[..i];
        var n := wbsNodes[xs[i]];
        SetIndentLevel(n, xs[i], n.indentLevel + delta);
      }
      assert xs[..|xs|] == xs;
    }

    /** setIndentLevel on the node at position `k`. */
    method SetIndentLevel(node: WBSNode, k: nat, level: int)
      requires Distinct(wbsNodes) && k < |wbsNodes| && node == wbsNodes[k]
      modifies node`indentLevel
      ensures Levels() == old(Levels())[k := level]
    {
      node.indentLevel := level;
      assert forall i :: 0 <= i < |wbsNodes| && i != k ==> wbsNodes[i] != node;
    }

    /** indentNodes' last loop: the rows now showing the listed positions. */
    method SelectedRows(xs: seq<nat>) returns (r: seq<int>)
      ensures r == PositionRows(rows, xs)
    {
      r := [];
      for i := 0 to |xs|
        invariant r == PositionRows(rows, xs[..i])
      {
        assert xs[..i + 1][..i] == xs[..i];
        var row := NodePosToRow(xs[i]);
        if row != -1 {
          r := r + [row];
        }
      }
      assert xs[..|xs|] == xs;
    }

    /** indentNodes: None, with nothing changed, for a zero delta or an outdent that would
      * bring a listed node (or a hidden descendant of a listed collapsed node) below level 1.
      * Otherwise those nodes move by `delta`, the rows visible before are made visible again,
      * and the result is the rows now showing the moved nodes. In a well-formed tree an indent
      * of distinct positions keeps the tree well formed and every row visible before visible. */
    method IndentNodes(rowNumbers: seq<int>, delta: int) returns (r: Option<seq<int>>)
      requires Consistent()
      modifies wbsNodes`indentLevel, wbsNodes`expanded, this`rows
      ensures var xs := IndexesForRows(old(Levels()), old(Flags()), old(rows), rowNumbers, true);
              (r.None? <==> delta == 0 || !IndentLegal(old(Levels()), xs, delta)) &&
              (r.None? ==> Levels() == old(Levels()) && Flags() == old(Flags()) && rows == old(rows)) &&
              (r.Some? ==>
                Levels() == Indented(old(Levels()), xs, delta) &&
                Flags() == ShowEach(Levels(), old(Flags()), old(rows), true) &&
                r.value == PositionRows(rows, xs))
      ensures Consistent()
      ensures var xs := IndexesForRows(old(Levels()), old(Flags()), old(rows), rowNumbers, true);
              WellFormed(old(Levels())) && Distinct(xs) ==>
                WellFormed(Levels()) && forall i :: 0 <= i < |old(rows)| ==> old(rows)[i] in rows
    {
      if delta == 0 {
        return None;
      }
      ghost var L0, E0, R0 := Levels(), Flags(), rows;
      var xs := GetIndexesForRows(rowNumbers, true);
      var legal := CheckIndent(xs, delta);
      if !legal {
        return None;
      }
      var selected := ApplyIndent(xs, delta);
      if WellFormed(L0) && Distinct(xs) {
        IndexesForRowsSkipRoot(L0, E0, rowNumbers);
        IndentKeepsWellFormed(L0, xs, delta);
        forall i | 0 <= i < |R0|
          ensures R0[i] in rows
        {
          ShowEachShows(Levels(), E0, R0, true, i);
        }
      }
      return Some(selected);
    }

    /** The changing half of indentNodes, once the indent is known to be legal. */
    method ApplyIndent(xs: seq<nat>, delta: int) returns (selected: seq<int>)
      requires Consistent() && forall i :: 0 <= i < |xs| ==> xs[i] < |wbsNodes|
      modifies wbsNodes`indentLevel, wbsNodes`expanded, this`rows
      ensures Levels() == Indented(old(Levels()), xs, delta)
      ensures Flags() == ShowEach(Levels(), old(Flags()), old(rows), true)
      ensures selected == PositionRows(rows, xs)
      ensures Consistent()
    {
      var oldVisibleRows := rows;
      ghost var E := Flags();
      ShiftLevels(xs, delta);
      ghost var L := Levels();
      assert Flags() == E;
      RecalcRows();
      var _ := MakeVisibleList(oldVisibleRows);
      assert Levels() == L;
      selected := SelectedRows(xs);
    }

    /** The nodes on the rows, in row order. */
    method VisibleNodes() returns (vs: seq<WBSNode>)
      requires Consistent()
      ensures vs == NodesOnRows(wbsNodes, rows)
    {
      RowsShape(Levels(), Flags());
      vs := [];
      for i := 0 to |rows|
        invariant vs == NodesOnRows(wbsNodes, rows[..i])
      {
        vs := vs + [wbsNodes[rows[i]]];
      }
      assert rows[..|rows|] == rows;
    }

    /** makeVisible(indexOf(n)) for each listed node in turn. */
    method MakeVisibleNodes(vs: seq<WBSNode>)
      requires Consistent()
      modifies wbsNodes`expanded, this`rows
      ensures Flags() == ShowEach(Levels(), old(Flags()), PositionsIn(wbsNodes, vs), false)
      ensures Consistent()
    {
      ghost var L, E := Levels(), Flags();
      ghost var ps := PositionsIn(wbsNodes, vs);
      for i := 0 to |vs|
        invariant Levels() == L && Consistent()
        invariant Flags() == ShowEach(L, E, ps[..i], false)
      {
        MakeVisibleNode(vs, i, L, E, ps);
      }
      assert ps[..|vs|] == ps;
    }

    /** One turn of makeVisibleNodes' loop: the i-th listed node is made visible. */
    method MakeVisibleNode(vs: seq<WBSNode>, i: nat, ghost L: seq<int>, ghost E: seq<bool>, ghost ps: seq<int>)
      requires Consistent() && Levels() == L && |E| == |L|
      requires i < |vs| && ps == PositionsIn(wbsNodes, vs)
      requires Flags() == ShowEach(L, E, ps[..i], false)
      modifies wbsNodes`expanded, this`rows
      ensures Levels() == L && Consistent()
      ensures Flags() == ShowEach(L, E, ps[..i + 1], false)
    {
      ShowEachSnoc(L, Flags(), E, ps, i, false);
      var pos := IndexOfNode(vs[i]);
      MakeVisible(pos);
    }

    /** List.remove(x): the first occurrence of `x` goes; the result tells whether there was one. */
    method RemoveNode(x: WBSNode) returns (found: bool)
      modifies this`wbsNodes
      ensures wbsNodes == RemoveFirst(old(wbsNodes), x)
      ensures found <==> x in old(wbsNodes)
    {
      var pos := IndexOfNode(x);
      if pos == -1 {
        return false;
      }
      wbsNodes := wbsNodes[..pos] + wbsNodes[pos + 1..];
      return true;
    }

    /** deleteNodes' removal loop. */
    method RemoveNodes(del: seq<WBSNode>) returns (deletionOccurred: bool)
      requires Distinct(wbsNodes)
      modifies this`wbsNodes
      ensures wbsNodes == Without(old(wbsNodes), del)
      ensures deletionOccurred <==> exists i :: 0 <= i < |del| && del[i] in old(wbsNodes)
    {
      ghost var s := wbsNodes;
      WithoutNone(s, []);
      deletionOccurred := false;
      for i := 0 to |del|
        invariant wbsNodes == Without(s, del[..i])
        invariant deletionOccurred <==> AnyListedIn(del, i, s)
      {
        var found := RemoveStep(s, del[..i], del[i]);
        RemovedStep(s, del, i, found);
        deletionOccurred := deletionOccurred || found;
      }
      assert del[..|del|] == del;
    }

    /** One more listed node: the prefix grows by it, and some node of the longer prefix was
      * in the list exactly when one of the shorter was or this one was found. */
    lemma RemovedStep(s: seq<WBSNode>, del: seq<WBSNode>, i: nat, found: bool)
      requires i < |del| && (found <==> del[i] in s && del[i] !in del[..i])
      ensures del[..i + 1] == del[..i] + [del[i]]
      ensures AnyListedIn(del, i + 1, s) <==> AnyListedIn(del, i, s) || found
    {
      assert del[..i + 1] == del[..i] + [del[i]];
      if del[i] in s && del[i] in del[..i] {
        var j :| 0 <= j < i && del[..i][j] == del[i];
        assert del[j] in s;
      }
    }

    /** One removal of deleteNodes' loop, over the list `s` it started from. */
    method RemoveStep(ghost s: seq<WBSNode>, ghost done: seq<WBSNode>, x: WBSNode) returns (found: bool)
      requires Distinct(s) && wbsNodes == Without(s, done)
      modifies this`wbsNodes
      ensures wbsNodes == Without(s, done + [x])
      ensures found <==> x in s && x !in done
    {
      RemoveFirstWithout(s, done, x);
      WithoutMembers(s, done, x);
      found := RemoveNode(x);
    }

    /** deleteNodes: the listed nodes leave the list; when any was present, the rows are
      * recalculated and each node visible before that is still in the list is made visible
      * again. The result tells whether any node was deleted. The source fails on an empty
      * list, so some node must remain. */
    method DeleteNodes(del: seq<WBSNode>) returns (deletionOccurred: bool)
      requires Consistent() && |Without(wbsNodes, del)| > 0
      modifies this`wbsNodes, this`rows, wbsNodes`expanded
      ensures wbsNodes == Without(old(wbsNodes), del)
      ensures deletionOccurred <==> exists i :: 0 <= i < |del| && del[i] in old(wbsNodes)
      ensures !deletionOccurred ==> rows == old(rows) && Flags() == old(Flags())
      ensures deletionOccurred ==>
        Flags() == ShowEach(Levels(), old(FlagsOf(Without(wbsNodes, del))),
                            PositionsIn(wbsNodes, old(NodesOnRows(wbsNodes, rows))), false)
      ensures FlagsOf(del) == old(FlagsOf(del))
      ensures Consistent()
      ensures old(WellFormed(Levels())) && old(wbsNodes[0]) !in del ==> WellFormed(Levels())
    {
      ghost var s, R := wbsNodes, rows;
      ghost var E := FlagsOf(Without(s, del));
      ghost var wf := WellFormed(Levels()) && s[0] !in del;
      WithoutDistinct(s, del);
      var currentVisibleNodes := VisibleNodes();
      deletionOccurred := RemoveNodes(del);
      assert Flags() == E;
      if wf {
        WithoutKeepsWellFormed(s, del);
      }
      ghost var L := Levels();
      if deletionOccurred {
        forall i | 0 <= i < |wbsNodes|
          ensures wbsNodes[i] in s
        {
          WithoutMembers(s, del, wbsNodes[i]);
        }
        forall i | 0 <= i < |del|
          ensures del[i] !in wbsNodes
        {
          WithoutMembers(s, del, del[i]);
        }
        RecalcAndShow(currentVisibleNodes, Ids(), L);
      } else {
        assert wbsNodes == s by {
          forall x | x in del
            ensures x !in s
          {
            var i :| 0 <= i < |del| && del[i] == x;
          }
          WithoutNone(s, del);
        }
      }
    }

    /** deleteNodes' second half: recalcRows, then makeVisible for each listed node. */
    method RecalcAndShow(vs: seq<WBSNode>, ghost ids: seq<int>, ghost levels: seq<int>)
      requires Distinct(wbsNodes) && |wbsNodes| > 0
      requires Ids() == ids && Levels() == levels
      modifies this`rows, wbsNodes`expanded
      ensures Flags() == ShowEach(levels, old(Flags()), PositionsIn(wbsNodes, vs), false)
      ensures Ids() == ids && Levels() == levels
      ensures Consistent()
    {
      RecalcRows();
      MakeVisibleNodes(vs);
    }

    /** prepareNodesForInsertion: makeNodeIDUnique for each node of the batch in turn, each
      * checked against the list alone. */
    method PrepareNodes(nodes: seq<WBSNode>)
      requires Distinct(wbsNodes) && Distinct(nodes)
      requires forall i :: 0 <= i < |nodes| ==> nodes[i] !in wbsNodes
      modifies this`maxID, wbsNodes`uniqueID, nodes`uniqueID
      ensures var b := PrepareBatch(old(Ids()), old(IdsOf(nodes)), old(maxID));
              Ids() == b.outline && IdsOf(nodes) == b.batch && maxID == b.maxID
    {
      ghost var ids, batch, m := Ids(), IdsOf(nodes), maxID;
      for i := 0 to |nodes|
        invariant Prepared(nodes, PrepareBatch(ids, batch[..i], m), batch[i..])
      {
        PrepareStep(nodes, i, ids, batch, m);
      }
      assert batch[..|nodes|] == batch;
    }

    /** Step `i` of prepareNodesForInsertion, on the batch's original IDs. */
    method PrepareStep(nodes: seq<WBSNode>, i: nat, ghost ids: seq<int>, ghost batch: seq<int>, ghost m: int)
      requires Distinct(wbsNodes) && Distinct(nodes) && i < |nodes| == |batch|
      requires forall k :: 0 <= k < |nodes| ==> nodes[k] !in wbsNodes
      requires Prepared(nodes, PrepareBatch(ids, batch[..i], m), batch[i..])
      modifies this`maxID, wbsNodes`uniqueID, nodes`uniqueID
      ensures Prepared(nodes, PrepareBatch(ids, batch[..i + 1], m), batch[i + 1..])
    {
      PrepareBatchSnoc(ids, batch, m, i);
      PrepareOne(nodes, i, PrepareBatch(ids, batch[..i], m), batch[i..]);
      assert batch[i..][1..] == batch[i + 1..];
    }

    /** The IDs of the outline, the batch and maxID once the batch's IDs before `rest` have
      * been made unique as `b` says. */
    ghost predicate Prepared(nodes: seq<WBSNode>, b: BatchUpdate, rest: seq<int>)
      reads this`wbsNodes, this`maxID, wbsNodes`uniqueID, nodes`uniqueID
    {
      Ids() == b.outline && maxID == b.maxID && IdsOf(nodes) == b.batch + rest
    }

    /** The batch node at `i` is made unique. */
    method PrepareOne(nodes: seq<WBSNode>, i: nat, ghost b: BatchUpdate, ghost rest: seq<int>)
      requires Distinct(wbsNodes) && Distinct(nodes) && i < |nodes| && i == |b.batch| && |rest| > 0
      requires forall k :: 0 <= k < |nodes| ==> nodes[k] !in wbsNodes
      requires Prepared(nodes, b, rest)
      modifies this`maxID, wbsNodes`uniqueID, nodes`uniqueID
      ensures var u := UniqueIdUpdate(b.outline, rest[0], b.maxID);
              Prepared(nodes, BatchUpdate(u.outline, b.batch + [u.node], u.maxID), rest[1..])
    {
      assert IdsOf(nodes)[i] == rest[0];
      ghost var u := UniqueIdUpdate(b.outline, rest[0], b.maxID);
      assert (b.batch + rest)[i := u.node] == b.batch + [u.node] + rest[1..];
      PrepareAt(nodes, nodes[i], i);
    }

    /** makeNodeIDUnique for the batch node at `i`: only its ID changes in the batch. */
    method PrepareAt(nodes: seq<WBSNode>, node: WBSNode, i: nat)
      requires Distinct(wbsNodes) && Distinct(nodes) && i < |nodes| && node == nodes[i]
      requires forall k :: 0 <= k < |nodes| ==> nodes[k] !in wbsNodes
      modifies this`maxID, wbsNodes`uniqueID, node`uniqueID
      ensures var u := UniqueIdUpdate(old(Ids()), old(node.uniqueID), old(maxID));
              Ids() == u.outline && maxID == u.maxID && IdsOf(nodes) == old(IdsOf(nodes))[i := u.node]
    {
      MakeNodeIDUnique(node);
      assert forall k :: 0 <= k < |nodes| && k != i ==> nodes[k] != node;
    }

    /** addAll(beforePos, nodes): the nodes enter the list at `p`, their fields as they are. */
    method SpliceNodes(nodes: seq<WBSNode>, p: nat)
      requires Distinct(wbsNodes) && Distinct(nodes) && p <= |wbsNodes|
      requires forall i :: 0 <= i < |nodes| ==> nodes[i] !in wbsNodes
      modifies this`wbsNodes
      ensures wbsNodes == old(wbsNodes)[..p] + nodes + old(wbsNodes)[p..]
      ensures Ids() == old(Ids())[..p] + old(IdsOf(nodes)) + old(Ids())[p..]
      ensures Levels() == old(Levels())[..p] + old(LevelsOf(nodes)) + old(Levels())[p..]
      ensures Flags() == old(Flags())[..p] + old(FlagsOf(nodes)) + old(Flags())[p..]
      ensures Distinct(wbsNodes)
    {
      var s := wbsNodes;
      wbsNodes := s[..p] + nodes + s[p..];
      forall i, j | 0 <= i < j < |wbsNodes|
        ensures wbsNodes[i] != wbsNodes[j]
      {
        if i < p && j >= p + |nodes| {
          assert wbsNodes[j] == s[j - |nodes|];
        }
      }
    }

    /** insertNodes with the intended insertion position: None for an empty batch; otherwise
      * the batch goes in before the node shown on `beforeRow` (just after the root for row 0,
      * at the end for a row outside the table), and the result is the rows of the batch. */
    method InsertNodes(nodes: seq<WBSNode>, beforeRow: int) returns (r: Option<seq<int>>)
      requires Consistent() && Distinct(nodes)
      requires forall i :: 0 <= i < |nodes| ==> nodes[i] !in wbsNodes
      modifies this`wbsNodes, this`rows, this`maxID, wbsNodes`uniqueID, nodes`uniqueID
      modifies wbsNodes`expanded, nodes`expanded
      ensures nodes == [] ==>
        r.None? && wbsNodes == old(wbsNodes) && rows == old(rows) && maxID == old(maxID) &&
        Ids() == old(Ids()) && Flags() == old(Flags())
      ensures nodes != [] ==>
        var q := InsertPos(old(rows), beforeRow);
        var p := if q >= old(|wbsNodes|) then old(|wbsNodes|) else q;
        var b := PrepareBatch(old(Ids()), old(IdsOf(nodes)), old(maxID));
        1 <= p && wbsNodes == old(wbsNodes)[..p] + nodes + old(wbsNodes)[p..] &&
        Levels() == old(Levels())[..p] + old(LevelsOf(nodes)) + old(Levels())[p..] &&
        Ids() == b.outline[..p] + b.batch + b.outline[p..] && maxID == b.maxID &&
        r == Some(RowsForNodes(wbsNodes, rows, nodes))
      ensures nodes != [] ==>
        var q := InsertPos(old(rows), beforeRow);
        var p := if q >= old(|wbsNodes|) then old(|wbsNodes|) else q;
        Flags() == ShowEach(Levels(), old(Flags()[..p] + FlagsOf(nodes) + Flags()[p..]),
                            PositionsIn(wbsNodes, old(NodesOnRows(wbsNodes, rows)) + [nodes[0]]), false)
      ensures wbsNodes[0] == old(wbsNodes[0])
      ensures Consistent()
    {
      if |nodes| == 0 {
        return None;
      }
      InsertPosAfterRoot(Levels(), Flags(), beforeRow);
      var beforePos := if beforeRow == 0 then 1
        else if beforeRow < 0 || beforeRow >= |rows| then INT_MAX
        else rows[beforeRow];
      InsertNodesAt(nodes, beforePos);
      var rs := GetRowsForNodes(nodes);
      return Some(rs);
    }

    /** insertNodesAt: nothing happens for an empty batch. Otherwise the batch's IDs are made
      * unique, the batch enters the list at `beforePos` (at the end when that is past it), the
      * rows are recalculated, and each node visible before, and the first inserted node, is
      * made visible. The batch must not be in the list already. */
    method InsertNodesAt(nodes: seq<WBSNode>, beforePos: nat)
      requires Consistent() && Distinct(nodes)
      requires forall i :: 0 <= i < |nodes| ==> nodes[i] !in wbsNodes
      modifies this`wbsNodes, this`rows, this`maxID, wbsNodes`uniqueID, nodes`uniqueID
      modifies wbsNodes`expanded, nodes`expanded
      ensures nodes == [] ==>
        wbsNodes == old(wbsNodes) && rows == old(rows) && maxID == old(maxID) && Ids() == old(Ids()) &&
        Flags() == old(Flags())
      ensures nodes != [] ==>
        var p := if beforePos >= |old(wbsNodes)| then |old(wbsNodes)| else beforePos;
        var b := PrepareBatch(old(Ids()), old(IdsOf(nodes)), old(maxID));
        wbsNodes == old(wbsNodes)[..p] + nodes + old(wbsNodes)[p..] &&
        Ids() == b.outline[..p] + b.batch + b.outline[p..] && maxID == b.maxID &&
        Levels() == old(Levels())[..p] + old(LevelsOf(nodes)) + old(Levels())[p..]
      ensures |wbsNodes| == old(|wbsNodes|) + |nodes|
      ensures nodes != [] ==>
        var p := if beforePos >= |old(wbsNodes)| then |old(wbsNodes)| else beforePos;
        Flags() == ShowEach(Levels(), old(Flags()[..p] + FlagsOf(nodes) + Flags()[p..]),
                            PositionsIn(wbsNodes, old(NodesOnRows(wbsNodes, rows)) + [nodes[0]]), false)
      ensures Consistent()
    {
      if |nodes| == 0 {
        return;
      }
      var currentVisibleNodes := VisibleNodes();
      currentVisibleNodes := currentVisibleNodes + [nodes[0]];
      var p := if beforePos >= |wbsNodes| then |wbsNodes| else beforePos;
      PrepareAndSplice(nodes, p, currentVisibleNodes);
    }

    /** prepareNodesForInsertion, then the batch enters the list at `p`, the rows are
      * recalculated and the listed nodes are made visible. */
    method PrepareAndSplice(nodes: seq<WBSNode>, p: nat, vs: seq<WBSNode>)
      requires Consistent() && Distinct(nodes) && p <= |wbsNodes|
      requires forall i :: 0 <= i < |nodes| ==> nodes[i] !in wbsNodes
      modifies this`wbsNodes, this`rows, this`maxID, wbsNodes`uniqueID, nodes`uniqueID
      modifies wbsNodes`expanded, nodes`expanded
      ensures var b := PrepareBatch(old(Ids()), old(IdsOf(nodes)), old(maxID));
              wbsNodes == old(wbsNodes)[..p] + nodes + old(wbsNodes)[p..] &&
              Ids() == b.outline[..p] + b.batch + b.outline[p..] && maxID == b.maxID
      ensures Levels() == old(Levels())[..p] + old(LevelsOf(nodes)) + old(Levels())[p..]
      ensures Flags() == ShowEach(Levels(), old(Flags()[..p] + FlagsOf(nodes) + Flags()[p..]),
                                  PositionsIn(wbsNodes, vs), false)
      ensures Consistent()
    {
      ghost var L, F, NL, NF := Levels(), Flags(), LevelsOf(nodes), FlagsOf(nodes);
      ghost var b := PrepareBatch(Ids(), IdsOf(nodes), maxID);
      PrepareNodes(nodes);
      assert Levels() == L && Flags() == F && LevelsOf(nodes) == NL && FlagsOf(nodes) == NF;
      assert Ids() == b.outline && IdsOf(nodes) == b.batch;
      SpliceAndShow(nodes, p, vs, b.outline, L, F, b.batch, NL, NF);
      assert Ids() == b.outline[..p] + b.batch + b.outline[p..] && maxID == b.maxID;
      assert Flags() == ShowEach(Levels(), F[..p] + NF + F[p..], PositionsIn(wbsNodes, vs), false);
    }

    /** The nodes enter the list at `p`, the rows are recalculated and the listed nodes are
      * made visible. */
    method SpliceAndShow(nodes: seq<WBSNode>, p: nat, vs: seq<WBSNode>,
                         ghost ids: seq<int>, ghost levels: seq<int>, ghost flags: seq<bool>,
                         ghost batchIds: seq<int>, ghost batchLevels: seq<int>, ghost batchFlags: seq<bool>)
      requires Consistent() && Distinct(nodes) && p <= |wbsNodes|
      requires forall i :: 0 <= i < |nodes| ==> nodes[i] !in wbsNodes
      requires Ids() == ids && Levels() == levels && Flags() == flags
      requires IdsOf(nodes) == batchIds && LevelsOf(nodes) == batchLevels && FlagsOf(nodes) == batchFlags
      modifies this`wbsNodes, this`rows, wbsNodes`expanded, nodes`expanded
      ensures wbsNodes == old(wbsNodes)[..p] + nodes + old(wbsNodes)[p..]
      ensures Ids() == ids[..p] + batchIds + ids[p..]
      ensures Levels() == levels[..p] + batchLevels + levels[p..]
      ensures Flags() == ShowEach(Levels(), flags[..p] + batchFlags + flags[p..], PositionsIn(wbsNodes, vs), false)
      ensures Consistent()
    {
      ghost var s := wbsNodes + nodes;
      SplicedMembers(wbsNodes, nodes, p);
      SpliceNodes(nodes, p);
      RecalcAndShow(vs, Ids(), Levels());
    }

    /** getDescendants: the nodes of the contiguous run after the node that are deeper
      * than it. */
    method GetDescendants(node: WBSNode) returns (ds: seq<WBSNode>)
      requires Distinct(wbsNodes) && node in wbsNodes
      ensures var p := PositionOf(wbsNodes, node);
              ds == wbsNodes[p + 1..DescendantEnd(Levels(), p)]
    {
      var nodePos := IndexOfNode(node);
      var indexes := GetDescendantIndexes(node, nodePos);
      ds := NodesAt(indexes, nodePos + 1, DescendantEnd(Levels(), nodePos));
    }

    /** The nodes at the positions `indexes`, which run from `lo` to `hi`, collected in order. */
    method NodesAt(indexes: seq<nat>, ghost lo: nat, ghost hi: nat) returns (ds: seq<WBSNode>)
      requires indexes == Range(lo, hi) && lo <= hi <= |wbsNodes|
      ensures ds == wbsNodes[lo..hi]
    {
      ds := [];
      for i := 0 to |indexes|
        invariant ds == wbsNodes[lo..lo + i]
      {
        SliceSnoc(wbsNodes, lo, lo + i);
        ds := ds + [wbsNodes[indexes[i]]];
      }
    }

    /** getMoveNodeUpInsertionPos, walking the parents by position. */
    method GetMoveNodeUpInsertionPos(nodePos: int) returns (d: int)
      requires -1 <= nodePos < |wbsNodes|
      ensures d == MoveUpDest(Levels(), nodePos)
    {
      if nodePos < 2 {
        return -1;
      }
      ghost var L := Levels();
      var indent := wbsNodes[nodePos].indentLevel;
      var j: nat := nodePos - 1;
      while true
        invariant j < |wbsNodes| && MoveUpFrom(L, indent, j) == MoveUpDest(L, nodePos)
        decreases j
      {
        if wbsNodes[j].indentLevel <= indent {
          return j;
        }
        var parent := ParentPosition(j);
        if parent.None? {
          return -1;
        }
        j := parent.value;
      }
    }

    /** getMoveNodeDownInsertionPos for the block [pos, e) of nodes to move. */
    method GetMoveNodeDownInsertionPos(nodesToMove: seq<WBSNode>, ghost pos: nat)
      returns (dest: int)
      requires Distinct(wbsNodes) && pos < |wbsNodes|
      requires nodesToMove == wbsNodes[pos..DescendantEnd(Levels(), pos)]
      ensures dest == MoveDownDest(Levels(), pos)
    {
      ghost var L := Levels();
      ghost var e := DescendantEnd(L, pos);
      var firstMovedNode := nodesToMove[0];
      var lastMovedNode := nodesToMove[|nodesToMove| - 1];
      assert firstMovedNode.indentLevel == L[pos] && lastMovedNode == wbsNodes[e - 1];
      DistinctPosition(wbsNodes, e - 1);
      var lastMovedPos := IndexOfNode(lastMovedNode);
      var nextPos := lastMovedPos + 1;
      assert nextPos == e && L == Levels();
      if nextPos >= |wbsNodes| {
        dest := -1;
      } else if wbsNodes[nextPos].indentLevel < firstMovedNode.indentLevel {
        dest := nextPos + 1;
      } else {
        dest := NextSubtreeEnd(nextPos, L);
      }
    }

    /** The tail of getMoveNodeDownInsertionPos: one past the last descendant of the node at
      * `nextPos`, or the position after it when it has none. */
    method NextSubtreeEnd(nextPos: nat, ghost L: seq<int>) returns (end: nat)
      requires L == Levels() && nextPos < |wbsNodes|
      ensures end == DescendantEnd(L, nextPos)
    {
      var nextDescendants := GetDescendantIndexes(null, nextPos);
      assert nextDescendants == Range(nextPos + 1, DescendantEnd(L, nextPos));
      if |nextDescendants| == 0 {
        end := nextPos + 1;
      } else {
        end := nextDescendants[|nextDescendants| - 1] + 1;
      }
    }

    /** deleteNodes of the block [pos, e), then insertNodesAt with position `k` of what is
      * left. */
    method MoveBlockTo(block: seq<WBSNode>, ghost s: seq<WBSNode>, ghost pos: nat, ghost e: nat, k: nat,
                       ghost I: seq<int>, ghost L: seq<int>, ghost F: seq<bool>, ghost R: seq<nat>, ghost m: int)
      requires Consistent() && s == wbsNodes && pos < e <= |s| && block == s[pos..e]
      requires 0 < pos || e < |s|
      requires k <= |s| - (e - pos)
      requires Ids() == I && Levels() == L && Flags() == F && rows == R && maxID == m
      modifies this`wbsNodes, this`rows, this`maxID, wbsNodes`uniqueID, wbsNodes`expanded
      ensures wbsNodes == (s[..pos] + s[e..])[..k] + block + (s[..pos] + s[e..])[k..]
      ensures var b := PrepareBatch(I[..pos] + I[e..], I[pos..e], m);
              Ids() == b.outline[..k] + b.batch + b.outline[k..] && maxID == b.maxID
      ensures Levels() == (L[..pos] + L[e..])[..k] + L[pos..e] + (L[..pos] + L[e..])[k..]
      ensures Flags() == MovedFlags(s, L, F, R, pos, e, k)
      ensures Consistent()
    {
      RemoveBlock(block, s, pos, e, I, L, F, R);
      InsertBlock(block, s, pos, e, k, I, L, F, R, m);
    }

    /** deleteNodes of the block [pos, e): the rest of the list stays, in order, with its
      * IDs and levels; the nodes shown before that stay are shown again; the block keeps
      * its fields. */
    method RemoveBlock(block: seq<WBSNode>, ghost s: seq<WBSNode>, ghost pos: nat, ghost e: nat,
                       ghost I: seq<int>, ghost L: seq<int>, ghost F: seq<bool>, ghost R: seq<nat>)
      requires Consistent() && s == wbsNodes && pos < e <= |s| && block == s[pos..e]
      requires 0 < pos || e < |s|
      requires Ids() == I && Levels() == L && Flags() == F && rows == R
      modifies this`wbsNodes, this`rows, wbsNodes`expanded
      ensures wbsNodes == s[..pos] + s[e..]
      ensures forall i :: 0 <= i < |block| ==> block[i] !in wbsNodes
      ensures Ids() == I[..pos] + I[e..] && Levels() == L[..pos] + L[e..]
      ensures Flags() == ShowEach(L[..pos] + L[e..], F[..pos] + F[e..], PositionsIn(s[..pos] + s[e..], NodesOnRows(s, R)), false)
      ensures IdsOf(block) == I[pos..e] && LevelsOf(block) == L[pos..e] && FlagsOf(block) == F[pos..e]
      ensures Consistent()
    {
      WithoutBlock(s, pos, e);
      IdsOfCut(s, pos, e);
      LevelsOfCut(s, pos, e);
      FlagsOfCut(s, pos, e);
      ghost var rest := s[..pos] + s[e..];
      ghost var restIds, restLevels := IdsOf(rest), LevelsOf(rest);
      assert block[0] in s;
      var deleted := DeleteNodes(block);
      assert wbsNodes == rest;
      assert IdsOf(rest) == restIds && LevelsOf(rest) == restLevels;
      forall i | 0 <= i < |block|
        ensures block[i] !in wbsNodes
      {
        WithoutMembers(s, block, block[i]);
      }
    }

    /** insertNodesAt, at position `k`, of the block [pos, e) of `s` that deleteNodes took
      * out: the block's IDs are made unique and it goes back in with its levels and flags,
      * and the nodes shown after the deletion and the block's first node are shown. */
    method InsertBlock(block: seq<WBSNode>, ghost s: seq<WBSNode>, ghost pos: nat, ghost e: nat, k: nat,
                       ghost I: seq<int>, ghost L: seq<int>, ghost F: seq<bool>, ghost R: seq<nat>, ghost m: int)
      requires |I| == |L| == |F| == |s| && pos < e <= |s| && (0 < pos || e < |s|) && k <= |s| - (e - pos)
      requires forall i :: 0 <= i < |R| ==> R[i] < |s|
      requires Consistent() && wbsNodes == s[..pos] + s[e..] && block == s[pos..e] && Distinct(block)
      requires forall i :: 0 <= i < |block| ==> block[i] !in wbsNodes
      requires Ids() == I[..pos] + I[e..] && Levels() == L[..pos] + L[e..] && maxID == m
      requires Flags() == ShowEach(L[..pos] + L[e..], F[..pos] + F[e..], PositionsIn(s[..pos] + s[e..], NodesOnRows(s, R)), false)
      requires IdsOf(block) == I[pos..e] && LevelsOf(block) == L[pos..e] && FlagsOf(block) == F[pos..e]
      modifies this`wbsNodes, this`rows, this`maxID, s`uniqueID, s`expanded
      ensures wbsNodes == (s[..pos] + s[e..])[..k] + block + (s[..pos] + s[e..])[k..]
      ensures var b := PrepareBatch(I[..pos] + I[e..], I[pos..e], m);
              Ids() == b.outline[..k] + b.batch + b.outline[k..] && maxID == b.maxID
      ensures Levels() == (L[..pos] + L[e..])[..k] + L[pos..e] + (L[..pos] + L[e..])[k..]
      ensures Flags() == MovedFlags(s, L, F, R, pos, e, k)
      ensures Consistent()
    {
      ghost var afterDelete := Flags();
      ghost var shown := NodesOnRows(wbsNodes, rows);
      CutMembers(s, pos, e);
      assert block[0] == s[pos];
      InsertBlockAt(block, wbsNodes, k, I[..pos] + I[e..], L[..pos] + L[e..], afterDelete, rows, m, I[pos..e], L[pos..e], F[pos..e]);
      assert wbsNodes == (s[..pos] + s[e..])[..k] + s[pos..e] + (s[..pos] + s[e..])[k..];
      MovedFlagsAfter(s, L, F, R, pos, e, k, afterDelete, shown);
    }

    /** insertNodesAt of a block that is not in the list, at a position inside it. */
    method InsertBlockAt(block: seq<WBSNode>, ghost t: seq<WBSNode>, k: nat,
                         ghost ids: seq<int>, ghost levels: seq<int>, ghost flags: seq<bool>, ghost R: seq<nat>,
                         ghost m: int, ghost blockIds: seq<int>, ghost blockLevels: seq<int>, ghost blockFlags: seq<bool>)
      requires Consistent() && t == wbsNodes && k <= |t| && block != [] && Distinct(block)
      requires forall i :: 0 <= i < |block| ==> block[i] !in wbsNodes
      requires Ids() == ids && Levels() == levels && Flags() == flags && rows == R && maxID == m
      requires IdsOf(block) == blockIds && LevelsOf(block) == blockLevels && FlagsOf(block) == blockFlags
      modifies this`wbsNodes, this`rows, this`maxID, wbsNodes`uniqueID, block`uniqueID
      modifies wbsNodes`expanded, block`expanded
      ensures wbsNodes == t[..k] + block + t[k..]
      ensures var b := PrepareBatch(ids, blockIds, m);
              Ids() == b.outline[..k] + b.batch + b.outline[k..] && maxID == b.maxID
      ensures Levels() == levels[..k] + blockLevels + levels[k..]
      ensures Flags() == ShowEach(Levels(), flags[..k] + blockFlags + flags[k..],
                                  PositionsIn(wbsNodes, NodesOnRows(t, R) + [block[0]]), false)
      ensures Consistent()
    {
      InsertNodesAt(block, k);
    }

    /** moveNodeUp: None, with nothing changed, when the node has no prior sibling to pass
      * (no insertion position after the root); otherwise the node and its descendants move
      * in front of that position, their levels and IDs with them, the nodes shown before
      * are shown again, and the result is their rows. */
    method MoveNodeUp(node: WBSNode) returns (r: Option<seq<int>>)
      requires Consistent()
      modifies this`wbsNodes, this`rows, this`maxID, wbsNodes`uniqueID, wbsNodes`expanded
      ensures var pos := PositionOf(old(wbsNodes), node);
              var d := MoveUpDest(old(Levels()), pos);
              (r.None? <==> d < 1) &&
              (d < 1 ==> wbsNodes == old(wbsNodes) && rows == old(rows) && Ids() == old(Ids()) &&
                         maxID == old(maxID) && Flags() == old(Flags()))
      ensures var pos := PositionOf(old(wbsNodes), node);
              var d := MoveUpDest(old(Levels()), pos);
              d >= 1 ==>
                var e := DescendantEnd(old(Levels()), pos);
                var s, L, I := old(wbsNodes), old(Levels()), old(Ids());
                var b := PrepareBatch(I[..pos] + I[e..], I[pos..e], old(maxID));
                wbsNodes == s[..d] + s[pos..e] + s[d..pos] + s[e..] &&
                r == Some(RowsForNodes(wbsNodes, rows, s[pos..e])) &&
                Levels() == L[..d] + L[pos..e] + L[d..pos] + L[e..] &&
                Ids() == b.outline[..d] + b.batch + b.outline[d..] && maxID == b.maxID &&
                (Distinct(I) && Positive(I[pos..e]) ==>
                  Ids() == I[..d] + I[pos..e] + I[d..pos] + I[e..]) &&
                Flags() == MovedFlags(s, L, old(Flags()), old(rows), pos, e, d)
      ensures Consistent()
    {
      var nodePos := IndexOfNode(node);
      var destPos := GetMoveNodeUpInsertionPos(nodePos);
      if destPos < 1 {
        return None;
      }
      var descendants := GetDescendants(node);
      r := MoveBlockUp(node, descendants, nodePos, destPos, wbsNodes, Levels(), Ids(), Flags(), rows, maxID);
    }

    /** moveNodeUp once the insertion position `d` is known. */
    method MoveBlockUp(node: WBSNode, descendants: seq<WBSNode>, pos: nat, d: nat,
                       ghost s: seq<WBSNode>, ghost L: seq<int>, ghost I: seq<int>, ghost F: seq<bool>,
                       ghost R: seq<nat>, ghost m: int) returns (r: Option<seq<int>>)
      requires Consistent() && s == wbsNodes && L == Levels()
      requires Ids() == I && Flags() == F && rows == R && maxID == m
      requires 1 <= d < pos < |s| && s[pos] == node
      requires descendants == s[pos + 1..DescendantEnd(L, pos)]
      modifies this`wbsNodes, this`rows, this`maxID, wbsNodes`uniqueID, wbsNodes`expanded
      ensures var e := DescendantEnd(L, pos);
              var b := PrepareBatch(I[..pos] + I[e..], I[pos..e], m);
              wbsNodes == s[..d] + s[pos..e] + s[d..pos] + s[e..] &&
              r == Some(RowsForNodes(wbsNodes, rows, s[pos..e])) &&
              Levels() == L[..d] + L[pos..e] + L[d..pos] + L[e..] &&
              Ids() == b.outline[..d] + b.batch + b.outline[d..] && maxID == b.maxID &&
              (Distinct(I) && Positive(I[pos..e]) ==>
                Ids() == I[..d] + I[pos..e] + I[d..pos] + I[e..]) &&
              Flags() == MovedFlags(s, L, F, R, pos, e, d)
      ensures Consistent()
    {
      ghost var e := DescendantEnd(L, pos);
      var nodesToMove := [node] + descendants;
      assert nodesToMove == s[pos..e];
      MoveBlockTo(nodesToMove, s, pos, e, d, I, L, F, R, m);
      ReinsertBefore(s, d, pos, e);
      ReinsertBefore(L, d, pos, e);
      if Distinct(I) && Positive(I[pos..e]) {
        MoveKeepsIds(I, pos, e, m);
        ReinsertBefore(I, d, pos, e);
      }
      var rs := GetRowsForNodes(nodesToMove);
      return Some(rs);
    }

    /** moveNodeDown: None, with nothing changed, for a node not in the list or one whose
      * block is last; otherwise the node and its descendants move past the next node (and
      * that node's descendants when it is no shallower), their levels and IDs with them,
      * the nodes shown before are shown again, and the result is their rows. */
    method MoveNodeDown(node: WBSNode) returns (r: Option<seq<int>>)
      requires Consistent()
      modifies this`wbsNodes, this`rows, this`maxID, wbsNodes`uniqueID, wbsNodes`expanded
      ensures var pos := PositionOf(old(wbsNodes), node);
              var dest := if pos == -1 then -1 else MoveDownDest(old(Levels()), pos);
              (r.None? <==> dest == -1) &&
              (dest == -1 ==> wbsNodes == old(wbsNodes) && rows == old(rows) && Ids() == old(Ids()) &&
                              maxID == old(maxID) && Flags() == old(Flags()))
      ensures var pos := PositionOf(old(wbsNodes), node);
              pos >= 0 && MoveDownDest(old(Levels()), pos) >= 0 ==>
                var dest := MoveDownDest(old(Levels()), pos);
                var e := DescendantEnd(old(Levels()), pos);
                var s, L, I := old(wbsNodes), old(Levels()), old(Ids());
                var k := DownTarget(L, pos);
                var b := PrepareBatch(I[..pos] + I[e..], I[pos..e], old(maxID));
                wbsNodes == s[..pos] + s[e..dest] + s[pos..e] + s[dest..] &&
                r == Some(RowsForNodes(wbsNodes, rows, s[pos..e])) &&
                Levels() == L[..pos] + L[e..dest] + L[pos..e] + L[dest..] &&
                Ids() == b.outline[..k] + b.batch + b.outline[k..] && maxID == b.maxID &&
                (Distinct(I) && Positive(I[pos..e]) ==>
                  Ids() == I[..pos] + I[e..dest] + I[pos..e] + I[dest..]) &&
                Flags() == MovedFlags(s, L, old(Flags()), old(rows), pos, e, k)
      ensures Consistent()
    {
      ghost var s, L, I, F, R, m := wbsNodes, Levels(), Ids(), Flags(), rows, maxID;
      var nodePos := IndexOfNode(node);
      if nodePos == -1 {
        return None;
      }
      var descendants := GetDescendants(node);
      var nodesToMove := [node] + descendants;
      var destPos := GetMoveNodeDownInsertionPos(nodesToMove, nodePos);
      if destPos == -1 {
        return None;
      }
      assert Levels() == L && Ids() == I && Flags() == F;
      ghost var e := DescendantEnd(L, nodePos);
      r := MoveBlockDown(nodesToMove, nodePos, destPos, s, L, I, F, R, m, e, DownTarget(L, nodePos));
    }

    /** moveNodeDown once the insertion position `dest` is known. */
    method MoveBlockDown(nodesToMove: seq<WBSNode>, pos: nat, dest: nat,
                         ghost s: seq<WBSNode>, ghost L: seq<int>, ghost I: seq<int>, ghost F: seq<bool>,
                         ghost R: seq<nat>, ghost m: int, ghost e: nat, ghost k: nat) returns (r: Option<seq<int>>)
      requires Consistent() && s == wbsNodes && L == Levels() && pos < |s|
      requires Ids() == I && Flags() == F && rows == R && maxID == m
      requires e == DescendantEnd(L, pos) && nodesToMove == s[pos..e]
      requires e < dest <= |s| && k == dest - (e - pos)
      modifies this`wbsNodes, this`rows, this`maxID, wbsNodes`uniqueID, wbsNodes`expanded
      ensures var b := PrepareBatch(I[..pos] + I[e..], I[pos..e], m);
              wbsNodes == s[..pos] + s[e..dest] + s[pos..e] + s[dest..] &&
              r == Some(RowsForNodes(wbsNodes, rows, s[pos..e])) &&
              Levels() == L[..pos] + L[e..dest] + L[pos..e] + L[dest..] &&
              Ids() == b.outline[..k] + b.batch + b.outline[k..] && maxID == b.maxID &&
              (Distinct(I) && Positive(I[pos..e]) ==>
                Ids() == I[..pos] + I[e..dest] + I[pos..e] + I[dest..]) &&
              Flags() == MovedFlags(s, L, F, R, pos, e, k)
      ensures Consistent()
    {
      assert pos < e && |nodesToMove| == e - pos;
      var target := dest - |nodesToMove|;
      assert target == k;
      MoveBlockTo(nodesToMove, s, pos, e, target, I, L, F, R, m);
      ReinsertAfter(s, pos, e, dest, k);
      ReinsertAfter(L, pos, e, dest, k);
      if Distinct(I) && Positive(I[pos..e]) {
        MoveKeepsIds(I, pos, e, m);
        ReinsertAfter(I, pos, e, dest, k);
      }
      var rs := GetRowsForNodes(nodesToMove);
      return Some(rs);
    }

    /** getRowForNode for each listed node, keeping the visible ones: getRowsForNodes. */
    method GetRowsForNodes(xs: seq<WBSNode>) returns (r: seq<int>)
      ensures r == RowsForNodes(wbsNodes, rows, xs)
      ensures Ids() == old(Ids()) && Levels() == old(Levels()) && Flags() == old(Flags())
    {
      r := [];
      for i := 0 to |xs|
        invariant r == RowsForNodes(wbsNodes, rows, xs[..i])
      {
        assert xs[..i + 1][..i] == xs[..i];
        var pos := IndexOfNode(xs[i]);
        var row := -1;
        if pos != -1 {
          row := NodePosToRow(pos);
        }
        if row != -1 {
          r := r + [row];
        }
      }
      assert xs[..|xs|] == xs;
    }

    /** addWorkflowSourceID, with the attribute read as text whatever it holds: the new
      * ID joins the comma-separated list unless it is already one of its fields. */
    method AddWorkflowSourceID(node: WBSNode, sourceID: int)
      modifies node`attributes
      ensures node.attributes == old(node.attributes)[WORKFLOW_SOURCE_IDS_ATTR :=
                Some(Text(NewSourceIDs(old(node.GetAttribute(WORKFLOW_SOURCE_IDS_ATTR)), sourceID)))]
    {
      var oldIDs := node.GetAttribute(WORKFLOW_SOURCE_IDS_ATTR);
      var newIDs := IntToString(sourceID);
      if oldIDs.Some? && |oldIDs.value.ToText()| > 0 {
        var oldIdList := JavaSplit(oldIDs.value.ToText(), ',');
        if newIDs in oldIdList {
          newIDs := oldIDs.value.ToText();
        } else {
          newIDs := oldIDs.value.ToText() + "," + newIDs;
        }
      }
      node.attributes := node.attributes[WORKFLOW_SOURCE_IDS_ATTR := Some(Text(newIDs))];
    }

    /** getChildren: the child nodes in order, none for a node not in the list. */
    method GetChildren(n: WBSNode) returns (r: seq<WBSNode>)
      ensures n !in wbsNodes ==> r == []
      ensures n in wbsNodes ==>
        var cs := Children(Levels(), PositionOf(wbsNodes, n));
        |r| == |cs| && forall i :: 0 <= i < |cs| ==> r[i] == wbsNodes[cs[i]]
    {
      var childIndexes := GetChildIndexes(n);
      r := [];
      if childIndexes.Some? {
        var cs := childIndexes.value;
        for i := 0 to |cs|
          invariant |r| == i && forall j :: 0 <= j < i ==> r[j] == wbsNodes[cs[j]]
        {
          r := r + [wbsNodes[cs[i]]];
        }
      }
    }

    /** appendWorkflowNode: a fresh copy of `node` for insertion. */
    static method AppendWorkflowNode(node: WBSNode, delta: int) returns (c: WBSNode)
      ensures fresh(c) && c.State() == WorkflowCopy(node.State(), delta)
    {
      c := node.Clone();
      c.indentLevel := c.indentLevel + delta;
      c.SetAttribute(WORKFLOW_SOURCE_IDS_ATTR, Some(Integer(c.uniqueID)));
    }

    /** calcInsertWorkflow: copies of the workflow node's children whose names no child of
      * the destination has, each followed by copies of its descendants. */
    method CalcInsertWorkflow(srcNode: WBSNode, destNode: WBSNode, workflows: WBSModel) returns (nodesToInsert: seq<WBSNode>)
      requires Distinct(workflows.wbsNodes) && srcNode in workflows.wbsNodes
      ensures var W, delta := old(workflows.States()), old(destNode.indentLevel - srcNode.indentLevel);
              var taken := old(if destNode in wbsNodes then NamesAt(Names(), Children(Levels(), PositionOf(wbsNodes, destNode))) else {});
              var ps := old(WorkflowSources(workflows.Levels(), workflows.Names(),
                                            Children(workflows.Levels(), PositionOf(workflows.wbsNodes, srcNode)), taken));
              (forall k :: 0 <= k < |ps| ==> ps[k] < |W|) &&
              StatesOf(nodesToInsert) == WorkflowCopies(W, ps, delta) &&
              forall k :: 0 <= k < |nodesToInsert| ==> fresh(nodesToInsert[k])
    {
      ghost var W, WL, WN := workflows.States(), workflows.Levels(), workflows.Names();
      ghost var cs := Children(WL, PositionOf(workflows.wbsNodes, srcNode));
      ghost var taken := if destNode in wbsNodes then NamesAt(Names(), Children(Levels(), PositionOf(wbsNodes, destNode))) else {};
      ghost var ps := WorkflowSources(WL, WN, cs, taken);
      var indentDelta := destNode.indentLevel - srcNode.indentLevel;
      var destChildNames := ChildNames(destNode, taken);
      var sources := workflows.CollectUntaken(srcNode, destChildNames, W, WL, WN);
      nodesToInsert := CopyNodes(sources, indentDelta, W, ps);
    }

    /** The set of names of a node's children, built one child at a time. */
    method ChildNames(n: WBSNode, ghost taken: set<string>) returns (names: set<string>)
      requires taken == if n in wbsNodes then NamesAt(Names(), Children(Levels(), PositionOf(wbsNodes, n))) else {}
      ensures names == taken
    {
      var children := GetChildren(n);
      names := {};
      for i := 0 to |children|
        invariant names == set j | 0 <= j < i :: children[j].name
      {
        names := names + {children[i].name};
      }
    }

    /** The nodes calcInsertWorkflow's loop copies, for the children at positions `cs`:
      * each child whose name is not taken, then its descendants. */
    method CollectUntaken(srcNode: WBSNode, taken: set<string>,
                          ghost W: seq<NodeState>, ghost L: seq<int>, ghost names: seq<string>)
      returns (sources: seq<WBSNode>)
      requires Distinct(wbsNodes) && srcNode in wbsNodes && W == States() && L == Levels() && names == Names()
      ensures var ps := WorkflowSources(L, names, Children(L, PositionOf(wbsNodes, srcNode)), taken);
              |sources| == |ps| && forall k :: 0 <= k < |ps| ==> ps[k] < |W| && sources[k] == wbsNodes[ps[k]] && sources[k].State() == W[ps[k]]
    {
      var children := GetChildren(srcNode);
      ghost var cs := Children(L, PositionOf(wbsNodes, srcNode));
      ghost var ps: seq<nat> := [];
      sources := [];
      for i := 0 to |children|
        invariant W == States() && L == Levels() && names == Names()
        invariant ps == WorkflowSources(L, names, cs[..i], taken)
        invariant |sources| == |ps| && forall k :: 0 <= k < |ps| ==> ps[k] < |wbsNodes| && sources[k] == wbsNodes[ps[k]]
      {
        sources, ps := CollectStep(children, taken, cs, i, sources, ps, L, names);
      }
      assert cs[..|cs|] == cs;
    }

    /** One turn of calcInsertWorkflow's loop: the `i`th child and its descendants join
      * the nodes to copy unless its name is taken. */
    method CollectStep(children: seq<WBSNode>, taken: set<string>, ghost cs: seq<nat>, i: nat,
                       sources: seq<WBSNode>, ghost ps: seq<nat>, ghost L: seq<int>, ghost names: seq<string>)
      returns (sources': seq<WBSNode>, ghost ps': seq<nat>)
      requires Distinct(wbsNodes) && |children| == |cs| && i < |cs| && L == Levels() && names == Names()
      requires forall i :: 0 <= i < |cs| ==> cs[i] < |wbsNodes| && children[i] == wbsNodes[cs[i]]
      requires ps == WorkflowSources(L, names, cs[..i], taken)
      requires |sources| == |ps| && forall k :: 0 <= k < |ps| ==> ps[k] < |wbsNodes| && sources[k] == wbsNodes[ps[k]]
      ensures ps' == WorkflowSources(L, names, cs[..i + 1], taken)
      ensures |sources'| == |ps'| && forall k :: 0 <= k < |ps'| ==> ps'[k] < |wbsNodes| && sources'[k] == wbsNodes[ps'[k]]
    {
      WorkflowSourcesSnoc(L, names, cs[..i + 1], taken);
      assert cs[..i + 1][..i] == cs[..i];
      sources', ps' := sources, ps;
      if children[i].name !in taken {
        var subtree := Subtree(children[i], cs[i], L);
        ghost var more := Range(cs[i], DescendantEnd(L, cs[i]));
        ConcatAtPositions(sources, ps, subtree, more, wbsNodes);
        sources', ps' := sources + subtree, ps + more;
      }
    }

    /** A node followed by its descendants (getDescendants). */
    method Subtree(child: WBSNode, ghost c: nat, ghost L: seq<int>) returns (subtree: seq<WBSNode>)
      requires Distinct(wbsNodes) && c < |wbsNodes| && wbsNodes[c] == child && L == Levels()
      ensures var ps := Range(c, DescendantEnd(L, c));
              |subtree| == |ps| && forall k :: 0 <= k < |ps| ==> ps[k] < |wbsNodes| && subtree[k] == wbsNodes[ps[k]]
    {
      DistinctPosition(wbsNodes, c);
      var srcDescendants := GetDescendants(child);
      subtree := [child] + srcDescendants;
    }

    /** appendWorkflowNode for each listed node, in order. */
    static method CopyNodes(ns: seq<WBSNode>, delta: int, ghost W: seq<NodeState>, ghost ps: seq<nat>)
      returns (copies: seq<WBSNode>)
      requires |ps| == |ns| && forall k :: 0 <= k < |ns| ==> ps[k] < |W| && ns[k].State() == W[ps[k]]
      ensures StatesOf(copies) == WorkflowCopies(W, ps, delta) && forall k :: 0 <= k < |copies| ==> fresh(copies[k])
    {
      copies := [];
      for j := 0 to |ns|
        invariant |copies| == j
        invariant forall k :: 0 <= k < j ==> fresh(copies[k]) && copies[k].State() == WorkflowCopy(W[ps[k]], delta)
      {
        var d := AppendWorkflowNode(ns[j], delta);
        copies := copies + [d];
      }
    }

    /** nodePosToRow: the row showing position `pos`, or -1. */
    method NodePosToRow(pos: int) returns (row: int)
      ensures row == RowOf(rows, pos)
    {
      for i := 0 to |rows|
        invariant pos !in rows[..i]
      {
        if rows[i] == pos {
          return i;
        }
        assert rows[..i + 1] == rows[..i] + [rows[i]];
      }
      assert rows[..|rows|] == rows;
      return -1;
    }
  }
}
