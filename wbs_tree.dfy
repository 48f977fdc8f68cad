/**
 * The tree shape of a work breakdown structure, computed from nothing but the flat list of
 * indentation levels `L` (node position i has indent L[i]) and, for the visible rows, the
 * expanded flags `E`. Node 0 is the root.
 *
 * The shape rules allow "illegal" trees: the direct children of a node are the following
 * nodes of its descendant run that are no deeper than any earlier node of the run, so nodes
 * at uneven, deeper indents still count as siblings.
 */
module WBSTree {
  import opened Wrappers

  /** Root at position 0 with indent 0, every other node at indent 1 or more. */
  predicate WellFormed(L: seq<int>)
  {
    |L| > 0 && L[0] == 0 && forall i :: 1 <= i < |L| ==> L[i] >= 1
  }

  predicate Increasing(r: seq<nat>)
  {
    forall i, j :: 0 <= i < j < |r| ==> r[i] < r[j]
  }

  /** The positions lo, lo+1, ..., hi-1. */
  function Range(lo: nat, hi: nat): (r: seq<nat>)
    ensures |r| == if lo <= hi then hi - lo else 0
    ensures forall i :: 0 <= i < |r| ==> r[i] == lo + i
    decreases hi - lo
  {
    if lo >= hi then [] else [lo] + Range(lo + 1, hi)
  }

  lemma RangeMembers(lo: nat, hi: nat, m: nat)
    ensures m in Range(lo, hi) <==> lo <= m < hi
  {
    if lo <= m < hi {
      assert Range(lo, hi)[m - lo] == m;
    }
  }

  lemma RangeSnoc(lo: nat, hi: nat)
    requires lo <= hi
    ensures Range(lo, hi + 1) == Range(lo, hi) + [hi]
  {
  }

  // ----- parent -----

  /** The nearest position below `j` whose indent is strictly less than `level`. */
  function ParentBelow(L: seq<int>, level: int, j: nat): (r: Option<nat>)
    requires j <= |L|
    ensures r.Some? ==> r.value < j && L[r.value] < level
    ensures r.Some? ==> forall k :: r.value < k < j ==> L[k] >= level
    ensures r.None? ==> forall k :: 0 <= k < j ==> L[k] >= level
  {
    if j == 0 then None
    else if L[j - 1] < level then Some(j - 1)
    else ParentBelow(L, level, j - 1)
  }

  /** getParent: the nearest preceding node with a strictly smaller indent, if any. */
  function ParentIndex(L: seq<int>, pos: nat): Option<nat>
    requires pos < |L|
  {
    ParentBelow(L, L[pos], pos)
  }

  lemma RootHasNoParent(L: seq<int>)
    requires |L| > 0
    ensures ParentIndex(L, 0) == None
  {
  }

  /** In a well-formed tree every node but the root has a parent. */
  lemma NonRootHasParent(L: seq<int>, pos: nat)
    requires WellFormed(L) && 0 < pos < |L|
    ensures ParentIndex(L, pos).Some?
  {
    assert L[0] < L[pos];
  }

  // ----- descendants -----

  /** The first position at or after `k` whose indent is at most `level`, or |L|. */
  function RunEnd(L: seq<int>, level: int, k: nat): (e: nat)
    requires k <= |L|
    ensures k <= e <= |L|
    ensures forall m :: k <= m < e ==> L[m] > level
    ensures e == |L| || L[e] <= level
    decreases |L| - k
  {
    if k == |L| || L[k] <= level then k else RunEnd(L, level, k + 1)
  }

  /** One past the last descendant of `p`: the descendants are the maximal run after `p` of
    * nodes indented deeper than `p`. */
  function DescendantEnd(L: seq<int>, p: nat): (e: nat)
    requires p < |L|
    ensures p < e <= |L|
    ensures forall m :: p < m < e ==> L[m] > L[p]
    ensures e == |L| || L[e] <= L[p]
  {
    RunEnd(L, L[p], p + 1)
  }

  /** getDescendantIndexes as a value. */
  function Descendants(L: seq<int>, p: nat): seq<nat>
    requires p < |L|
  {
    Range(p + 1, DescendantEnd(L, p))
  }

  /** A position after `p` is a descendant exactly when every node from p+1 up to it is deeper
    * than `p`. */
  lemma DescendantsAreTheRun(L: seq<int>, p: nat, k: nat)
    requires p < k < |L|
    ensures k in Descendants(L, p) <==> forall m :: p < m <= k ==> L[m] > L[p]
  {
    var e := DescendantEnd(L, p);
    if k in Descendants(L, p) {
      var i :| 0 <= i < |Descendants(L, p)| && Descendants(L, p)[i] == k;
    } else if forall m :: p < m <= k ==> L[m] > L[p] {
      assert e == |L| || L[e] <= L[p];
      assert Descendants(L, p)[k - p - 1] == k;
    }
  }

  /** RunEnd is the first position of the run that is not deeper than `level`. */
  lemma {:induction false} RunEndIs(L: seq<int>, level: int, j: nat, k: nat)
    requires j <= k <= |L|
    requires forall m :: j <= m < k ==> L[m] > level
    requires k == |L| || L[k] <= level
    ensures RunEnd(L, level, j) == k
    decreases k - j
  {
    if j < k {
      RunEndIs(L, level, j + 1, k);
    }
  }

  /** A node deeper than `p` inside p's run has its own run inside p's run. */
  lemma NestedRunEnd(L: seq<int>, p: nat, c: nat)
    requires p < |L| && p < c < DescendantEnd(L, p)
    ensures DescendantEnd(L, c) <= DescendantEnd(L, p)
  {
    var e := DescendantEnd(L, p);
    assert e == |L| || L[e] <= L[p];
  }

  /** A node after `c` that is no deeper than `c`, reached through nodes deeper than `p`,
    * is beyond c's run. */
  lemma RunEndsBefore(L: seq<int>, c: nat, d: nat)
    requires c < d < |L| && L[d] <= L[c]
    ensures DescendantEnd(L, c) <= d
  {
  }

  // ----- children -----

  /** `k` is a direct child of `p`: every node from p+1 up to `k` is deeper than `p` and no
    * node strictly between them is shallower than `k`. */
  predicate IsChild(L: seq<int>, p: int, k: int)
  {
    0 <= p < k < |L| &&
    (forall m :: p < m <= k ==> L[m] > L[p]) &&
    (forall m :: p < m < k ==> L[k] <= L[m])
  }

  /** The children of `p` at positions below `hi`, in increasing order. */
  function ChildrenBelow(L: seq<int>, p: nat, hi: nat): (r: seq<nat>)
    requires p < |L| && hi <= |L|
    ensures forall i :: 0 <= i < |r| ==> p < r[i] < hi
    decreases hi
  {
    if hi <= p + 1 then []
    else ChildrenBelow(L, p, hi - 1) + (if IsChild(L, p, hi - 1) then [hi - 1] else [])
  }

  /** getChildIndexes as a value: the direct children of `p`, in order. */
  function Children(L: seq<int>, p: nat): (r: seq<nat>)
    requires p < |L|
    ensures forall i :: 0 <= i < |r| ==> p < r[i] < |L|
  {
    ChildrenBelow(L, p, |L|)
  }

  lemma {:induction false} ChildrenBelowSpec(L: seq<int>, p: nat, hi: nat)
    requires p < |L| && hi <= |L|
    ensures Increasing(ChildrenBelow(L, p, hi))
    ensures forall k :: k in ChildrenBelow(L, p, hi) <==> IsChild(L, p, k) && k < hi
    decreases hi
  {
    if hi > p + 1 {
      ChildrenBelowSpec(L, p, hi - 1);
    }
  }

  /** No child of `p` lies at or beyond a node that is not deeper than `p`. */
  lemma {:induction false} ChildrenStopAt(L: seq<int>, p: nat, k: nat, hi: nat)
    requires p < k < |L| && k <= hi <= |L| && L[k] <= L[p]
    ensures ChildrenBelow(L, p, hi) == ChildrenBelow(L, p, k)
    decreases hi
  {
    if hi > k {
      ChildrenStopAt(L, p, k, hi - 1);
    }
  }

  /** The children listed are exactly the positions IsChild describes, in increasing order. */
  lemma ChildrenSpec(L: seq<int>, p: nat)
    requires p < |L|
    ensures Increasing(Children(L, p))
    ensures forall k :: k in Children(L, p) <==> IsChild(L, p, k)
  {
    ChildrenBelowSpec(L, p, |L|);
  }

  /** Parent and child describe the same relation. */
  lemma {:induction false} ParentBelowIs(L: seq<int>, level: int, j: nat, p: nat)
    requires p < j <= |L| && L[p] < level
    requires forall m :: p < m < j ==> L[m] >= level
    ensures ParentBelow(L, level, j) == Some(p)
    decreases j
  {
    if j - 1 > p {
      ParentBelowIs(L, level, j - 1, p);
    }
  }

  lemma ParentIffChild(L: seq<int>, p: nat, k: nat)
    requires k < |L|
    ensures ParentIndex(L, k) == Some(p) <==> IsChild(L, p, k)
  {
    if IsChild(L, p, k) {
      ParentBelowIs(L, L[k], k, p);
    }
  }

  /** Children lie inside the descendant run. */
  lemma ChildIsDescendant(L: seq<int>, p: nat, k: nat)
    requires IsChild(L, p, k)
    ensures p < k < DescendantEnd(L, p)
  {
    var e := DescendantEnd(L, p);
    assert e == |L| || L[e] <= L[p];
  }

  /** The run of an earlier child stops at or before a later one. */
  lemma ChildRunsDisjoint(L: seq<int>, p: nat, c: nat, d: nat)
    requires IsChild(L, p, c) && IsChild(L, p, d) && c < d
    ensures DescendantEnd(L, c) <= d
  {
    assert L[d] <= L[c];
    RunEndsBefore(L, c, d);
  }

  // ----- visible rows -----

  /** recalcRows: the preorder walk from `p`. The root is always descended into; any other
    * node only when it is expanded. */
  function Visible(L: seq<int>, E: seq<bool>, p: nat): (r: seq<nat>)
    requires |E| == |L| && p < |L|
    ensures forall i :: 0 <= i < |r| ==> r[i] < |L|
    decreases |L| - p, 1
  {
    [p] + if p == 0 || E[p] then VisibleKids(L, E, p, Children(L, p)) else []
  }

  /** The walks of the listed children of `p`, one after another. */
  function VisibleKids(L: seq<int>, E: seq<bool>, p: nat, kids: seq<nat>): (r: seq<nat>)
    requires |E| == |L| && p < |L|
    requires forall i :: 0 <= i < |kids| ==> p < kids[i] < |L|
    ensures forall i :: 0 <= i < |r| ==> r[i] < |L|
    decreases |L| - p, 0, |kids|
  {
    if kids == [] then [] else Visible(L, E, kids[0]) + VisibleKids(L, E, p, kids[1..])
  }

  /** The walks of the first i+1 children are those of the first i, then that of child i. */
  lemma {:induction false} VisibleKidsSnoc(L: seq<int>, E: seq<bool>, p: nat, kids: seq<nat>, i: nat)
    requires |E| == |L| && p < |L|
    requires forall j :: 0 <= j < |kids| ==> p < kids[j] < |L|
    requires i < |kids|
    ensures VisibleKids(L, E, p, kids[..i + 1]) == VisibleKids(L, E, p, kids[..i]) + Visible(L, E, kids[i])
    decreases i
  {
    if i > 0 {
      VisibleKidsSnoc(L, E, p, kids[1..], i - 1);
      assert kids[..i + 1][1..] == kids[1..][..i];
      assert kids[..i][1..] == kids[1..][..i - 1];
    } else {
      assert kids[..1][1..] == [];
    }
  }

  /** The visible rows of the whole outline. */
  function Rows(L: seq<int>, E: seq<bool>): (r: seq<nat>)
    requires |E| == |L| && |L| > 0
    ensures forall i :: 0 <= i < |r| ==> r[i] < |L|
  {
    Visible(L, E, 0)
  }

  /** Everything the walk from `p` reaches lies in p's subtree, in increasing order. */
  lemma {:induction false} VisibleInSubtree(L: seq<int>, E: seq<bool>, p: nat)
    requires |E| == |L| && p < |L|
    ensures |Visible(L, E, p)| > 0 && Visible(L, E, p)[0] == p
    ensures forall i :: 0 < i < |Visible(L, E, p)| ==> p < Visible(L, E, p)[i] < DescendantEnd(L, p)
    ensures Increasing(Visible(L, E, p))
    decreases |L| - p, 2
  {
    if p == 0 || E[p] {
      ChildWalksInSubtree(L, E, p);
      var k := VisibleKids(L, E, p, Children(L, p));
      RootThenRun(p, k, DescendantEnd(L, p));
      assert Visible(L, E, p) == [p] + k;
    } else {
      RootThenRun(p, [], DescendantEnd(L, p));
    }
  }

  /** The walks of all children of `p` stay strictly inside p's subtree, in order. */
  lemma {:induction false} ChildWalksInSubtree(L: seq<int>, E: seq<bool>, p: nat)
    requires |E| == |L| && p < |L|
    ensures Increasing(VisibleKids(L, E, p, Children(L, p)))
    ensures forall j :: 0 <= j < |VisibleKids(L, E, p, Children(L, p))| ==>
      p < VisibleKids(L, E, p, Children(L, p))[j] < DescendantEnd(L, p)
    decreases |L| - p, 1
  {
    var kids := Children(L, p);
    ChildrenSpec(L, p);
    VisibleKidsInRun(L, E, p, kids);
    if kids == [] {
      assert VisibleKids(L, E, p, kids) == [];
    } else {
      assert p < kids[0];
    }
  }

  /** A row followed by an increasing run of later rows below `d`. */
  lemma RootThenRun(p: nat, k: seq<nat>, d: nat)
    requires Increasing(k)
    requires forall j :: 0 <= j < |k| ==> p < k[j] < d
    ensures ([p] + k)[0] == p
    ensures forall i :: 0 < i < |[p] + k| ==> p < ([p] + k)[i] < d
    ensures Increasing([p] + k)
  {
    IncreasingConcat([p], k, p + 1);
    forall i | 0 < i < |[p] + k|
      ensures p < ([p] + k)[i] < d
    {
      assert ([p] + k)[i] == k[i - 1];
    }
  }

  lemma {:induction false} VisibleKidsInRun(L: seq<int>, E: seq<bool>, p: nat, kids: seq<nat>)
    requires |E| == |L| && p < |L|
    requires forall i :: 0 <= i < |kids| ==> p < kids[i] < |L| && IsChild(L, p, kids[i])
    requires Increasing(kids)
    ensures kids == [] ==> VisibleKids(L, E, p, kids) == []
    ensures kids != [] ==> forall i :: 0 <= i < |VisibleKids(L, E, p, kids)| ==>
      kids[0] <= VisibleKids(L, E, p, kids)[i] < DescendantEnd(L, p)
    ensures Increasing(VisibleKids(L, E, p, kids))
    decreases |L| - p, 0, |kids|
  {
    if kids != [] {
      var c, d := kids[0], DescendantEnd(L, p);
      ChildIsDescendant(L, p, c);
      VisibleInSubtree(L, E, c);
      NestedRunEnd(L, p, c);
      VisibleKidsInRun(L, E, p, kids[1..]);
      var head, tail := Visible(L, E, c), VisibleKids(L, E, p, kids[1..]);
      var e := DescendantEnd(L, c);
      assert forall i :: 0 <= i < |head| ==> c <= head[i] < e;
      if |kids| > 1 {
        ChildRunsDisjoint(L, p, c, kids[1]);
        assert e <= kids[1..][0];
      } else {
        assert tail == [];
      }
      assert forall j :: 0 <= j < |tail| ==> e <= tail[j] < d;
      IncreasingConcat(head, tail, e);
      ConcatBounds(head, tail, c, e, d);
      assert VisibleKids(L, E, p, kids) == head + tail;
    }
  }

  /** Rows in [lo, m) followed by rows in [m, hi) all lie in [lo, hi). */
  lemma ConcatBounds(a: seq<nat>, b: seq<nat>, lo: nat, m: nat, hi: nat)
    requires forall i :: 0 <= i < |a| ==> lo <= a[i] < m
    requires forall j :: 0 <= j < |b| ==> m <= b[j] < hi
    requires lo <= m <= hi
    ensures forall i :: 0 <= i < |a + b| ==> lo <= (a + b)[i] < hi
  {
    forall i | 0 <= i < |a + b|
      ensures lo <= (a + b)[i] < hi
    {
      if i < |a| {
        assert (a + b)[i] == a[i];
      } else {
        assert (a + b)[i] == b[i - |a|];
      }
    }
  }

  /** Two increasing runs, the first wholly below `m` and the second from `m` on, make one. */
  lemma IncreasingConcat(a: seq<nat>, b: seq<nat>, m: nat)
    requires Increasing(a) && Increasing(b)
    requires forall i :: 0 <= i < |a| ==> a[i] < m
    requires forall j :: 0 <= j < |b| ==> m <= b[j]
    ensures Increasing(a + b)
  {
    var r := a + b;
    forall i, j | 0 <= i < j < |r|
      ensures r[i] < r[j]
    {
      if j < |a| {
        assert r[i] == a[i] && r[j] == a[j];
      } else if i >= |a| {
        assert r[i] == b[i - |a|] && r[j] == b[j - |a|];
      } else {
        assert r[i] == a[i] && r[j] == b[j - |a|];
      }
    }
  }

  lemma {:induction false} KidWalkIncluded(L: seq<int>, E: seq<bool>, p: nat, kids: seq<nat>, i: nat, k: nat)
    requires |E| == |L| && p < |L|
    requires forall j :: 0 <= j < |kids| ==> p < kids[j] < |L|
    requires i < |kids| && k in Visible(L, E, kids[i])
    ensures k in VisibleKids(L, E, p, kids)
    decreases |kids|
  {
    if i > 0 {
      KidWalkIncluded(L, E, p, kids[1..], i - 1, k);
    }
  }

  lemma {:induction false} KidWalkOf(L: seq<int>, E: seq<bool>, p: nat, kids: seq<nat>, k: nat)
    requires |E| == |L| && p < |L|
    requires forall j :: 0 <= j < |kids| ==> p < kids[j] < |L|
    requires k in VisibleKids(L, E, p, kids)
    ensures exists i :: 0 <= i < |kids| && k in Visible(L, E, kids[i])
    decreases |kids|
  {
    if k !in Visible(L, E, kids[0]) {
      KidWalkOf(L, E, p, kids[1..], k);
      var i :| 0 <= i < |kids[1..]| && k in Visible(L, E, kids[1..][i]);
      assert k in Visible(L, E, kids[i + 1]);
    }
  }

  /** The rows start with the root and list node positions in increasing order. */
  lemma RowsShape(L: seq<int>, E: seq<bool>)
    requires |E| == |L| && |L| > 0
    ensures |Rows(L, E)| > 0 && Rows(L, E)[0] == 0 && Increasing(Rows(L, E))
    ensures forall i :: 0 <= i < |Rows(L, E)| ==> i <= Rows(L, E)[i] < |L|
  {
    var r := Rows(L, E);
    VisibleInSubtree(L, E, 0);
    RowsAtLeastIndex(r, |r|);
  }

  lemma {:induction false} RowsAtLeastIndex(r: seq<nat>, n: nat)
    requires Increasing(r) && n <= |r|
    ensures forall i :: 0 <= i < n ==> i <= r[i]
  {
    if n > 0 {
      RowsAtLeastIndex(r, n - 1);
      if n > 1 {
        assert r[n - 2] < r[n - 1];
      }
    }
  }

  /** A node whose parent is reached and descended into is reached itself. */
  lemma ChildVisible(L: seq<int>, E: seq<bool>, p: nat, k: nat)
    requires |E| == |L| && IsChild(L, p, k) && (p == 0 || E[p])
    ensures k in Visible(L, E, p)
  {
    ChildrenSpec(L, p);
    var kids := Children(L, p);
    var i :| 0 <= i < |kids| && kids[i] == k;
    KidWalkIncluded(L, E, p, kids, i, k);
  }

  /** The walk from a reached node is part of the walk that reached it. */
  lemma {:induction false} VisibleTransitive(L: seq<int>, E: seq<bool>, p: nat, j: nat, k: nat)
    requires |E| == |L| && p < |L| && j < |L|
    requires j in Visible(L, E, p) && k in Visible(L, E, j)
    ensures k in Visible(L, E, p)
    decreases |L| - p
  {
    if j != p {
      var kids := Children(L, p);
      KidWalkOf(L, E, p, kids, j);
      var i :| 0 <= i < |kids| && j in Visible(L, E, kids[i]);
      VisibleTransitive(L, E, kids[i], j, k);
      KidWalkIncluded(L, E, p, kids, i, k);
    }
  }

  /** A node other than the walk's start is reached through its parent, which was itself
    * reached and descended into. */
  lemma {:induction false} ReachedThroughParent(L: seq<int>, E: seq<bool>, p: nat, k: nat)
    requires |E| == |L| && p < |L|
    requires k in Visible(L, E, p) && k != p
    ensures ParentIndex(L, k).Some?
    ensures ParentIndex(L, k).value in Visible(L, E, p)
    ensures ParentIndex(L, k).value == 0 || E[ParentIndex(L, k).value]
    decreases |L| - p
  {
    var kids := Children(L, p);
    ChildrenSpec(L, p);
    KidWalkOf(L, E, p, kids, k);
    var i :| 0 <= i < |kids| && k in Visible(L, E, kids[i]);
    var c := kids[i];
    assert IsChild(L, p, c);
    if k == c {
      ParentIffChild(L, p, k);
    } else {
      ReachedThroughParent(L, E, c, k);
      var j := ParentIndex(L, k).value;
      ChildVisible(L, E, p, c);
      VisibleTransitive(L, E, p, c, j);
    }
  }

  // ----- ancestors and expansion -----

  /** The chain of parents of `k`, nearest first. */
  function Ancestors(L: seq<int>, k: nat): (r: seq<nat>)
    requires k < |L|
    ensures forall i :: 0 <= i < |r| ==> r[i] < k
    decreases k
  {
    match ParentIndex(L, k)
    case None => []
    case Some(j) => [j] + Ancestors(L, j)
  }

  /** Every ancestor of `k` other than the root is expanded. */
  predicate AncestorsExpanded(L: seq<int>, E: seq<bool>, k: nat)
    requires |E| == |L| && k < |L|
  {
    forall i :: 0 <= i < |Ancestors(L, k)| ==> Ancestors(L, k)[i] == 0 || E[Ancestors(L, k)[i]]
  }

  /** In a well-formed tree a node is a visible row exactly when all of its ancestors other
    * than the root are expanded. */
  lemma {:induction false} VisibleIffAncestorsExpanded(L: seq<int>, E: seq<bool>, k: nat)
    requires WellFormed(L) && |E| == |L| && k < |L|
    ensures k in Rows(L, E) <==> AncestorsExpanded(L, E, k)
    decreases k
  {
    if k > 0 {
      NonRootHasParent(L, k);
      var j := ParentIndex(L, k).value;
      assert Ancestors(L, k) == [j] + Ancestors(L, j);
      VisibleIffAncestorsExpanded(L, E, j);
      if k in Rows(L, E) {
        ReachedThroughParent(L, E, 0, k);
      } else if AncestorsExpanded(L, E, k) {
        assert AncestorsExpanded(L, E, j) by {
          forall i | 0 <= i < |Ancestors(L, j)|
            ensures Ancestors(L, j)[i] == 0 || E[Ancestors(L, j)[i]]
          {
            assert Ancestors(L, j)[i] == Ancestors(L, k)[i + 1];
          }
        }
        assert Ancestors(L, k)[0] == j;
        ParentIffChild(L, j, k);
        ChildVisible(L, E, j, k);
        VisibleTransitive(L, E, 0, j, k);
      }
    }
  }

  /** Expanding more nodes never hides a visible row. */
  lemma VisibleMonotone(L: seq<int>, E: seq<bool>, E': seq<bool>, k: nat)
    requires WellFormed(L) && |E| == |L| && |E'| == |L| && k < |L|
    requires forall i :: 0 <= i < |L| && E[i] ==> E'[i]
    requires k in Rows(L, E)
    ensures k in Rows(L, E')
  {
    VisibleIffAncestorsExpanded(L, E, k);
    VisibleIffAncestorsExpanded(L, E', k);
  }

  /** The flags after makeVisible(k): every ancestor of `k` set to expanded. */
  function ExpandAll(E: seq<bool>, xs: seq<nat>): (r: seq<bool>)
    ensures |r| == |E|
    ensures forall i :: 0 <= i < |E| ==> r[i] == (E[i] || i in xs)
  {
    if xs == [] then E
    else
      var r := ExpandAll(E, xs[1..]);
      if xs[0] < |r| then r[xs[0] := true] else r
  }

  /** After its ancestors are expanded, a node is a visible row. */
  lemma ExpandedAncestorsShow(L: seq<int>, E: seq<bool>, k: nat)
    requires WellFormed(L) && |E| == |L| && k < |L|
    ensures k in Rows(L, ExpandAll(E, Ancestors(L, k)))
  {
    VisibleIffAncestorsExpanded(L, ExpandAll(E, Ancestors(L, k)), k);
  }

  // ----- full names -----

  /** getFullName: the slash-separated names from the root down, or None for a parentless
    * node other than the root. Java's string concatenation renders a missing parent name as
    * the text "null". */
  function FullName(L: seq<int>, names: seq<string>, k: nat): Option<string>
    requires |names| == |L| && k < |L|
    decreases k
  {
    match ParentIndex(L, k)
    case Some(j) =>
      var prefix := FullName(L, names, j);
      Some((if prefix.Some? then prefix.value else "null") + "/" + names[k])
    case None =>
      if k == 0 then Some("/" + names[k]) else None
  }

  /** In a well-formed tree every node has a full name: the root's is "/" + its name, and any
    * other node's is its parent's full name, a slash and its own name. */
  lemma {:induction false} FullNameDefined(L: seq<int>, names: seq<string>, k: nat)
    requires WellFormed(L) && |names| == |L| && k < |L|
    ensures FullName(L, names, k).Some?
    ensures k == 0 ==> FullName(L, names, k).value == "/" + names[0]
    ensures k > 0 ==>
      FullName(L, names, k).value == FullName(L, names, ParentIndex(L, k).value).value + "/" + names[k]
    decreases k
  {
    if k > 0 {
      NonRootHasParent(L, k);
      FullNameDefined(L, names, ParentIndex(L, k).value);
    }
  }

  // ----- moving nodes -----

  /** getMoveNodeUpInsertionPos: walking up from the node just before `pos`, the first node
    * (itself or an ancestor) no deeper than the moved node; -1 when there is none or when
    * `pos` is less than 2. Every node between the result and `pos` is deeper than the moved
    * node, so the result is its prior sibling or its parent. */
  function MoveUpDest(L: seq<int>, pos: int): (r: int)
    requires pos < |L|
    ensures r == -1 || (0 <= r < pos && L[r] <= L[pos])
    ensures r >= 0 ==> forall m :: r < m < pos ==> L[m] > L[pos]
    ensures r == -1 && pos >= 2 ==> forall m :: 0 <= m < pos ==> L[m] > L[pos]
  {
    if pos < 2 then -1 else MoveUpFrom(L, L[pos], pos - 1)
  }

  /** The walk from `j` up through its ancestors to the first node no deeper than `level`. */
  function MoveUpFrom(L: seq<int>, level: int, j: nat): (r: int)
    requires j < |L|
    ensures r == -1 || (0 <= r <= j && L[r] <= level)
    ensures r >= 0 ==> forall m :: r < m <= j ==> L[m] > level
    ensures r == -1 ==> forall m :: 0 <= m <= j ==> L[m] > level
    decreases j
  {
    if L[j] <= level then j
    else match ParentIndex(L, j)
      case None => -1
      case Some(q) => MoveUpFrom(L, level, q)
  }

  /** getMoveNodeDownInsertionPos for the block [pos, DescendantEnd): -1 when nothing follows
    * it; the position after the next node when that node is shallower than the moved one;
    * otherwise one past the next node's last descendant, which is the next node itself when
    * it has none. */
  function MoveDownDest(L: seq<int>, pos: nat): (r: int)
    requires pos < |L|
    ensures r == -1 <==> DescendantEnd(L, pos) == |L|
    ensures r == -1 || (DescendantEnd(L, pos) < r <= |L|)
    ensures r >= 0 && L[DescendantEnd(L, pos)] >= L[pos] ==>
      r == DescendantEnd(L, DescendantEnd(L, pos)) &&
      forall m :: DescendantEnd(L, pos) < m < r ==> L[m] > L[DescendantEnd(L, pos)]
  {
    var next := DescendantEnd(L, pos);
    if next >= |L| then -1
    else if L[next] < L[pos] then next + 1
    else DescendantEnd(L, next)
  }
}
