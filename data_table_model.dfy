/**
 * The data table over a WBS: its columns, the dependency matrix between them, the set of
 * columns needing recalculation, and the change-depth counter that defers recalculation
 * until the outermost change ends.
 *
 * A column is identified by its position in the column list (each column object appears
 * in the list once), so the sets of calculated, dirty and waiting columns are sets of
 * positions.
 */
module DataTables {
  import opened WBSModels

  /** A data column: its ID, its display name, whether it is a calculated column, and (for a
    * calculated column) the IDs of the columns it depends on and of the columns it affects.
    * A missing ID list is the empty list. */
  datatype Column = Column(id: string, name: string, calculated: bool,
                           dependsOn: seq<string>, affects: seq<string>)

  /** The highest position below `hi` whose column has the ID `name`, or -1. */
  function LastWithID(cols: seq<Column>, name: string, hi: nat): (r: int)
    requires hi <= |cols|
    ensures -1 <= r < hi
    ensures r >= 0 ==> cols[r].id == name && forall k :: r < k < hi ==> cols[k].id != name
    ensures r == -1 <==> forall k :: 0 <= k < hi ==> cols[k].id != name
  {
    if hi == 0 then -1
    else if cols[hi - 1].id == name then hi - 1
    else LastWithID(cols, name, hi - 1)
  }

  /** AbstractTableModel.findColumn: the lowest position from `lo` on whose column has the
    * name `name`, or -1. */
  function FirstWithName(cols: seq<Column>, name: string, lo: nat): (r: int)
    requires lo <= |cols|
    ensures r == -1 || lo <= r < |cols|
    ensures r >= 0 ==> cols[r].name == name && forall k :: lo <= k < r ==> cols[k].name != name
    ensures r == -1 <==> forall k :: lo <= k < |cols| ==> cols[k].name != name
    decreases |cols| - lo
  {
    if lo == |cols| then -1
    else if cols[lo].name == name then lo
    else FirstWithName(cols, name, lo + 1)
  }

  /** findColumn: the last column with the ID, else the first with the name, else -1. */
  function ColumnPosition(cols: seq<Column>, name: string): (r: int)
    ensures -1 <= r < |cols|
    ensures r >= 0 && cols[r].id == name ==> forall k :: r < k < |cols| ==> cols[k].id != name
    ensures r >= 0 && cols[r].id != name ==>
              cols[r].name == name &&
              (forall k :: 0 <= k < |cols| ==> cols[k].id != name) &&
              (forall k :: 0 <= k < r ==> cols[k].name != name)
    ensures r == -1 <==> forall k :: 0 <= k < |cols| ==> cols[k].id != name && cols[k].name != name
  {
    var byID := LastWithID(cols, name, |cols|);
    if byID >= 0 then byID else FirstWithName(cols, name, 0)
  }

  /** The positions findColumn gives for each of `ids`. */
  function Found(cols: seq<Column>, ids: seq<string>): (r: seq<int>)
    ensures |r| == |ids| && forall k :: 0 <= k < |ids| ==> r[k] == ColumnPosition(cols, ids[k])
  {
    seq(|ids|, k requires 0 <= k < |ids| => ColumnPosition(cols, ids[k]))
  }

  /** The positions of the calculated columns. */
  function CalculatedSet(cols: seq<Column>): set<nat>
  {
    set k: nat | k < |cols| && cols[k].calculated
  }

  /** Column x depends on column y: x is calculated and lists y among the columns it depends
    * on, or y is calculated and lists the calculated column x among the columns it affects. */
  predicate Depends(cols: seq<Column>, x: nat, y: nat)
    requires x < |cols| && y < |cols|
  {
    DependsAfter(cols, |cols|, x, y)
  }

  /** The dependencies registered once the calculated columns below position `i` have been
    * initialized. */
  predicate DependsAfter(cols: seq<Column>, i: nat, x: nat, y: nat)
    requires x < |cols| && y < |cols|
  {
    (x < i && cols[x].calculated && (y as int) in Found(cols, cols[x].dependsOn)) ||
    (y < i && cols[y].calculated && cols[x].calculated && (x as int) in Found(cols, cols[y].affects))
  }

  /** Every column at position `from` or later that depends on column `y` is in `dirty`. */
  ghost predicate LaterDependentsDirty(cols: seq<Column>, dirty: set<nat>, y: nat, from: nat)
    requires y < |cols|
  {
    forall i: nat :: from <= i < |cols| && Depends(cols, i, y) ==> i in dirty
  }

  /** Looking at one more position keeps the later dependents dirty. */
  lemma LaterDependentsStep(cols: seq<Column>, dirty: set<nat>, dirty': set<nat>, y: nat, from: nat)
    requires y < |cols| && from < |cols| && LaterDependentsDirty(cols, dirty, y, from + 1)
    requires dirty <= dirty' && (Depends(cols, from, y) ==> from in dirty')
    ensures LaterDependentsDirty(cols, dirty', y, from)
  {
  }

  /** Every column depending on a column of `xs` other than `except` is in `dirty`. */
  ghost predicate DependentsDirty(cols: seq<Column>, dirty: set<nat>, xs: seq<nat>, except: int)
  {
    forall x: nat, i: nat :: x in xs && x != except && x < |cols| && i < |cols| && Depends(cols, i, x) ==> i in dirty
  }

  /** The marks of a dependent's change keep the dependents of the earlier marks dirty. */
  lemma DependentsDirtyConcat(cols: seq<Column>, pos: nat, order: seq<nat>, j: nat, more: seq<nat>,
                              before: set<nat>, dirty: set<nat>)
    requires DependentsDirty(cols, before, order, pos) && before <= dirty
    requires more == [] || DependentsDirty(cols, dirty, [j] + more, -1)
    ensures DependentsDirty(cols, dirty, order + more, pos)
  {
    forall x: nat, i: nat | x in order + more && x != pos && x < |cols| && i < |cols| && Depends(cols, i, x)
      ensures i in dirty
    {
      if x !in order {
        assert x in [j] + more;
      }
    }
  }

  /** Once every dependent of `pos` is dirty, so is every dependent of every mark. */
  lemma DependentsDirtyEnd(cols: seq<Column>, pos: nat, order: seq<nat>, dirty: set<nat>)
    requires pos < |cols| && DependentsDirty(cols, dirty, order, pos)
    requires LaterDependentsDirty(cols, dirty, pos, 0)
    ensures DependentsDirty(cols, dirty, [pos] + order, -1)
  {
    forall x: nat, i: nat | x in [pos] + order && x < |cols| && i < |cols| && Depends(cols, i, x)
      ensures i in dirty
    {
      if x == pos {
        assert 0 <= i < |cols| && Depends(cols, i, pos);
      } else {
        assert x in order;
      }
    }
  }

  /** The elements of `s`, each once, in some order (HashSet.toArray). */
  method SetToSeq(s: set<nat>) returns (r: seq<nat>)
    ensures Distinct(r) && forall x :: x in r <==> x in s
  {
    r := [];
    var rest := s;
    while rest != {}
      invariant rest <= s
      invariant Distinct(r) && forall x :: x in r <==> x in s && x !in rest
      decreases rest
    {
      var x :| x in rest;
      r := r + [x];
      rest := rest - {x};
    }
  }

  /** Two repetition-free sequences with no common element concatenate to one. */
  lemma DistinctConcat(a: seq<nat>, b: seq<nat>)
    requires Distinct(a) && Distinct(b) && forall x :: x in a ==> x !in b
    ensures Distinct(a + b)
  {
    forall i, j | 0 <= i < j < |a + b|
      ensures (a + b)[i] != (a + b)[j]
    {
      if j >= |a| && i < |a| {
        assert (a + b)[i] in a && (a + b)[j] in b;
      }
    }
  }

  class DataTableModel {
    var columns: seq<Column>
    /** dependencies[x, y]: column x depends on column y. */
    var dependencies: array2<bool>
    var calculatedColumns: set<nat>
    var dirtyColumns: set<nat>
    /** How many changes are currently under way. */
    var changeDepth: int
    /** The columns whose recalculate() has been called, in call order. */
    var recalculated: seq<nat>

    /** The matrix and the calculated set agree with the columns. */
    predicate Structured()
      reads this`columns, this`dependencies, this`calculatedColumns, dependencies
    {
      dependencies.Length0 == |columns| && dependencies.Length1 == |columns| &&
      calculatedColumns == CalculatedSet(columns) &&
      forall x, y :: 0 <= x < |columns| && 0 <= y < |columns| ==>
        dependencies[x, y] == Depends(columns, x, y)
    }

    /** Structured, only calculated columns dirty, and the change depth never negative. */
    predicate Valid()
      reads this, dependencies
    {
      Structured() && dirtyColumns <= calculatedColumns && changeDepth >= 0
    }

    /** The model over the given columns, with its dependencies initialized. */
    constructor (cols: seq<Column>)
      ensures columns == cols && dirtyColumns == {} && changeDepth == 0 && recalculated == []
      ensures Valid()
    {
      columns, dirtyColumns, changeDepth, recalculated := cols, {}, 0, [];
      dependencies := new bool[0, 0];
      calculatedColumns := {};
      new;
      InitializeColumnDependencies();
    }

    /** initializeColumnDependencies: a fresh matrix registering, for each calculated column,
      * the columns it depends on and itself with each calculated column it affects. */
    method InitializeColumnDependencies()
      modifies this`dependencies, this`calculatedColumns
      ensures Structured() && fresh(dependencies)
    {
      var n := |columns|;
      var d := new bool[n, n]((x, y) => false);
      dependencies := d;
      calculatedColumns := CollectCalculated();
      for c := 0 to n
        invariant dependencies == d && calculatedColumns == CalculatedSet(columns)
        invariant forall x, y :: 0 <= x < n && 0 <= y < n ==>
          dependencies[x, y] == DependsAfter(columns, c, x, y)
      {
        if c in calculatedColumns {
          RegisterDependsOn(c);
          RegisterAffects(c);
        }
      }
    }

    /** The calculated columns, found one column at a time. */
    method CollectCalculated() returns (found: set<nat>)
      ensures found == CalculatedSet(columns)
    {
      found := {};
      for i := 0 to |columns|
        invariant found == set k: nat | k < i && columns[k].calculated
      {
        if columns[i].calculated {
          found := found + {i};
        }
      }
    }

    /** Marks column c as depending on each column it lists that findColumn finds. */
    method RegisterDependsOn(c: nat)
      requires c < |columns| && columns[c].calculated
      requires dependencies.Length0 == |columns| && dependencies.Length1 == |columns|
      modifies dependencies
      ensures forall x, y :: 0 <= x < |columns| && 0 <= y < |columns| ==>
        dependencies[x, y] == (old(dependencies[x, y]) || (x == c && (y as int) in Found(columns, columns[c].dependsOn)))
    {
      var dependsOn := columns[c].dependsOn;
      ghost var F := Found(columns, dependsOn);
      for j := 0 to |dependsOn|
        invariant forall x, y :: 0 <= x < |columns| && 0 <= y < |columns| ==>
          dependencies[x, y] == (old(dependencies[x, y]) || (x == c && (y as int) in F[..j]))
      {
        var dependentPos := FindColumn(dependsOn[j]);
        if dependentPos != -1 {
          dependencies[c, dependentPos] := true;
        }
        assert F[..j + 1] == F[..j] + [dependentPos];
      }
      assert F[..|dependsOn|] == F;
    }

    /** Marks each calculated column that column c lists as affected, and that findColumn
      * finds, as depending on c. */
    method RegisterAffects(c: nat)
      requires c < |columns| && columns[c].calculated
      requires dependencies.Length0 == |columns| && dependencies.Length1 == |columns|
      modifies dependencies
      ensures forall x, y :: 0 <= x < |columns| && 0 <= y < |columns| ==>
        dependencies[x, y] == (old(dependencies[x, y]) ||
                               (y == c && columns[x].calculated && (x as int) in Found(columns, columns[c].affects)))
    {
      var affects := columns[c].affects;
      ghost var F := Found(columns, affects);
      for j := 0 to |affects|
        invariant forall x, y :: 0 <= x < |columns| && 0 <= y < |columns| ==>
          dependencies[x, y] == (old(dependencies[x, y]) ||
                                 (y == c && columns[x].calculated && (x as int) in F[..j]))
      {
        var affectedPos := FindColumn(affects[j]);
        if affectedPos != -1 && columns[affectedPos].calculated {
          dependencies[affectedPos, c] := true;
        }
        assert F[..j + 1] == F[..j] + [affectedPos];
      }
      assert F[..|affects|] == F;
    }

    /** findColumn: searches the IDs from the last column down, then the names. */
    method FindColumn(name: string) returns (r: int)
      ensures r == ColumnPosition(columns, name)
    {
      var col := |columns|;
      while col > 0
        invariant 0 <= col <= |columns|
        invariant LastWithID(columns, name, |columns|) == LastWithID(columns, name, col)
      {
        col := col - 1;
        if name == columns[col].id {
          return col;
        }
      }
      r := FirstWithName(columns, name, 0);
    }

    /** The k-th column marked dirty while propagating a change of column `pos` is `pos`
      * itself, or depends on `pos`, or depends on a column marked before it. */
    ghost predicate JustifiedAt(pos: nat, order: seq<nat>, k: nat)
      reads this`dependencies, dependencies
      requires k < |order| && pos < dependencies.Length0 == dependencies.Length1
      requires forall m :: 0 <= m < |order| ==> order[m] < dependencies.Length0
    {
      order[k] == pos || dependencies[order[k], pos] ||
      exists m :: 0 <= m < k && dependencies[order[k], order[m]]
    }

    /** The marks made by a change of column j, a dependent of `pos`, extend a justified
      * order for `pos` justified. */
    lemma JustifiedConcat(pos: nat, order: seq<nat>, j: nat, more: seq<nat>)
      requires pos < dependencies.Length0 == dependencies.Length1 && j < dependencies.Length0
      requires forall m :: 0 <= m < |order| ==> order[m] < dependencies.Length0
      requires forall m :: 0 <= m < |more| ==> more[m] < dependencies.Length0
      requires forall k :: 0 <= k < |order| ==> JustifiedAt(pos, order, k)
      requires forall k :: 0 <= k < |more| ==> JustifiedAt(j, more, k)
      requires dependencies[j, pos] && (|more| > 0 ==> more[0] == j)
      ensures forall k :: 0 <= k < |order + more| ==> JustifiedAt(pos, order + more, k)
    {
      var all := order + more;
      forall k | 0 <= k < |all|
        ensures JustifiedAt(pos, all, k)
      {
        if k < |order| {
          assert all[k] == order[k];
          assert JustifiedAt(pos, order, k);
          if !(order[k] == pos || dependencies[order[k], pos]) {
            var m :| 0 <= m < k && dependencies[order[k], order[m]];
            assert all[m] == order[m];
          }
        } else {
          var i := k - |order|;
          assert all[k] == more[i] && JustifiedAt(j, more, i);
          if more[i] == j {
          } else if dependencies[more[i], j] {
            assert i > 0 && all[|order|] == j;
          } else {
            var m :| 0 <= m < i && dependencies[more[i], more[m]];
            assert all[|order| + m] == more[m];
          }
        }
      }
    }

    /** columnChanged(column, pos): marks the column dirty if it is calculated, then does the
      * same for every column depending on it; a column already dirty, or the position -1,
      * stops the walk. `order` lists the newly dirty columns in the order they were marked. */
    method ColumnChanged(pos: int) returns (ghost order: seq<nat>)
      requires Structured() && dirtyColumns <= calculatedColumns && -1 <= pos < |columns|
      modifies this`dirtyColumns
      ensures dirtyColumns <= calculatedColumns
      ensures forall m :: 0 <= m < |order| ==> order[m] < |columns|
      ensures forall x :: x in dirtyColumns <==> x in old(dirtyColumns) || x in order
      ensures pos == -1 || pos in old(dirtyColumns) ==> order == []
      ensures pos >= 0 ==> forall k :: 0 <= k < |order| ==>
                order[k] !in old(dirtyColumns) && JustifiedAt(pos, order, k)
      ensures pos >= 0 && pos !in old(dirtyColumns) && columns[pos].calculated ==> |order| > 0 && order[0] == pos
      ensures pos >= 0 && pos !in old(dirtyColumns) ==> DependentsDirty(columns, dirtyColumns, [pos] + order, -1)
      decreases calculatedColumns - dirtyColumns, if pos >= 0 && columns[pos].calculated then 0 else 1
    {
      order := [];
      if pos == -1 || pos in dirtyColumns {
        return;
      }
      if columns[pos].calculated {
        dirtyColumns := dirtyColumns + {pos};
        order := [pos];
      }
      ghost var cols := columns;
      var j := |columns|;
      while j > 0
        invariant 0 <= j <= |columns| && cols == columns
        invariant old(dirtyColumns) <= dirtyColumns <= calculatedColumns
        invariant columns[pos].calculated ==> pos in dirtyColumns && |order| > 0 && order[0] == pos
        invariant forall m :: 0 <= m < |order| ==> order[m] < |columns|
        invariant forall x :: x in dirtyColumns <==> x in old(dirtyColumns) || x in order
        invariant forall k :: 0 <= k < |order| ==> order[k] !in old(dirtyColumns) && JustifiedAt(pos, order, k)
        invariant DependentsDirty(cols, dirtyColumns, order, pos)
        invariant LaterDependentsDirty(cols, dirtyColumns, pos, j)
      {
        j := j - 1;
        assert dependencies[j, pos] == Depends(cols, j, pos);
        ghost var before := dirtyColumns;
        if dependencies[j, pos] {
          var more := ColumnChanged(j);
          assert before <= dirtyColumns && j in dirtyColumns;
          JustifiedConcat(pos, order, j, more);
          DependentsDirtyConcat(cols, pos, order, j, more, before, dirtyColumns);
          order := order + more;
        }
        LaterDependentsStep(cols, before, dirtyColumns, pos, j);
      }
      DependentsDirtyEnd(cols, pos, order, dirtyColumns);
    }

    /** recalcColumn(column, waiting): recalculates the dirty calculated columns column c
      * depends on, then c itself, and clears c's dirty mark; a column not dirty, or already
      * waiting for its own dependencies (a circular dependency), is left alone. The waiting
      * set is passed by value: recalcColumn removes c again before it returns. `done` lists
      * the columns recalculated, in order. */
    method RecalcColumn(c: nat, waiting: set<nat>) returns (ghost done: seq<nat>)
      requires Structured() && dirtyColumns <= calculatedColumns && c in calculatedColumns
      requires waiting <= calculatedColumns
      modifies this`dirtyColumns, this`recalculated
      ensures dirtyColumns <= old(dirtyColumns)
      ensures recalculated == old(recalculated) + done && Distinct(done)
      ensures forall x :: x in done <==> x in old(dirtyColumns) && x !in dirtyColumns
      ensures forall w :: w in waiting && w in old(dirtyColumns) ==> w in dirtyColumns
      ensures c !in old(dirtyColumns) || c in waiting ==> done == []
      ensures c in old(dirtyColumns) && c !in waiting ==>
                c !in dirtyColumns && |done| > 0 && done[|done| - 1] == c &&
                forall j :: 0 <= j < |columns| && dependencies[c, j] && j !in waiting && j != c ==>
                  j !in dirtyColumns
      decreases calculatedColumns - waiting
    {
      done := [];
      if c !in dirtyColumns {
        return;
      }
      if c in waiting {
        return;
      }
      var w := waiting + {c};
      var j := |columns|;
      while j > 0
        invariant 0 <= j <= |columns|
        invariant dirtyColumns <= old(dirtyColumns) && c in dirtyColumns
        invariant recalculated == old(recalculated) + done && Distinct(done)
        invariant forall x :: x in done <==> x in old(dirtyColumns) && x !in dirtyColumns
        invariant forall v :: v in waiting && v in old(dirtyColumns) ==> v in dirtyColumns
        invariant forall i :: j <= i < |columns| && dependencies[c, i] && i !in w ==> i !in dirtyColumns
      {
        j := j - 1;
        if dependencies[c, j] && columns[j].calculated {
          var more := RecalcColumn(j, w);
          DistinctConcat(done, more);
          done := done + more;
        }
      }
      recalculated := recalculated + [c];
      DistinctConcat(done, [c]);
      done := done + [c];
      dirtyColumns := dirtyColumns - {c};
    }

    /** recalcColumns: recalculates every dirty column, each once, in some order, leaving none
      * dirty. */
    method RecalcColumns() returns (ghost done: seq<nat>)
      requires Structured() && dirtyColumns <= calculatedColumns
      modifies this`dirtyColumns, this`recalculated
      ensures dirtyColumns == {}
      ensures recalculated == old(recalculated) + done && Distinct(done)
      ensures forall x :: x in done <==> x in old(dirtyColumns)
    {
      done := [];
      if dirtyColumns == {} {
        return;
      }
      var columnsToRecalc := SetToSeq(dirtyColumns);
      for i := 0 to |columnsToRecalc|
        invariant dirtyColumns <= old(dirtyColumns)
        invariant recalculated == old(recalculated) + done && Distinct(done)
        invariant forall x :: x in done <==> x in old(dirtyColumns) && x !in dirtyColumns
        invariant forall k :: 0 <= k < i ==> columnsToRecalc[k] !in dirtyColumns
      {
        var more := RecalcColumn(columnsToRecalc[i], {});
        DistinctConcat(done, more);
        done := done + more;
      }
      assert forall x :: x in dirtyColumns ==> x in columnsToRecalc;
    }

    /** beginChange: one more change under way. */
    method BeginChange()
      modifies this`changeDepth
      ensures changeDepth == old(changeDepth) + 1
    {
      changeDepth := changeDepth + 1;
    }

    /** endChange: one change fewer (never below zero); when that brings the depth from one
      * to zero, the dirty columns are recalculated. */
    method EndChange() returns (ghost done: seq<nat>)
      requires Valid()
      modifies this`changeDepth, this`dirtyColumns, this`recalculated
      ensures Valid()
      ensures changeDepth == if old(changeDepth) > 0 then old(changeDepth) - 1 else 0
      ensures old(changeDepth) == 1 ==>
                dirtyColumns == {} && recalculated == old(recalculated) + done && Distinct(done) &&
                forall x :: x in done <==> x in old(dirtyColumns)
      ensures old(changeDepth) != 1 ==> dirtyColumns == old(dirtyColumns) && recalculated == old(recalculated)
    {
      done := [];
      var finalDepth := changeDepth - 1;
      changeDepth := finalDepth;
      if changeDepth < 0 {
        changeDepth := 0;
      }
      if finalDepth == 0 {
        done := RecalcColumns();
      }
    }

    /** The WBS model changed: every calculated column becomes dirty, inside one change. */
    method WBSChanged() returns (ghost done: seq<nat>)
      requires Valid()
      modifies this`changeDepth, this`dirtyColumns, this`recalculated
      ensures Valid() && changeDepth == old(changeDepth)
      ensures old(changeDepth) == 0 ==>
                dirtyColumns == {} && recalculated == old(recalculated) + done && Distinct(done) &&
                forall x :: x in done <==> x in calculatedColumns
      ensures old(changeDepth) > 0 ==> dirtyColumns == calculatedColumns && recalculated == old(recalculated)
    {
      BeginChange();
      dirtyColumns := dirtyColumns + calculatedColumns;
      done := EndChange();
    }

    /** columnChanged(column): the change to the column at `pos` (its indexOf, -1 when it is
      * not in the list), propagated inside one change. */
    method NotifyColumnChanged(pos: int) returns (ghost marked: seq<nat>, ghost done: seq<nat>)
      requires Valid() && -1 <= pos < |columns|
      modifies this`changeDepth, this`dirtyColumns, this`recalculated
      ensures Valid() && changeDepth == old(changeDepth)
      ensures forall m :: 0 <= m < |marked| ==> marked[m] < |columns|
      ensures pos >= 0 ==> forall k :: 0 <= k < |marked| ==>
                marked[k] !in old(dirtyColumns) && JustifiedAt(pos, marked, k)
      ensures old(changeDepth) == 0 ==>
                dirtyColumns == {} && recalculated == old(recalculated) + done && Distinct(done) &&
                forall x :: x in done <==> x in old(dirtyColumns) || x in marked
      ensures old(changeDepth) > 0 ==>
                recalculated == old(recalculated) &&
                forall x :: x in dirtyColumns <==> x in old(dirtyColumns) || x in marked
      ensures pos == -1 || pos in old(dirtyColumns) ==> marked == []
      ensures pos >= 0 && pos !in old(dirtyColumns) && columns[pos].calculated ==> |marked| > 0 && marked[0] == pos
      ensures pos >= 0 && pos !in old(dirtyColumns) ==>
                DependentsDirty(columns, old(dirtyColumns) + (set x | x in marked), [pos] + marked, -1)
    {
      BeginChange();
      ghost var before := dirtyColumns;
      marked := ColumnChanged(pos);
      assert dirtyColumns == before + (set x | x in marked);
      done := EndChange();
    }

    /** setValueAt(value, node, columnIndex): nothing for a missing node; otherwise the
      * column's change is propagated inside one change (the value itself is stored by the
      * column, which is not part of this model). */
    method SetValueAt(nodeIsNull: bool, columnIndex: nat) returns (ghost marked: seq<nat>, ghost done: seq<nat>)
      requires Valid() && columnIndex < |columns|
      modifies this`changeDepth, this`dirtyColumns, this`recalculated
      ensures Valid() && changeDepth == old(changeDepth)
      ensures nodeIsNull ==> dirtyColumns == old(dirtyColumns) && recalculated == old(recalculated)
      ensures !nodeIsNull && old(changeDepth) == 0 ==>
                dirtyColumns == {} && recalculated == old(recalculated) + done && Distinct(done) &&
                forall x :: x in done <==> x in old(dirtyColumns) || x in marked
      ensures nodeIsNull || columnIndex in old(dirtyColumns) ==> marked == []
      ensures !nodeIsNull && columnIndex !in old(dirtyColumns) && columns[columnIndex].calculated ==>
                |marked| > 0 && marked[0] == columnIndex
      ensures !nodeIsNull && columnIndex !in old(dirtyColumns) ==>
                DependentsDirty(columns, old(dirtyColumns) + (set x | x in marked), [columnIndex] + marked, -1)
    {
      marked, done := [], [];
      if nodeIsNull {
        return;
      }
      BeginChange();
      ghost var before := dirtyColumns;
      marked := ColumnChanged(columnIndex);
      assert dirtyColumns == before + (set x | x in marked);
      done := EndChange();
    }

    /** addDataColumn: appends the column and recomputes the dependencies. */
    method AddDataColumn(c: Column)
      requires Valid()
      modifies this`columns, this`dependencies, this`calculatedColumns
      ensures columns == old(columns) + [c] && Valid()
    {
      columns := columns + [c];
      InitializeColumnDependencies();
      assert old(calculatedColumns) <= calculatedColumns;
    }
  }
}
