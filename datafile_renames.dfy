/**
 * The renaming operations a datafile can request of its own values, carried out right
 * after the datafile is read and before its values enter the repository.
 *
 * A value `<=old` under the name `new` moves the value of `old` to `new`; a value `>~repl`
 * under the name `pat` renames every name the regular expression `^pat$` matches to its
 * substitution by `repl`. The regular-expression engine is a parameter of the model.
 * The Hashtable iteration orders are arbitrary choices (`:|`), so every contract here holds
 * whatever order the table yields its keys in.
 */
module DatafileRenames {
  import opened Wrappers
  import opened Strings
  import opened Datafiles

  const SIMPLE_RENAME_PREFIX: string := "<="
  const PATTERN_RENAME_PREFIX: string := ">~"

  /** The substitution `s/^pattern$/replacement/` applied to a name: the result, or None
    * when the pattern is malformed. */
  type Substitution = (string, string, string) -> Option<string>

  predicate IsSimpleRename(v: string)
  {
    StartsWith(v, SIMPLE_RENAME_PREFIX)
  }

  predicate IsPatternRename(v: string)
  {
    !IsSimpleRename(v) && StartsWith(v, PATTERN_RENAME_PREFIX)
  }

  /** The values that are data, not renaming operations. */
  function PlainValues(values: map<string, string>): (r: map<string, string>)
    ensures forall k :: k in r <==> k in values && !IsSimpleRename(values[k]) && !IsPatternRename(values[k])
    ensures forall k :: k in r ==> r[k] == values[k]
  {
    map k | k in values && !IsSimpleRename(values[k]) && !IsPatternRename(values[k]) :: values[k]
  }

  /** The simple renaming operations: new name to old name. */
  function SimpleRenames(values: map<string, string>): (r: map<string, string>)
    ensures forall k :: k in r <==> k in values && IsSimpleRename(values[k])
    ensures forall k :: k in r ==> SIMPLE_RENAME_PREFIX + r[k] == values[k]
  {
    map k | k in values && IsSimpleRename(values[k]) :: values[k][|SIMPLE_RENAME_PREFIX|..]
  }

  /** The pattern renaming operations: pattern to replacement. */
  function PatternRenames(values: map<string, string>): (r: map<string, string>)
    ensures forall k :: k in r <==> k in values && IsPatternRename(values[k])
    ensures forall k :: k in r ==> PATTERN_RENAME_PREFIX + r[k] == values[k]
  {
    map k | k in values && IsPatternRename(values[k]) :: values[k][|PATTERN_RENAME_PREFIX|..]
  }

  /** The first pass sorts every value into exactly one of the three kinds, and loses
    * nothing: the datafile's values can be rebuilt from them. */
  lemma PartitionIsExact(values: map<string, string>)
    ensures PlainValues(values).Keys !! SimpleRenames(values).Keys
    ensures PlainValues(values).Keys !! PatternRenames(values).Keys
    ensures SimpleRenames(values).Keys !! PatternRenames(values).Keys
    ensures values == PlainValues(values) +
                      (map k | k in SimpleRenames(values) :: SIMPLE_RENAME_PREFIX + SimpleRenames(values)[k]) +
                      (map k | k in PatternRenames(values) :: PATTERN_RENAME_PREFIX + PatternRenames(values)[k])
  {
  }

  /** The first pass of performRenames: every renaming operation is taken out of the
    * values, the simple ones and the pattern ones into tables of their own. */
  method SplitRenames(values: map<string, string>)
    returns (plain: map<string, string>, simple: map<string, string>, patterns: map<string, string>)
    ensures plain == PlainValues(values)
    ensures simple == SimpleRenames(values)
    ensures patterns == PatternRenames(values)
  {
    plain, simple, patterns := values, map[], map[];
    var unseen := values.Keys;
    while unseen != {}
      invariant unseen <= values.Keys
      invariant plain == SplitState(values, unseen).0
      invariant simple == SplitState(values, unseen).1
      invariant patterns == SplitState(values, unseen).2
      decreases |unseen|
    {
      var name :| name in unseen;
      var value := values[name];
      SplitStateStep(values, unseen, name);
      if StartsWith(value, SIMPLE_RENAME_PREFIX) {
        simple := simple[name := value[|SIMPLE_RENAME_PREFIX|..]];
        plain := plain - {name};
      } else if StartsWith(value, PATTERN_RENAME_PREFIX) {
        patterns := patterns[name := value[|PATTERN_RENAME_PREFIX|..]];
        plain := plain - {name};
      }
      unseen := unseen - {name};
    }
    SplitStateDone(values);
  }

  /** The three tables once the names outside `unseen` have been sorted. */
  function SplitState(values: map<string, string>, unseen: set<string>)
    : (map<string, string>, map<string, string>, map<string, string>)
  {
    (UnsortedOrPlain(values, unseen), SortedWith(values, unseen, IsSimpleRename, |SIMPLE_RENAME_PREFIX|),
     SortedWith(values, unseen, IsPatternRename, |PATTERN_RENAME_PREFIX|))
  }

  function UnsortedOrPlain(values: map<string, string>, unseen: set<string>): map<string, string>
  {
    map k | k in values && (k in unseen || (!IsSimpleRename(values[k]) && !IsPatternRename(values[k]))) :: values[k]
  }

  function SortedWith(values: map<string, string>, unseen: set<string>, kind: string -> bool, cut: nat)
    : map<string, string>
  {
    map k | k in values && k !in unseen && kind(values[k]) && cut <= |values[k]| :: values[k][cut..]
  }

  lemma SplitStateStep(values: map<string, string>, unseen: set<string>, name: string)
    requires name in unseen && unseen <= values.Keys
    ensures var v := values[name];
            UnsortedOrPlain(values, unseen - {name}) ==
              if IsSimpleRename(v) || IsPatternRename(v) then UnsortedOrPlain(values, unseen) - {name}
              else UnsortedOrPlain(values, unseen)
    ensures var v := values[name];
            SortedWith(values, unseen - {name}, IsSimpleRename, 2) ==
              if IsSimpleRename(v) then SortedWith(values, unseen, IsSimpleRename, 2)[name := v[2..]]
              else SortedWith(values, unseen, IsSimpleRename, 2)
    ensures var v := values[name];
            SortedWith(values, unseen - {name}, IsPatternRename, 2) ==
              if IsPatternRename(v) then SortedWith(values, unseen, IsPatternRename, 2)[name := v[2..]]
              else SortedWith(values, unseen, IsPatternRename, 2)
  {
    var v := values[name];
    if IsSimpleRename(v) || IsPatternRename(v) {
      assert UnsortedOrPlain(values, unseen - {name}) == UnsortedOrPlain(values, unseen) - {name};
    } else {
      assert UnsortedOrPlain(values, unseen - {name}) == UnsortedOrPlain(values, unseen);
    }
    if IsSimpleRename(v) {
      assert SortedWith(values, unseen - {name}, IsSimpleRename, 2) ==
             SortedWith(values, unseen, IsSimpleRename, 2)[name := v[2..]];
    } else {
      assert SortedWith(values, unseen - {name}, IsSimpleRename, 2) == SortedWith(values, unseen, IsSimpleRename, 2);
    }
    if IsPatternRename(v) {
      assert SortedWith(values, unseen - {name}, IsPatternRename, 2) ==
             SortedWith(values, unseen, IsPatternRename, 2)[name := v[2..]];
    } else {
      assert SortedWith(values, unseen - {name}, IsPatternRename, 2) == SortedWith(values, unseen, IsPatternRename, 2);
    }
  }

  lemma SplitStateDone(values: map<string, string>)
    ensures SplitState(values, {}) == (PlainValues(values), SimpleRenames(values), PatternRenames(values))
  {
    assert UnsortedOrPlain(values, {}) == PlainValues(values);
    assert SortedWith(values, {}, IsSimpleRename, 2) == SimpleRenames(values);
    assert SortedWith(values, {}, IsPatternRename, 2) == PatternRenames(values);
  }

  /** `newName` is what some pattern operation renames the data name `oldName` to. */
  ghost predicate Derived(plain: map<string, string>, patterns: map<string, string>, subst: Substitution,
                    newName: string, oldName: string)
  {
    oldName in plain && newName != oldName &&
    exists p :: p in patterns && subst(p, patterns[p], oldName) == Some(newName)
  }

  /** Some pattern operation renames some data name to `newName`. */
  ghost predicate DerivedName(plain: map<string, string>, patterns: map<string, string>, subst: Substitution,
                        newName: string)
  {
    exists p, n :: p in patterns && n in plain && subst(p, patterns[p], n) == Some(newName) && newName != n
  }

  /** Some pattern operation is malformed and there is a data name to apply it to. */
  ghost predicate SomePatternFails(plain: map<string, string>, patterns: map<string, string>, subst: Substitution)
  {
    exists p, n :: p in patterns && n in plain && subst(p, patterns[p], n).None?
  }

  /** The renaming table the second pass builds: the simple operations, plus one for every
    * data name a pattern operation changes, which overrides a simple one for the same new
    * name. */
  ghost predicate RenameTable(plain: map<string, string>, simple: map<string, string>, patterns: map<string, string>,
                              subst: Substitution, table: map<string, string>)
  {
    (forall k :: k in table <==> k in simple || DerivedName(plain, patterns, subst, k)) &&
    (forall k :: k in table && !DerivedName(plain, patterns, subst, k) ==> table[k] == simple[k]) &&
    (forall k :: k in table && DerivedName(plain, patterns, subst, k) ==> Derived(plain, patterns, subst, k, table[k]))
  }

  /** Without pattern operations the table is the simple operations. */
  lemma NoPatternsTable(plain: map<string, string>, simple: map<string, string>, subst: Substitution,
                        table: map<string, string>)
    requires RenameTable(plain, simple, map[], subst, table)
    ensures table == simple
  {
    assert forall k :: !DerivedName(plain, map[], subst, k);
  }

  /** The second pass of performRenames: each pattern operation is applied to every data
    * name, and each name it changes becomes a simple renaming operation, overriding one
    * for the same new name. A malformed pattern makes the datafile invalid. */
  method AddPatternRenames(plain: map<string, string>, simple: map<string, string>,
                           patterns: map<string, string>, subst: Substitution)
    returns (r: Result<map<string, string>, LoadError>)
    ensures r.Err? <==> SomePatternFails(plain, patterns, subst)
    ensures r.Err? ==> r.error == InvalidDatafileFormat
    ensures r.Ok? ==> RenameTable(plain, simple, patterns, subst, r.value)
  {
    var renames := simple;
    var todo := patterns.Keys;
    while todo != {}
      invariant todo <= patterns.Keys
      invariant forall p, n :: p in patterns && p !in todo && n in plain ==> subst(p, patterns[p], n).Some?
      invariant RenamesSoFar(plain, simple, patterns, subst, todo, renames)
      decreases |todo|
    {
      var name :| name in todo;
      var next := ApplyPattern(plain, simple, patterns, subst, todo, name, renames);
      if next.Err? {
        return Err(InvalidDatafileFormat);
      }
      renames := next.value;
      todo := todo - {name};
    }
    r := Ok(renames);
    DoneNameAll(plain, patterns, subst);
  }

  /** One pattern operation applied to every data name. */
  method ApplyPattern(plain: map<string, string>, simple: map<string, string>, patterns: map<string, string>,
                      subst: Substitution, todo: set<string>, name: string, renames: map<string, string>)
    returns (r: Result<map<string, string>, LoadError>)
    requires name in todo && todo <= patterns.Keys
    requires RenamesSoFar(plain, simple, patterns, subst, todo, renames)
    ensures r.Err? ==> SomePatternFails(plain, patterns, subst)
    ensures r.Ok? ==> forall n :: n in plain ==> subst(name, patterns[name], n).Some?
    ensures r.Ok? ==> RenamesSoFar(plain, simple, patterns, subst, todo - {name}, r.value)
  {
    var re := patterns[name];
    var unseen := plain.Keys;
    var table := renames;
    while unseen != {}
      invariant unseen <= plain.Keys
      invariant forall n :: n in plain && n !in unseen ==> subst(name, re, n).Some?
      invariant RenamesWithin(plain, simple, patterns, subst, todo, name, unseen, table)
      decreases |unseen|
    {
      var valueName :| valueName in unseen;
      var valueRename := subst(name, re, valueName);
      if valueRename.None? {
        assert name in patterns && valueName in plain && subst(name, patterns[name], valueName).None?;
        return Err(InvalidDatafileFormat);
      }
      var before := table;
      if valueName != valueRename.value {
        table := table[valueRename.value := valueName];
      }
      RenamesWithinStep(plain, simple, patterns, subst, todo, name, unseen, before, table, valueName);
      unseen := unseen - {valueName};
    }
    RenamesWithinDone(plain, simple, patterns, subst, todo, name, table);
    r := Ok(table);
  }

  /** The renaming table once the pattern operations outside `todo` are applied. */
  ghost predicate RenamesSoFar(plain: map<string, string>, simple: map<string, string>, patterns: map<string, string>,
                         subst: Substitution, todo: set<string>, renames: map<string, string>)
  {
    (forall k :: k in renames <==> k in simple || DoneName(plain, patterns, todo, subst, k)) &&
    (forall k :: k in renames && !DoneName(plain, patterns, todo, subst, k) ==> renames[k] == simple[k]) &&
    (forall k :: k in renames && DoneName(plain, patterns, todo, subst, k) ==> Derived(plain, patterns, subst, k, renames[k]))
  }

  /** `newName` is what the pattern `p` renames some data name outside `unseen` to. */
  ghost predicate NameFrom(plain: map<string, string>, patterns: map<string, string>, subst: Substitution,
                     p: string, unseen: set<string>, newName: string)
    requires p in patterns
  {
    exists n :: n in plain && n !in unseen && subst(p, patterns[p], n) == Some(newName) && newName != n
  }

  /** The renaming table while the pattern `p` is being applied to the names outside `unseen`. */
  ghost predicate RenamesWithin(plain: map<string, string>, simple: map<string, string>, patterns: map<string, string>,
                          subst: Substitution, todo: set<string>, p: string, unseen: set<string>,
                          renames: map<string, string>)
    requires p in patterns
  {
    (forall k :: k in renames <==> k in simple || DoneName(plain, patterns, todo, subst, k) ||
                                   NameFrom(plain, patterns, subst, p, unseen, k)) &&
    (forall k :: (k in renames && !DoneName(plain, patterns, todo, subst, k) &&
                  !NameFrom(plain, patterns, subst, p, unseen, k)) ==> renames[k] == simple[k]) &&
    (forall k :: k in renames && (DoneName(plain, patterns, todo, subst, k) ||
                                  NameFrom(plain, patterns, subst, p, unseen, k)) ==>
                 Derived(plain, patterns, subst, k, renames[k]))
  }

  lemma RenamesWithinStep(plain: map<string, string>, simple: map<string, string>, patterns: map<string, string>,
                          subst: Substitution, todo: set<string>, p: string, unseen: set<string>,
                          before: map<string, string>, after: map<string, string>, n: string)
    requires p in patterns && n in unseen && unseen <= plain.Keys
    requires subst(p, patterns[p], n).Some?
    requires RenamesWithin(plain, simple, patterns, subst, todo, p, unseen, before)
    requires var m := subst(p, patterns[p], n).value;
             after == if m != n then before[m := n] else before
    ensures RenamesWithin(plain, simple, patterns, subst, todo, p, unseen - {n}, after)
  {
    var m := subst(p, patterns[p], n).value;
    forall k | NameFrom(plain, patterns, subst, p, unseen - {n}, k)
      ensures k == m || NameFrom(plain, patterns, subst, p, unseen, k)
    {
      var n' :| n' in plain && n' !in unseen - {n} && subst(p, patterns[p], n') == Some(k) && k != n';
      if n' != n {
        assert n' !in unseen;
      }
    }
    if m != n {
      assert NameFrom(plain, patterns, subst, p, unseen - {n}, m);
      assert Derived(plain, patterns, subst, m, n);
    }
  }

  lemma RenamesWithinDone(plain: map<string, string>, simple: map<string, string>, patterns: map<string, string>,
                          subst: Substitution, todo: set<string>, p: string, renames: map<string, string>)
    requires p in patterns && p in todo
    requires RenamesWithin(plain, simple, patterns, subst, todo, p, {}, renames)
    ensures RenamesSoFar(plain, simple, patterns, subst, todo - {p}, renames)
  {
    forall k
      ensures DoneName(plain, patterns, todo - {p}, subst, k) <==>
              DoneName(plain, patterns, todo, subst, k) || NameFrom(plain, patterns, subst, p, {}, k)
    {
      if DoneName(plain, patterns, todo - {p}, subst, k) {
        var q, n :| q in patterns && q !in todo - {p} && n in plain && subst(q, patterns[q], n) == Some(k) && k != n;
        if q == p {
          assert NameFrom(plain, patterns, subst, p, {}, k);
        }
      }
    }
  }

  /** Some pattern operation outside `todo` renames some data name to `newName`. */
  ghost predicate DoneName(plain: map<string, string>, patterns: map<string, string>, todo: set<string>,
                     subst: Substitution, newName: string)
  {
    exists p, n :: p in patterns && p !in todo && n in plain && subst(p, patterns[p], n) == Some(newName) && newName != n
  }

  lemma DoneNameAll(plain: map<string, string>, patterns: map<string, string>, subst: Substitution)
    ensures forall k :: DoneName(plain, patterns, {}, subst, k) <==> DerivedName(plain, patterns, subst, k)
  {
  }

  /** The values of a map, as a set. */
  function Values(m: map<string, string>): (r: set<string>)
    ensures forall v :: v in r <==> exists k :: k in m && m[k] == v
  {
    set k | k in m :: m[k]
  }

  lemma ValuesRemove(m: map<string, string>, x: string)
    ensures Values(m - {x}) <= Values(m)
    ensures x in m ==> |m - {x}| == |m| - 1
    ensures x !in m ==> m - {x} == m
  {
    if x in m {
      assert (m - {x}).Keys == m.Keys - {x};
    }
  }

  lemma ValuesUpdate(m: map<string, string>, k: string, v: string)
    ensures Values(m[k := v]) <= Values(m) + {v}
    ensures |m[k := v]| <= |m| + 1
  {
    assert m[k := v].Keys == m.Keys + {k};
  }

  /** `p` follows renaming operations: each name of it but the last is a new name whose
    * operation takes its value from the next. */
  ghost predicate RenamePath(initial: map<string, string>, p: seq<string>)
  {
    |p| >= 1 && (|p| == 1 || (p[0] in initial && initial[p[0]] == p[1] && RenamePath(initial, p[1..])))
  }

  /** Every name left holds the data value of a data name its chain of operations reaches,
    * possibly the name itself. */
  ghost predicate ValuesTraced(plain: map<string, string>, initial: map<string, string>, values: map<string, string>)
  {
    forall k :: k in values ==>
      exists p :: RenamePath(initial, p) && p[0] == k && p[|p| - 1] in plain && values[k] == plain[p[|p| - 1]]
  }

  /** ValuesTraced with the paths given: `origin[k]` is the path the value of `k` came along. */
  ghost predicate Traced(plain: map<string, string>, initial: map<string, string>, values: map<string, string>,
                         origin: map<string, seq<string>>)
  {
    forall k :: k in values ==> k in origin && TracedAt(plain, initial, origin[k], k, values[k])
  }

  /** `v` is the data value at the end of `p`, a path of operations from `k`. */
  ghost predicate TracedAt(plain: map<string, string>, initial: map<string, string>, p: seq<string>, k: string, v: string)
  {
    RenamePath(initial, p) && p[0] == k && p[|p| - 1] in plain && v == plain[p[|p| - 1]]
  }

  /** Before any operation every data value sits at its own name. */
  lemma TracedStart(plain: map<string, string>, initial: map<string, string>)
    ensures Traced(plain, initial, plain, map k | k in plain :: [k])
  {
  }

  /** A path to a name that an operation renames, followed by that operation. */
  lemma {:induction false} PathExtend(initial: map<string, string>, p: seq<string>, next: string)
    requires RenamePath(initial, p) && p[|p| - 1] in initial && initial[p[|p| - 1]] == next
    ensures RenamePath(initial, p + [next]) && (p + [next])[0] == p[0]
  {
    if |p| > 1 {
      PathExtend(initial, p[1..], next);
      assert (p + [next])[1..] == p[1..] + [next];
    }
  }

  /** A path followed by a path from its last name. */
  lemma {:induction false} PathJoin(plain: map<string, string>, initial: map<string, string>, p: seq<string>,
                                    q: seq<string>, v: string)
    requires RenamePath(initial, p) && TracedAt(plain, initial, q, p[|p| - 1], v)
    ensures TracedAt(plain, initial, p + q[1..], p[0], v)
  {
    if |p| == 1 {
      assert p + q[1..] == q;
    } else {
      PathJoin(plain, initial, p[1..], q, v);
      assert (p + q[1..])[1..] == p[1..] + q[1..];
    }
  }

  /** Following one operation's chain: the values left are still traced, `trail` is the
    * path from the new name to the old name last tried, and a value found there is traced
    * from that old name. */
  ghost predicate TrailInvariant(plain: map<string, string>, initial: map<string, string>, origin: map<string, seq<string>>,
                                 values: map<string, string>, trail: seq<string>, newName: string, oldName: string,
                                 value: Option<string>)
  {
    Traced(plain, initial, values, origin) &&
    RenamePath(initial, trail) && trail[0] == newName && trail[|trail| - 1] == oldName &&
    (value.Some? ==> oldName in origin && TracedAt(plain, initial, origin[oldName], oldName, value.value))
  }

  /** The first link of a chain, traced. */
  lemma TrailStart(plain: map<string, string>, initial: map<string, string>, origin: map<string, seq<string>>,
                   values: map<string, string>, newName: string)
    requires Traced(plain, initial, values, origin) && newName in initial
    ensures var oldName := initial[newName];
            TrailInvariant(plain, initial, origin, values - {oldName}, [newName, oldName], newName, oldName,
                           Lookup(values, oldName))
  {
    assert RenamePath(initial, [newName, initial[newName]][1..]);
  }

  /** One more link of a chain, traced. */
  lemma TrailStep(plain: map<string, string>, initial: map<string, string>, origin: map<string, seq<string>>,
                  values: map<string, string>, trail: seq<string>, newName: string, oldName: string)
    requires TrailInvariant(plain, initial, origin, values, trail, newName, oldName, None) && oldName in initial
    ensures var next := initial[oldName];
            TrailInvariant(plain, initial, origin, values - {next}, trail + [next], newName, next, Lookup(values, next))
  {
    PathExtend(initial, trail, initial[oldName]);
  }

  /** The end of a chain that found a value: the value is traced from the new name. */
  lemma TrailEnd(plain: map<string, string>, initial: map<string, string>, origin: map<string, seq<string>>,
                 values: map<string, string>, trail: seq<string>, newName: string, oldName: string, v: string)
    requires TrailInvariant(plain, initial, origin, values, trail, newName, oldName, Some(v))
    ensures TracedAt(plain, initial, trail + origin[oldName][1..], newName, v)
  {
    PathJoin(plain, initial, trail, origin[oldName], v);
  }

  /** A value traced from `k` moved to `k` keeps the values traced. */
  lemma TracedMove(plain: map<string, string>, initial: map<string, string>, values: map<string, string>,
                   origin: map<string, seq<string>>, k: string, v: string, path: seq<string>)
    requires Traced(plain, initial, values, origin) && TracedAt(plain, initial, path, k, v)
    ensures Traced(plain, initial, values[k := v], origin[k := path])
  {
  }

  /** The paths given witness ValuesTraced. */
  lemma TracedValues(plain: map<string, string>, initial: map<string, string>, values: map<string, string>,
                     origin: map<string, seq<string>>)
    requires Traced(plain, initial, values, origin)
    ensures ValuesTraced(plain, initial, values)
  {
    forall k | k in values
      ensures exists p :: RenamePath(initial, p) && p[0] == k && p[|p| - 1] in plain && values[k] == plain[p[|p| - 1]]
    {
      assert TracedAt(plain, initial, origin[k], k, values[k]);
    }
  }

  /** What the third pass guarantees, whatever order it takes the operations of `initial`
    * in: every name left is a data name or a new name, every value left is a data value,
    * there are no more values than there were data values, a data name no operation
    * mentions keeps its value, an old name is gone unless it is a data name that is also a
    * new name, and `renamed` holds exactly when some operation's old name is a data name;
    * once one is, some new name holds a value, and when none is the values are the data. */
  ghost predicate RenamesOutcome(plain: map<string, string>, initial: map<string, string>,
                                 values: map<string, string>, renamed: bool)
  {
    values.Keys <= plain.Keys + initial.Keys &&
    Values(values) <= Values(plain) &&
    |values| <= |plain| &&
    (forall k :: k in plain && k !in initial && k !in Values(initial) ==> k in values && values[k] == plain[k]) &&
    (forall j :: j in initial && initial[j] !in initial ==> initial[j] !in values) &&
    (forall j :: j in initial && initial[j] !in plain ==> initial[j] !in values) &&
    (renamed <==> exists j :: j in initial && initial[j] in plain) &&
    (renamed ==> exists k :: k in initial && k in values) &&
    (!renamed ==> values == plain) &&
    ValuesTraced(plain, initial, values)
  }

  /** The part of RenamesOutcome the loop invariant gives. */
  lemma PassShape(plain: map<string, string>, initial: map<string, string>, values: map<string, string>, renamed: bool)
    requires PassInvariant(plain, initial, values, map[], renamed)
    ensures values.Keys <= plain.Keys + initial.Keys
    ensures Values(values) <= Values(plain) && |values| <= |plain|
    ensures forall k :: k in plain && k !in initial && k !in Values(initial) ==> k in values && values[k] == plain[k]
    ensures forall j :: j in initial && initial[j] !in initial ==> initial[j] !in values
    ensures forall j :: j in initial && initial[j] !in plain ==> initial[j] !in values
    ensures renamed <==> exists j :: j in initial && initial[j] in plain
    ensures renamed ==> exists k :: k in initial && k in values
    ensures !renamed ==> values == plain
  {
  }

  /** The third pass's loop invariant: `renames` is what is left of `initial`. */
  ghost predicate PassInvariant(plain: map<string, string>, initial: map<string, string>,
                                values: map<string, string>, renames: map<string, string>, renamed: bool)
  {
    (forall k :: k in renames ==> k in initial && renames[k] == initial[k]) &&
    Values(values) <= Values(plain) &&
    |values| <= |plain| &&
    (forall k :: k in values ==> k in plain || (k in initial && k !in renames)) &&
    (forall k :: k in plain && k !in initial && k !in Values(initial) ==> k in values && values[k] == plain[k]) &&
    (forall j :: j in initial && j !in renames && initial[j] !in initial ==> initial[j] !in values) &&
    (forall j :: j in initial && j !in renames && initial[j] !in plain ==>
       initial[j] !in values && initial[j] !in renames) &&
    (forall j :: j in initial && j !in renames && initial[j] in plain ==> renamed) &&
    (forall k :: k in plain && k !in values ==> renamed) &&
    (renamed ==> exists k :: k in initial && k in values) &&
    (renamed ==> exists j :: j in initial && initial[j] in plain) &&
    (!renamed ==> values == plain)
  }

  /** The invariant of one operation's chain: `start` are the values before it, `newName`
    * the operation, `oldName` the last old name tried and `value` what it held. */
  ghost predicate ChainInvariant(plain: map<string, string>, initial: map<string, string>,
                                 start: map<string, string>, renamed: bool, newName: string,
                                 values: map<string, string>, renames: map<string, string>,
                                 value: Option<string>, oldName: string)
  {
    ChainFrame(plain, initial, newName, values, renames) &&
    ChainLinks(plain, initial, newName, values, renames, value, oldName) &&
    ChainProgress(plain, initial, start, renamed, values, renames, value)
  }

  /** The table only shrinks, and the values keep to data names, data values and the
    * operations already carried out. */
  ghost predicate ChainFrame(plain: map<string, string>, initial: map<string, string>, newName: string,
                             values: map<string, string>, renames: map<string, string>)
  {
    newName in initial &&
    (forall k :: k in renames ==> k in initial && renames[k] == initial[k]) &&
    Values(values) <= Values(plain) &&
    (forall k :: k in values ==> k in plain || (k in initial && k !in renames)) &&
    (forall k :: k in plain && k !in initial && k !in Values(initial) ==> k in values && values[k] == plain[k]) &&
    (forall j :: j in initial && j !in renames && initial[j] !in initial ==> initial[j] !in values)
  }

  /** The old names of the operations carried out are gone, but for the one the chain is
    * still to follow; a chain that comes back to its own new name ends there. */
  ghost predicate ChainLinks(plain: map<string, string>, initial: map<string, string>, newName: string,
                             values: map<string, string>, renames: map<string, string>,
                             value: Option<string>, oldName: string)
  {
    (forall j :: j in initial && j !in renames && initial[j] !in plain ==>
       initial[j] !in values && (initial[j] !in renames || (value.None? && initial[j] == oldName))) &&
    (newName !in plain ==> newName !in values) &&
    (forall j :: j in initial && j !in renames && initial[j] == newName && newName !in plain ==>
       value.None? && oldName == newName) &&
    (newName in renames ==>
       oldName == newName && forall j :: j in initial && j !in renames && initial[j] == newName ==> newName in plain)
  }

  /** What has moved so far, and the count of values. */
  ghost predicate ChainProgress(plain: map<string, string>, initial: map<string, string>,
                                start: map<string, string>, renamed: bool,
                                values: map<string, string>, renames: map<string, string>, value: Option<string>)
  {
    (forall j :: j in initial && j !in renames && initial[j] in plain ==> renamed || value.Some?) &&
    (forall k :: k in plain && k !in values ==> renamed || value.Some?) &&
    (renamed && value.None? ==> exists k :: k in initial && k in values) &&
    (renamed || value.Some? ==> exists j :: j in initial && initial[j] in plain) &&
    (!renamed ==> start == plain) &&
    (value.None? ==> values == start) &&
    (value.Some? ==> value.value in Values(plain) && |values| + 1 == |start| && |start| <= |plain|) &&
    (value.None? ==> |start| <= |plain|)
  }

  lemma ChainStart(plain: map<string, string>, initial: map<string, string>,
                   values: map<string, string>, renames: map<string, string>, renamed: bool, newName: string)
    requires PassInvariant(plain, initial, values, renames, renamed) && newName in renames
    ensures ChainInvariant(plain, initial, values, renamed, newName, values, renames, None, newName)
  {
    assert ChainFrame(plain, initial, newName, values, renames);
    assert ChainLinks(plain, initial, newName, values, renames, None, newName);
    assert ChainProgress(plain, initial, values, renamed, values, renames, None);
  }

  /** The first link of a chain: the operation taken leaves the table and the value of its
    * old name leaves the values. */
  lemma ChainFirst(plain: map<string, string>, initial: map<string, string>,
                   values: map<string, string>, renames: map<string, string>, renamed: bool, newName: string)
    requires PassInvariant(plain, initial, values, renames, renamed) && newName in renames
    ensures var oldName := renames[newName];
            ChainInvariant(plain, initial, values, renamed, newName, values - {oldName}, renames - {newName},
                           Lookup(values, oldName), oldName)
  {
    ChainStart(plain, initial, values, renames, renamed, newName);
    ChainStep(plain, initial, values, renamed, newName, values, renames, newName);
  }

  /** One link of a chain: the entry under `oldName` leaves the table and the value of its
    * own old name leaves the values. */
  lemma ChainStep(plain: map<string, string>, initial: map<string, string>,
                  start: map<string, string>, renamed: bool, newName: string,
                  values: map<string, string>, renames: map<string, string>, oldName: string)
    requires ChainInvariant(plain, initial, start, renamed, newName, values, renames, None, oldName)
    requires oldName in renames
    ensures var next := renames[oldName];
            ChainInvariant(plain, initial, start, renamed, newName, values - {next}, renames - {oldName},
                           Lookup(values, next), next)
  {
    var next := renames[oldName];
    ValuesRemove(values, next);
    ChainFrameStep(plain, initial, newName, values, renames, oldName);
    ChainLinksStep(plain, initial, newName, values, renames, oldName);
    ChainProgressStep(plain, initial, start, renamed, newName, values, renames, oldName);
  }

  lemma ChainFrameStep(plain: map<string, string>, initial: map<string, string>, newName: string,
                       values: map<string, string>, renames: map<string, string>, oldName: string)
    requires ChainFrame(plain, initial, newName, values, renames) && oldName in renames
    ensures ChainFrame(plain, initial, newName, values - {renames[oldName]}, renames - {oldName})
  {
    ValuesRemove(values, renames[oldName]);
    assert initial[oldName] in Values(initial);
  }

  lemma ChainLinksStep(plain: map<string, string>, initial: map<string, string>, newName: string,
                       values: map<string, string>, renames: map<string, string>, oldName: string)
    requires ChainFrame(plain, initial, newName, values, renames)
    requires ChainLinks(plain, initial, newName, values, renames, None, oldName) && oldName in renames
    ensures var next := renames[oldName];
            ChainLinks(plain, initial, newName, values - {next}, renames - {oldName}, Lookup(values, next), next)
  {
  }

  lemma ChainProgressStep(plain: map<string, string>, initial: map<string, string>,
                          start: map<string, string>, renamed: bool, newName: string,
                          values: map<string, string>, renames: map<string, string>, oldName: string)
    requires ChainFrame(plain, initial, newName, values, renames)
    requires ChainProgress(plain, initial, start, renamed, values, renames, None) && oldName in renames
    ensures var next := renames[oldName];
            ChainProgress(plain, initial, start, renamed, values - {next}, renames - {oldName}, Lookup(values, next))
  {
    var next := renames[oldName];
    ValuesRemove(values, next);
    if next in values {
      assert values[next] in Values(values);
      if next in plain {
        assert initial[oldName] == next;
      }
    }
  }

  /** The end of a chain that found no value: nothing moves. */
  lemma ChainEndEmpty(plain: map<string, string>, initial: map<string, string>,
                      start: map<string, string>, renamed: bool, newName: string,
                      values: map<string, string>, renames: map<string, string>, oldName: string)
    requires ChainInvariant(plain, initial, start, renamed, newName, values, renames, None, oldName)
    requires oldName !in renames && newName !in renames
    ensures PassInvariant(plain, initial, values, renames, renamed)
  {
  }

  /** The end of a chain that found a value: it moves to the new name. */
  lemma ChainEndMove(plain: map<string, string>, initial: map<string, string>,
                     start: map<string, string>, renamed: bool, newName: string,
                     values: map<string, string>, renames: map<string, string>, v: string, oldName: string)
    requires ChainInvariant(plain, initial, start, renamed, newName, values, renames, Some(v), oldName)
    requires newName !in renames
    ensures PassInvariant(plain, initial, values[newName := v], renames, true)
  {
    EndMoveKeys(plain, initial, newName, values, renames, v, oldName);
    EndMoveCounts(plain, initial, start, renamed, newName, values, renames, v);
  }

  /** Moving the value found to the new name keeps the names left where they may be. */
  lemma EndMoveKeys(plain: map<string, string>, initial: map<string, string>, newName: string,
                    values: map<string, string>, renames: map<string, string>, v: string, oldName: string)
    requires ChainFrame(plain, initial, newName, values, renames)
    requires ChainLinks(plain, initial, newName, values, renames, Some(v), oldName)
    requires newName !in renames
    ensures var after := values[newName := v];
            (forall k :: k in after ==> k in plain || (k in initial && k !in renames)) &&
            (forall k :: k in plain && k !in initial && k !in Values(initial) ==> k in after && after[k] == plain[k]) &&
            (forall j :: j in initial && j !in renames && initial[j] !in initial ==> initial[j] !in after) &&
            (forall j :: j in initial && j !in renames && initial[j] !in plain ==>
               initial[j] !in after && initial[j] !in renames)
  {
  }

  /** Moving the value found to the new name keeps the values and their count within the data. */
  lemma EndMoveCounts(plain: map<string, string>, initial: map<string, string>,
                      start: map<string, string>, renamed: bool, newName: string,
                      values: map<string, string>, renames: map<string, string>, v: string)
    requires Values(values) <= Values(plain) && newName in initial
    requires ChainProgress(plain, initial, start, renamed, values, renames, Some(v))
    ensures var after := values[newName := v];
            Values(after) <= Values(plain) && |after| <= |plain| &&
            newName in after && exists j :: j in initial && initial[j] in plain
  {
    ValuesUpdate(values, newName, v);
  }

  /** The end of a chain: a value found moves to the new name, and otherwise nothing moves. */
  lemma ChainEnd(plain: map<string, string>, initial: map<string, string>,
                 start: map<string, string>, renamed: bool, newName: string,
                 values: map<string, string>, renames: map<string, string>, value: Option<string>, oldName: string)
    requires ChainInvariant(plain, initial, start, renamed, newName, values, renames, value, oldName)
    requires newName !in renames && (value.None? ==> oldName !in renames)
    ensures value.None? ==> PassInvariant(plain, initial, values, renames, renamed)
    ensures value.Some? ==> PassInvariant(plain, initial, values[newName := value.value], renames, true)
  {
    if value.Some? {
      ChainEndMove(plain, initial, start, renamed, newName, values, renames, value.value, oldName);
    } else {
      ChainEndEmpty(plain, initial, start, renamed, newName, values, renames, oldName);
    }
  }

  lemma PassDone(plain: map<string, string>, initial: map<string, string>, values: map<string, string>, renamed: bool,
                  origin: map<string, seq<string>>)
    requires PassInvariant(plain, initial, values, map[], renamed) && Traced(plain, initial, values, origin)
    ensures RenamesOutcome(plain, initial, values, renamed)
  {
    PassShape(plain, initial, values, renamed);
    TracedValues(plain, initial, values, origin);
  }

  /** The third pass of performRenames: each renaming operation, taken in any order, moves
    * the value of its old name to its new name; when the old name has no value, the chain of
    * operations that renamed the old name is followed back until a value turns up. Returns
    * whether any value moved. */
  method ApplyRenames(plain: map<string, string>, initial: map<string, string>)
    returns (values: map<string, string>, renamed: bool)
    ensures RenamesOutcome(plain, initial, values, renamed)
  {
    values, renamed := plain, false;
    var renames := initial;
    ghost var origin: map<string, seq<string>> := map k | k in plain :: [k];
    TracedStart(plain, initial);
    while renames != map[]
      invariant PassInvariant(plain, initial, values, renames, renamed)
      invariant Traced(plain, initial, values, origin)
      decreases |renames|
    {
      var newName :| newName in renames;
      var value;
      ghost var path;
      values, renames, value, path := FollowChain(plain, initial, values, renames, renamed, newName, origin);
      if value.Some? {
        TracedMove(plain, initial, values, origin, newName, value.value, path);
        values := values[newName := value.value];
        origin := origin[newName := path];
        renamed := true;
      }
    }
    PassDone(plain, initial, values, renamed, origin);
  }

  /** One operation of the third pass up to the move: the entry under `newName` is taken
    * from the table and the value of its old name from the values; while no value turns
    * up, the entry under the old name is taken too and its own old name tried. */
  method FollowChain(plain: map<string, string>, initial: map<string, string>,
                     values: map<string, string>, renames: map<string, string>, renamed: bool, newName: string,
                     ghost origin: map<string, seq<string>>)
    returns (values': map<string, string>, renames': map<string, string>, value: Option<string>, ghost path: seq<string>)
    requires PassInvariant(plain, initial, values, renames, renamed) && newName in renames
    requires Traced(plain, initial, values, origin)
    ensures |renames'| < |renames|
    ensures value.None? ==> PassInvariant(plain, initial, values', renames', renamed)
    ensures value.Some? ==> PassInvariant(plain, initial, values'[newName := value.value], renames', true)
    ensures Traced(plain, initial, values', origin)
    ensures value.Some? ==> TracedAt(plain, initial, path, newName, value.value)
  {
    var oldName := renames[newName];
    ChainFirst(plain, initial, values, renames, renamed, newName);
    TrailStart(plain, initial, origin, values, newName);
    ghost var trail;
    RemoveShrinks(renames, newName);
    values', renames', value, oldName, trail :=
      FollowLinks(plain, initial, values, renamed, newName, values - {oldName}, renames - {newName},
                  Lookup(values, oldName), oldName, origin, [newName, oldName]);
    ChainEnd(plain, initial, values, renamed, newName, values', renames', value, oldName);
    path := [];
    if value.Some? {
      TrailEnd(plain, initial, origin, values', trail, newName, oldName, value.value);
      path := trail + origin[oldName][1..];
    }
  }

  /** The loop of FollowChain: while no value has turned up and the old name last tried is
    * itself a new name still in the table, its entry is taken and its own old name tried. */
  method FollowLinks(plain: map<string, string>, initial: map<string, string>, values: map<string, string>,
                     renamed: bool, newName: string, values0: map<string, string>, renames0: map<string, string>,
                     value0: Option<string>, oldName0: string, ghost origin: map<string, seq<string>>,
                     ghost trail0: seq<string>)
    returns (values': map<string, string>, renames': map<string, string>, value: Option<string>, oldName: string,
             ghost trail: seq<string>)
    requires ChainInvariant(plain, initial, values, renamed, newName, values0, renames0, value0, oldName0)
    requires newName !in renames0
    requires TrailInvariant(plain, initial, origin, values0, trail0, newName, oldName0, value0)
    ensures ChainInvariant(plain, initial, values, renamed, newName, values', renames', value, oldName)
    ensures |renames'| <= |renames0| && newName !in renames'
    ensures TrailInvariant(plain, initial, origin, values', trail, newName, oldName, value)
    ensures value.None? ==> oldName !in renames'
  {
    values', renames', value, oldName, trail := values0, renames0, value0, oldName0, trail0;
    while value.None? && oldName in renames'
      invariant ChainInvariant(plain, initial, values, renamed, newName, values', renames', value, oldName)
      invariant newName !in renames' && |renames'| <= |renames0|
      invariant TrailInvariant(plain, initial, origin, values', trail, newName, oldName, value)
      decreases |renames'|
    {
      var next := renames'[oldName];
      ChainStep(plain, initial, values, renamed, newName, values', renames', oldName);
      TrailStep(plain, initial, origin, values', trail, newName, oldName);
      RemoveShrinks(renames', oldName);
      trail := trail + [next];
      renames' := renames' - {oldName};
      oldName := next;
      value := Lookup(values', oldName);
      values' := values' - {oldName};
    }
  }

  /** Taking an entry out of a table makes it smaller. */
  lemma RemoveShrinks(m: map<string, string>, k: string)
    requires k in m
    ensures |m - {k}| == |m| - 1
  {
    assert (m - {k}).Keys == m.Keys - {k};
  }

  /** With the one operation `new=<=old`, a path from `new` is `new` alone or `new`, `old`. */
  lemma SinglePath(oldName: string, newName: string, p: seq<string>)
    requires oldName != newName && RenamePath(map[newName := oldName], p) && p[0] == newName
    ensures |p| == 1 || p == [newName, oldName]
  {
    if |p| > 1 {
      var q := p[1..];
      assert q[0] == oldName && RenamePath(map[newName := oldName], q);
      assert |q| == 1;
      assert p == [newName, oldName];
    }
  }

  /** A name that no operation renames to and that still holds a value holds its own
    * data value. */
  lemma UntargetedKeeps(plain: map<string, string>, initial: map<string, string>, values: map<string, string>, k: string)
    requires ValuesTraced(plain, initial, values) && k in values && k !in initial
    ensures k in plain && values[k] == plain[k]
  {
    var p :| RenamePath(initial, p) && p[0] == k && p[|p| - 1] in plain && values[k] == plain[p[|p| - 1]];
    assert |p| == 1;
  }

  /** With the one operation `new=<=old`, a new name holding no data value can only hold
    * the value of the old name. */
  lemma SingleTargetValue(plain: map<string, string>, oldName: string, newName: string, values: map<string, string>)
    requires ValuesTraced(plain, map[newName := oldName], values) && newName in values && newName !in plain
    requires oldName != newName
    ensures oldName in plain && values[newName] == plain[oldName]
  {
    var initial := map[newName := oldName];
    var p :| RenamePath(initial, p) && p[0] == newName && p[|p| - 1] in plain && values[newName] == plain[p[|p| - 1]];
    SinglePath(oldName, newName, p);
  }

  /** A single rename `new=<=old` of a data name to a name holding no data value moves
    * the old name's value to the new name, and every other data value stays. */
  lemma SingleRenameMoves(plain: map<string, string>, oldName: string, newName: string,
                          values: map<string, string>, renamed: bool)
    requires oldName in plain && newName !in plain
    requires RenamesOutcome(plain, map[newName := oldName], values, renamed)
    ensures renamed && oldName !in values && newName in values && values[newName] == plain[oldName]
    ensures forall k :: k != oldName && k != newName ==> (k in values <==> k in plain) && (k in values ==> values[k] == plain[k])
  {
    var initial := map[newName := oldName];
    SingleTargetValue(plain, oldName, newName, values);
    forall k | k != oldName && k != newName
      ensures (k in values <==> k in plain) && (k in values ==> values[k] == plain[k])
    {
      if k in values {
        UntargetedKeeps(plain, initial, values, k);
      }
    }
  }

  /** A chain of simple renames over one data value, each operation renaming the name the
    * previous one produced, is resolved to its last name whatever order the operations are
    * taken in: `chain[0]=v, chain[1]=<=chain[0], …` leaves only the last name, holding v. */
  lemma ChainResolves(chain: seq<string>, v: string, initial: map<string, string>,
                      values: map<string, string>, renamed: bool)
    requires |chain| >= 2
    requires forall i, j :: 0 <= i < j < |chain| ==> chain[i] != chain[j]
    requires forall k :: k in initial <==> exists i :: 1 <= i < |chain| && chain[i] == k
    requires forall i :: 1 <= i < |chain| ==> initial[chain[i]] == chain[i - 1]
    requires RenamesOutcome(map[chain[0] := v], initial, values, renamed)
    ensures values == map[chain[|chain| - 1] := v] && renamed
  {
    ChainShape(chain, initial);
    ChainLeavesOnlyLast(chain, v, initial, values, renamed);
    ChainLastHolds(chain, v, initial, values, renamed);
    SingletonMap(values, chain[|chain| - 1], v);
  }

  /** `chain` lists distinct names and `initial` renames each one but the first from the
    * one before it. */
  ghost predicate IsChain(chain: seq<string>, initial: map<string, string>)
  {
    |chain| >= 2 &&
    (forall i, j :: 0 <= i < j < |chain| ==> chain[i] != chain[j]) &&
    (forall k :: k in initial ==> exists i :: 1 <= i < |chain| && chain[i] == k) &&
    chain[0] !in initial &&
    (forall i :: 1 <= i < |chain| ==> chain[i] in initial && initial[chain[i]] == chain[i - 1])
  }

  lemma ChainShape(chain: seq<string>, initial: map<string, string>)
    requires |chain| >= 2
    requires forall i, j :: 0 <= i < j < |chain| ==> chain[i] != chain[j]
    requires forall k :: k in initial <==> exists i :: 1 <= i < |chain| && chain[i] == k
    requires forall i :: 1 <= i < |chain| ==> initial[chain[i]] == chain[i - 1]
    ensures IsChain(chain, initial)
  {
    assert forall i :: 1 <= i < |chain| ==> chain[0] != chain[i];
  }

  lemma ChainLastHolds(chain: seq<string>, v: string, initial: map<string, string>,
                       values: map<string, string>, renamed: bool)
    requires IsChain(chain, initial)
    requires RenamesOutcome(map[chain[0] := v], initial, values, renamed)
    requires forall i :: 0 <= i < |chain| - 1 ==> chain[i] !in values
    ensures renamed && chain[|chain| - 1] in values && values[chain[|chain| - 1]] == v
    ensures forall k :: k in values ==> k == chain[|chain| - 1]
  {
    assert initial[chain[1]] in map[chain[0] := v];
    var k :| k in initial && k in values;
    OnlyLastKey(chain, initial, values);
    SingleValue(values, chain[0], v, k);
  }

  /** Only the last name of a chain can hold a value once the others hold none. */
  lemma OnlyLastKey(chain: seq<string>, initial: map<string, string>, values: map<string, string>)
    requires IsChain(chain, initial)
    requires values.Keys <= {chain[0]} + initial.Keys
    requires forall i :: 0 <= i < |chain| - 1 ==> chain[i] !in values
    ensures forall k :: k in values ==> k == chain[|chain| - 1]
  {
    forall k | k in values
      ensures k == chain[|chain| - 1]
    {
      if k != chain[0] {
        var i :| 1 <= i < |chain| && chain[i] == k;
      }
    }
  }

  /** Every value taken from a map with the one value `v` is `v`. */
  lemma SingleValue(values: map<string, string>, name: string, v: string, k: string)
    requires Values(values) <= Values(map[name := v]) && k in values
    ensures values[k] == v
  {
    assert values[k] in Values(values);
    assert Values(map[name := v]) == {v};
  }

  lemma ChainLeavesOnlyLast(chain: seq<string>, v: string, initial: map<string, string>,
                            values: map<string, string>, renamed: bool)
    requires IsChain(chain, initial)
    requires RenamesOutcome(map[chain[0] := v], initial, values, renamed)
    ensures forall i :: 0 <= i < |chain| - 1 ==> chain[i] !in values
  {
    forall i | 0 <= i < |chain| - 1
      ensures chain[i] !in values
    {
      assert initial[chain[i + 1]] == chain[i];
      if i != 0 {
        assert chain[0] != chain[i];
      }
    }
  }

  lemma SingletonMap(m: map<string, string>, k: string, v: string)
    requires k in m && m[k] == v
    requires forall x :: x in m ==> x == k
    ensures m == map[k := v]
  {
    assert m.Keys == {k};
  }

  /** Hashtable.get: the value under `name`, or None for null. */
  function Lookup(m: map<string, string>, name: string): (r: Option<string>)
    ensures r.Some? <==> name in m
    ensures r.Some? ==> r.value == m[name]
  {
    if name in m then Some(m[name]) else None
  }

  /** performRenames: the three passes over the values read from a datafile. Returns the
    * renamed values and whether any value moved, or InvalidDatafileFormat for a malformed
    * pattern operation. */
  method PerformRenames(values: map<string, string>, subst: Substitution)
    returns (r: Result<(map<string, string>, bool), LoadError>)
    ensures r.Err? <==> SomePatternFails(PlainValues(values), PatternRenames(values), subst)
    ensures r.Err? ==> r.error == InvalidDatafileFormat
    ensures r.Ok? ==> forall k :: k in r.value.0 ==> !IsSimpleRename(r.value.0[k]) && !IsPatternRename(r.value.0[k])
    ensures r.Ok? ==> exists table :: RenameTable(PlainValues(values), SimpleRenames(values), PatternRenames(values), subst, table) &&
                                      RenamesOutcome(PlainValues(values), table, r.value.0, r.value.1)
    ensures SimpleRenames(values) == map[] && PatternRenames(values) == map[] ==> r == Ok((values, false))
  {
    var plain, simple, patterns := SplitRenames(values);
    var renames := AddPatternRenames(plain, simple, patterns, subst);
    if renames.Err? {
      return Err(renames.error);
    }
    var result, renamed := ApplyRenames(plain, renames.value);
    r := Ok((result, renamed));
    OnlyPlainValues(values, result);
    if SimpleRenames(values) == map[] && PatternRenames(values) == map[] {
      NoPatternsTable(plain, simple, subst, renames.value);
      NoRenamesArePlain(values);
    }
  }

  /** The example of a transitive rename: `foo=1`, `bar=<=foo`, `baz=<=bar` (split by
    * ExampleSplit into the value `foo=1` and the renames `bar` from `foo`, `baz` from `bar`)
    * leave `baz=1` alone, whichever operation is carried out first. */
  lemma TransitiveRenameExample(table: map<string, string>, result: map<string, string>, renamed: bool)
    requires table == map["bar" := "foo", "baz" := "bar"]
    requires RenamesOutcome(map["foo" := "1"], table, result, renamed)
    ensures result == map["baz" := "1"] && renamed
  {
    var chain := ExampleChain(table);
    assert map[chain[0] := "1"] == map["foo" := "1"];
    ChainResolves(chain, "1", table, result, renamed);
  }

  /** The renames of the example form the chain `foo`, `bar`, `baz`. */
  lemma ExampleChain(table: map<string, string>) returns (chain: seq<string>)
    requires table == map["bar" := "foo", "baz" := "bar"]
    ensures chain == ["foo", "bar", "baz"]
    ensures forall i, j :: 0 <= i < j < |chain| ==> chain[i] != chain[j]
    ensures forall k :: k in table <==> exists i :: 1 <= i < |chain| && chain[i] == k
    ensures forall i :: 1 <= i < |chain| ==> table[chain[i]] == chain[i - 1]
  {
    chain := ["foo", "bar", "baz"];
    assert chain[0] == "foo" && chain[1] == "bar" && chain[2] == "baz";
    forall k | k in table
      ensures exists i :: 1 <= i < |chain| && chain[i] == k
    {
      if k == "bar" { assert chain[1] == k; } else { assert chain[2] == k; }
    }
  }

  /** How the first pass splits the example. */
  lemma ExampleSplit()
    ensures var values := map["foo" := "1", "bar" := "<=foo", "baz" := "<=bar"];
            PlainValues(values) == map["foo" := "1"] &&
            SimpleRenames(values) == map["bar" := "foo", "baz" := "bar"] &&
            PatternRenames(values) == map[]
  {
    var values := map["foo" := "1", "bar" := "<=foo", "baz" := "<=bar"];
    assert IsSimpleRename("<=foo") && IsSimpleRename("<=bar") && !IsSimpleRename("1") && !IsPatternRename("1");
    assert "<=foo"[2..] == "foo" && "<=bar"[2..] == "bar";
    assert PlainValues(values) == map["foo" := "1"];
    assert SimpleRenames(values) == map["bar" := "foo", "baz" := "bar"];
    assert PatternRenames(values) == map[];
  }

  lemma OnlyPlainValues(values: map<string, string>, result: map<string, string>)
    requires Values(result) <= Values(PlainValues(values))
    ensures forall k :: k in result ==> !IsSimpleRename(result[k]) && !IsPatternRename(result[k])
  {
    forall k | k in result
      ensures !IsSimpleRename(result[k]) && !IsPatternRename(result[k])
    {
      assert result[k] in Values(result);
      var j :| j in PlainValues(values) && PlainValues(values)[j] == result[k];
    }
  }

  lemma NoRenamesArePlain(values: map<string, string>)
    requires SimpleRenames(values) == map[] && PatternRenames(values) == map[]
    ensures PlainValues(values) == values
  {
    assert forall k :: k in values ==> k !in SimpleRenames(values) && k !in PatternRenames(values);
  }
}
